/** The bookkeeping of `PyBmwPanel` as values: the panel's fields, and each operation as a
    function from the fields before to the fields after. The host (PyMOL) enters only
    through oracles: whether a mutation previews and applies, what the name lookup of a
    residue's CA atoms yields, which residues the user selected. */
module PanelSpec {

  import opened Wrappers
  import opened ResidueOrder
  import opened CsvImport

  /** Which of the three mode radio buttons is checked. */
  datatype Mode = Batch | Individual | Step

  /** What iterating over a residue's CA atoms for `resn` does: yields a name, yields
      nothing, or raises. */
  datatype NameLookup = Resn(name: string) | NoAtoms | LookupRaises

  /** The fields of the panel the operations read and write. `rowTargets` is the text of the
      "Mutate To" combo box of each table row, the only part of the table that is read back. */
  datatype PanelState = PanelState(
    staged: set<ResidueKey>,              // residues_to_mutate
    originals: map<ResidueKey, string>,   // original_residues
    mutated: map<ResidueKey, string>,     // mutated_residue_info
    csvTargets: map<ResidueKey, string>,  // csv_targets
    sortedList: seq<ResidueKey>,          // sorted_residue_list
    stepIndex: nat,                       // step_index
    rowTargets: seq<string>,              // the table's combo boxes
    mode: Mode)

  /** The residue-name placeholder shown when no name is known. */
  const Unknown: string := "UNK"

  /** What every operation keeps: the list is the sorted staged set, the table has one row
      per listed residue, and every code shown or imported is one of the twenty. */
  ghost predicate Consistent(st: PanelState)
  {
    && st.sortedList == SortedList(st.staged)
    && |st.rowTargets| == |st.sortedList|
    && (forall k :: k in st.csvTargets ==> st.csvTargets[k] in AminoAcids)
    && (forall i :: 0 <= i < |st.rowTargets| ==> st.rowTargets[i] in AminoAcids)
  }

  // ---------------------------------------------------------------------------
  // Staging (`update_residue_table`, `_populate_table`)

  /** The `original_residues` loop of `_populate_table`: a staged residue without an entry gets
      the first looked-up name, "UNK" when the lookup raises, and no entry when it yields none. */
  function RecordOriginals(originals: map<ResidueKey, string>, staged: set<ResidueKey>, lookup: ResidueKey -> NameLookup)
    : map<ResidueKey, string>
  {
    originals + map k | k in staged && k !in originals && !lookup(k).NoAtoms? ::
      if lookup(k).Resn? then lookup(k).name else Unknown
  }

  /** The name the table and the label show for a residue. */
  function DisplayName(originals: map<ResidueKey, string>, k: ResidueKey): string
  {
    if k in originals then originals[k] else Unknown
  }

  /** The code a rebuilt combo box starts with: the imported target, else the first code. */
  function DefaultTarget(k: ResidueKey, csvTargets: map<ResidueKey, string>): string
  {
    if k in csvTargets then csvTargets[k] else DefaultCode
  }

  function DefaultTargets(list: seq<ResidueKey>, csvTargets: map<ResidueKey, string>): seq<string>
  {
    seq(|list|, i requires 0 <= i < |list| => DefaultTarget(list[i], csvTargets))
  }

  /** `_populate_table`: names recorded, list re-sorted, table rebuilt from defaults. */
  ghost function Populate(st: PanelState, lookup: ResidueKey -> NameLookup): PanelState
  {
    var list := SortedList(st.staged);
    st.(originals := RecordOriginals(st.originals, st.staged, lookup),
        sortedList := list,
        rowTargets := DefaultTargets(list, st.csvTargets))
  }

  /** `update_residue_table`: an empty selection changes nothing; otherwise the selection is
      added to the staged set and the table repopulated. */
  ghost function UpdateResidueTable(st: PanelState, selection: set<ResidueKey>, lookup: ResidueKey -> NameLookup)
    : (r: PanelState)
    ensures r.staged == st.staged + selection
    ensures selection == {} ==> r == st
    ensures r.mutated == st.mutated && r.csvTargets == st.csvTargets
    ensures r.stepIndex == st.stepIndex && r.mode == st.mode
  {
    if selection == {} then st else Populate(st.(staged := st.staged + selection), lookup)
  }

  // ---------------------------------------------------------------------------
  // Resets

  /** `_reset_staged_list`: the staged set, list and table are emptied, and only the names of
      residues already mutated are kept. */
  function ResetStagedList(st: PanelState): (r: PanelState)
    ensures r.staged == {} && r.sortedList == [] && r.rowTargets == []
    ensures r.originals.Keys == st.originals.Keys * st.mutated.Keys
    ensures forall k :: k in r.originals ==> r.originals[k] == st.originals[k]
    ensures r.mutated == st.mutated && r.csvTargets == st.csvTargets
    ensures r.stepIndex == st.stepIndex && r.mode == st.mode
  {
    st.(staged := {}, sortedList := [], rowTargets := [],
        originals := map k | k in st.originals && k in st.mutated :: st.originals[k])
  }

  /** `full_reset`: every collection emptied, the cursor back to 0; the mode radio is left alone. */
  function FullReset(st: PanelState): (r: PanelState)
    ensures r.staged == {} && r.sortedList == [] && r.rowTargets == []
    ensures r.originals == map[] && r.mutated == map[] && r.csvTargets == map[]
    ensures r.stepIndex == 0 && r.mode == st.mode
  {
    PanelState({}, map[], map[], map[], [], 0, [], st.mode)
  }

  // ---------------------------------------------------------------------------
  // Recording a mutation and executing one (`_record_mutation`, `execute_mutation`)

  /** `list.index(x)`: the first position holding `x`. */
  function IndexOf(list: seq<ResidueKey>, x: ResidueKey): (i: nat)
    requires x in list
    ensures i < |list| && list[i] == x
    ensures forall j :: 0 <= j < i ==> list[j] != x
  {
    if list[0] == x then 0 else 1 + IndexOf(list[1..], x)
  }

  /** The step cursor after the list changed: it follows the residue it showed when that is
      still listed; otherwise it is clamped to the last position only if it is past the end. */
  function ResolveCursor(current: ResidueKey, index: nat, list: seq<ResidueKey>): (r: nat)
    ensures list != [] ==> r < |list|
    ensures current in list ==> list[r] == current
    ensures current !in list && index < |list| ==> r == index
    ensures current !in list && index >= |list| ==> r == if list == [] then 0 else |list| - 1
  {
    if current in list then IndexOf(list, current)
    else if index >= |list| then (if |list| > 0 then |list| - 1 else 0)
    else index
  }

  /** Whether `_record_mutation` raises before it finishes: in step mode it reads
      `sorted_residue_list[step_index]`, which fails when the cursor is past the end. */
  predicate RecordRaises(st: PanelState)
  {
    st.mode == Step && st.stepIndex >= |st.sortedList|
  }

  /** `_record_mutation`: the mutation is recorded first; then (unless the cursor read above
      raises) the residue leaves the staged set, the table is repopulated and, in step mode,
      the cursor re-resolved. */
  ghost function RecordMutation(st: PanelState, residue: ResidueKey, target: string, lookup: ResidueKey -> NameLookup)
    : (r: PanelState)
    ensures r.mutated == st.mutated[residue := target]
    ensures r.csvTargets == st.csvTargets && r.mode == st.mode
    ensures RecordRaises(st) ==> r == st.(mutated := st.mutated[residue := target])
    ensures !RecordRaises(st) ==> r.staged == st.staged - {residue}
  {
    var recorded := st.(mutated := st.mutated[residue := target]);
    if RecordRaises(st) then recorded
    else
      var repopulated := Populate(recorded.(staged := recorded.staged - {residue}), lookup);
      if st.mode == Step then
        repopulated.(stepIndex := ResolveCursor(st.sortedList[st.stepIndex], st.stepIndex, repopulated.sortedList))
      else repopulated
  }

  /** `execute_mutation`: `mutates(residue, target)` says whether the wizard previews and
      applies the change without raising. Yields the new state and the returned flag. */
  ghost function ExecuteMutation(st: PanelState, residue: ResidueKey, target: string,
                                 mutates: (ResidueKey, string) -> bool, lookup: ResidueKey -> NameLookup)
    : (r: (PanelState, bool))
    ensures !mutates(residue, target) ==> r == (st, false)
    ensures r.1 <==> mutates(residue, target) && !RecordRaises(st)
  {
    if !mutates(residue, target) then (st, false)
    else (RecordMutation(st, residue, target, lookup), !RecordRaises(st))
  }

  // ---------------------------------------------------------------------------
  // The batch loop and its caller (`run_all_mutations`, `start_mutation_process`)

  /** The combo box a row index finds in the table as it is now: none past the last row. */
  function TargetAt(st: PanelState, row: nat, batchTarget: string): Option<string>
  {
    if st.mode == Batch then Some(batchTarget)
    else if row < |st.rowTargets| then Some(st.rowTargets[row])
    else None
  }

  /** One pass of the loop of `run_all_mutations`: the residue is mutated to the target its
      row index finds; a missing row raises, which counts as a failure. */
  ghost function RowStep(st: PanelState, residue: ResidueKey, row: nat, batchTarget: string,
                         mutates: (ResidueKey, string) -> bool, lookup: ResidueKey -> NameLookup)
    : (r: (PanelState, bool))
    ensures TargetAt(st, row, batchTarget).None? ==> r == (st, false)
  {
    var target := TargetAt(st, row, batchTarget);
    if target.Some? then ExecuteMutation(st, residue, target.value, mutates, lookup) else (st, false)
  }

  /** The loop of `run_all_mutations` from row `row` of the snapshot `snap` on. The target is
      read from the CURRENT table at that row index; a missing row raises and the residue is
      skipped. Yields the final state and the skipped residues in order. */
  ghost function RunRows(st: PanelState, snap: seq<ResidueKey>, row: nat, batchTarget: string,
                         mutates: (ResidueKey, string) -> bool, lookup: ResidueKey -> NameLookup)
    : (r: (PanelState, seq<ResidueKey>))
    requires row <= |snap|
    ensures |r.1| <= |snap| - row
    decreases |snap| - row
  {
    if row == |snap| then (st, [])
    else
      var step := RowStep(st, snap[row], row, batchTarget, mutates, lookup);
      var rest := RunRows(step.0, snap, row + 1, batchTarget, mutates, lookup);
      (rest.0, (if step.1 then [] else [snap[row]]) + rest.1)
  }

  datatype StartOutcome =
    | NothingStaged
    | WizardFailed
    | Completed(succeeded: int, skipped: nat)

  /** `start_mutation_process`: nothing listed gives a warning; a wizard that cannot be
      launched aborts; otherwise every listed residue is tried, the successes are counted as
      the listed count minus the skipped count, and the staging is reset. */
  ghost function StartMutationProcess(st: PanelState, batchTarget: string, wizardOk: bool,
                                      mutates: (ResidueKey, string) -> bool, lookup: ResidueKey -> NameLookup)
    : (r: (PanelState, StartOutcome))
    ensures r.1.Completed? ==> r.1.succeeded + r.1.skipped == |st.sortedList| && r.1.succeeded >= 0
    ensures r.1.Completed? <==> |st.sortedList| > 0 && wizardOk
    ensures !r.1.Completed? ==> r.0 == st
    ensures r.1.Completed? ==> r.0.staged == {} && r.0.sortedList == []
  {
    if |st.sortedList| == 0 then (st, NothingStaged)
    else if !wizardOk then (st, WizardFailed)
    else
      var run := RunRows(st, st.sortedList, 0, batchTarget, mutates, lookup);
      (ResetStagedList(run.0), Completed(|st.sortedList| - |run.1|, |run.1|))
  }

  // ---------------------------------------------------------------------------
  // Step mode

  /** `apply_single_mutation_step`: mutate the residue under the cursor to its row's target. */
  ghost function ApplySingleMutationStep(st: PanelState, mutates: (ResidueKey, string) -> bool,
                                         lookup: ResidueKey -> NameLookup)
    : (r: (PanelState, bool))
    ensures st.stepIndex >= |st.sortedList| ==> r == (st, false)
  {
    // a table without a row at the cursor raises before anything changes
    if st.stepIndex >= |st.sortedList| || st.stepIndex >= |st.rowTargets| then (st, false)
    else ExecuteMutation(st, st.sortedList[st.stepIndex], st.rowTargets[st.stepIndex], mutates, lookup)
  }

  /** `show_previous_residue`. */
  function ShowPreviousResidue(st: PanelState): (r: PanelState)
    ensures st.stepIndex > 0 ==> r.stepIndex == st.stepIndex - 1
    ensures st.stepIndex == 0 ==> r == st
    ensures r.(stepIndex := st.stepIndex) == st
    ensures st.sortedList != [] ==> (r != st <==> PreviousEnabled(st))
    ensures st.stepIndex < |st.sortedList| ==> r.stepIndex < |st.sortedList|
  {
    if st.stepIndex > 0 then st.(stepIndex := st.stepIndex - 1) else st
  }

  /** `show_next_residue`. */
  function ShowNextResidue(st: PanelState): (r: PanelState)
    ensures st.stepIndex + 1 < |st.sortedList| ==> r.stepIndex == st.stepIndex + 1
    ensures st.stepIndex + 1 >= |st.sortedList| ==> r == st
    ensures r.(stepIndex := st.stepIndex) == st
    ensures st.sortedList != [] ==> (r != st <==> NextEnabled(st))
    ensures st.stepIndex < |st.sortedList| ==> r.stepIndex < |st.sortedList|
  {
    if st.stepIndex < |st.sortedList| - 1 then st.(stepIndex := st.stepIndex + 1) else st
  }

  /** `prime_wizard_from_table_selection`: in step mode the cursor jumps to the selected row. */
  function SelectTableRow(st: PanelState, selected: Option<nat>): (r: PanelState)
    requires selected.Some? ==> selected.value < |st.sortedList|
    ensures r.stepIndex == if st.mode == Step && selected.Some? then selected.value else st.stepIndex
    ensures r.(stepIndex := st.stepIndex) == st
  {
    if st.mode != Step || selected.None? then st else st.(stepIndex := selected.value)
  }

  /** The user picks another code in a row's combo box. */
  function ChooseRowTarget(st: PanelState, row: nat, code: string): (r: PanelState)
    requires row < |st.rowTargets| && code in AminoAcids
    ensures |r.rowTargets| == |st.rowTargets| && r.rowTargets[row] == code
    ensures forall i :: 0 <= i < |st.rowTargets| && i != row ==> r.rowTargets[i] == st.rowTargets[i]
    ensures r.(rowTargets := st.rowTargets) == st
  {
    st.(rowTargets := st.rowTargets[row := code])
  }

  /** The user checks a mode radio button. */
  function SelectMode(st: PanelState, mode: Mode): (r: PanelState)
    ensures r.mode == mode && r.(mode := st.mode) == st
  {
    st.(mode := mode)
  }

  /** Enablement set by `refresh_panel_view` in step mode. */
  predicate ApplyEnabled(st: PanelState) { st.sortedList != [] }

  predicate PreviousEnabled(st: PanelState) { st.sortedList != [] && st.stepIndex > 0 }

  predicate NextEnabled(st: PanelState) { st.sortedList != [] && st.stepIndex < |st.sortedList| - 1 }

  /** Enablement set by `refresh_panel_view` in every mode. */
  predicate MutateAllEnabled(st: PanelState) { st.staged != {} }

  predicate ClearAllEnabled(st: PanelState) { st.staged != {} || st.mutated != map[] }

  predicate ExportEnabled(st: PanelState, objectsLoaded: bool) { st.mutated != map[] || objectsLoaded }

  // ---------------------------------------------------------------------------
  // Import (`load_mutations_from_csv`)

  datatype LoadOutcome =
    | Cancelled
    | NoObjects
    | ReadFailed
    | Loaded(rejections: seq<Rejection>)

  /** `load_mutations_from_csv`: a full reset first; then, if a file was chosen and objects
      are loaded, every row the reader yields is classified. `readFailed` says the reader
      raised after yielding `rows`: the targets collected so far stay, nothing is staged.
      Otherwise the accepted residues are staged, the mode switches to Individual and the
      table is populated. */
  ghost function LoadMutationsFromCsv(st: PanelState, fileChosen: bool, objects: seq<string>, rows: seq<Row>,
                                      readFailed: bool, contains: set<ResidueKey>, lookup: ResidueKey -> NameLookup)
    : (r: (PanelState, LoadOutcome))
    ensures r.0.mutated == map[] && r.0.stepIndex == 0
    ensures r.1.Loaded? <==> fileChosen && objects != [] && !readFailed
    ensures !r.1.Loaded? ==> r.0.staged == {}
    ensures r.1.Loaded? ==>
              && r.0.staged == ImportRows(rows, objects, contains).found
              && r.0.csvTargets == ImportRows(rows, objects, contains).targets
              && r.1.rejections == ImportRows(rows, objects, contains).rejections
  {
    var reset := FullReset(st);
    if !fileChosen then (reset, Cancelled)
    else if objects == [] then (reset, NoObjects)
    else
      var imported := ImportRows(rows, objects, contains);
      var withTargets := reset.(csvTargets := imported.targets);
      if readFailed then (withTargets, ReadFailed)
      else if imported.found == {} then (withTargets, Loaded(imported.rejections))
      else (Populate(withTargets.(staged := imported.found, mode := Individual), lookup), Loaded(imported.rejections))
  }
}
