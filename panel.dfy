/** `PyBmwPanel` as an object: its bookkeeping fields, updated in place by the handlers of its
    buttons. Every method is proved to leave the fields equal to what the matching function of
    `PanelSpec` computes from the fields before, so every property proved about those
    functions holds of the object. */
module Panel {

  import opened Wrappers
  import opened ResidueOrder
  import opened CsvImport
  import opened PanelSpec
  import opened PanelProperties

  class PyBmwPanel {
    var staged: set<ResidueKey>              // residues_to_mutate
    var originals: map<ResidueKey, string>   // original_residues
    var mutated: map<ResidueKey, string>     // mutated_residue_info
    var csvTargets: map<ResidueKey, string>  // csv_targets
    var sortedList: seq<ResidueKey>          // sorted_residue_list
    var stepIndex: nat                       // step_index
    var rowTargets: seq<string>              // the table's combo boxes
    var mode: Mode                           // the checked mode radio button

    /** The fields as a value of `PanelSpec`. */
    function State(): PanelState
      reads this
    {
      PanelState(staged, originals, mutated, csvTargets, sortedList, stepIndex, rowTargets, mode)
    }

    ghost predicate Valid()
      reads this
    {
      Consistent(State())
    }

    /** A new panel: batch mode checked, then a full reset. */
    constructor()
      ensures State() == PanelState({}, map[], map[], map[], [], 0, [], Batch)
      ensures Valid()
    {
      staged, originals, mutated, csvTargets := {}, map[], map[], map[];
      sortedList, stepIndex, rowTargets, mode := [], 0, [], Batch;
      EmptyIsConsistent(PanelState({}, map[], map[], map[], [], 0, [], Batch));
    }

    /** `full_reset` ("Clear All"). */
    method FullReset()
      modifies this
      ensures State() == PanelSpec.FullReset(old(State()))
      ensures Valid()
    {
      staged, sortedList, originals, mutated, csvTargets := {}, [], map[], map[], map[];
      stepIndex, rowTargets := 0, [];
      EmptyIsConsistent(State());
    }

    /** `_reset_staged_list`. */
    method ResetStagedList()
      modifies this
      ensures State() == PanelSpec.ResetStagedList(old(State()))
    {
      staged, sortedList := {}, [];
      originals := map k | k in originals && k in mutated :: originals[k];
      rowTargets := [];
    }

    /** The `original_residues` loop of `_populate_table`: every staged residue without a
        name gets the first name the lookup yields, or "UNK" when the lookup raises. */
    method RecordOriginalNames(lookup: ResidueKey -> NameLookup)
      modifies this`originals
      ensures originals == RecordOriginals(old(originals), staged, lookup)
    {
      var remaining := staged;
      ghost var done: set<ResidueKey> := {};
      while remaining != {}
        invariant remaining + done == staged && remaining !! done
        invariant originals == RecordOriginals(old(originals), done, lookup)
        decreases |remaining|
      {
        var k :| k in remaining;
        RecordOriginalsStep(old(originals), done, k, lookup);
        if k !in originals {
          match lookup(k)
          case Resn(name) => originals := originals[k := name];
          case NoAtoms =>
          case LookupRaises => originals := originals[k := Unknown];
        }
        remaining := remaining - {k};
        done := done + {k};
      }
    }

    /** `_populate_table`: names recorded, the list re-sorted, the table rebuilt. */
    method PopulateTable(lookup: ResidueKey -> NameLookup)
      modifies this
      ensures State() == Populate(old(State()), lookup)
    {
      RecordOriginalNames(lookup);
      sortedList := SortResidues(staged);
      rowTargets := BuildTable(sortedList, csvTargets);
    }

    /** `update_residue_table` ("Add to Selection"), given what `fetch_user_selection` returned. */
    method UpdateResidueTable(selection: set<ResidueKey>, lookup: ResidueKey -> NameLookup)
      modifies this
      requires Valid()
      ensures State() == PanelSpec.UpdateResidueTable(old(State()), selection, lookup)
      ensures Valid()
    {
      UpdateKeepsConsistent(State(), selection, lookup);
      if selection == {} {
        return;
      }
      staged := staged + selection;
      PopulateTable(lookup);
    }

    /** `_record_mutation`; `raised` says the step-mode cursor read failed after the mutation
        was recorded. */
    method RecordMutation(residue: ResidueKey, target: string, lookup: ResidueKey -> NameLookup)
      returns (raised: bool)
      modifies this
      ensures raised == RecordRaises(old(State()))
      ensures State() == PanelSpec.RecordMutation(old(State()), residue, target, lookup)
    {
      mutated := mutated[residue := target];
      var isStep := mode == Step;
      if isStep && stepIndex >= |sortedList| {
        raised := true;
        return;
      }
      var current := if isStep then sortedList[stepIndex] else residue;
      staged := staged - {residue};
      PopulateTable(lookup);
      if isStep {
        if current in sortedList {
          stepIndex := IndexOf(sortedList, current);
        } else if stepIndex >= |sortedList| {
          stepIndex := if |sortedList| > 0 then |sortedList| - 1 else 0;
        }
      }
      raised := false;
    }

    /** `execute_mutation`: `mutates` says whether the wizard previews and applies. */
    method ExecuteMutation(residue: ResidueKey, target: string,
                           mutates: (ResidueKey, string) -> bool, lookup: ResidueKey -> NameLookup)
      returns (ok: bool)
      modifies this
      ensures (State(), ok) == PanelSpec.ExecuteMutation(old(State()), residue, target, mutates, lookup)
      ensures old(Valid()) ==> Valid()
    {
      if Valid() {
        ExecuteKeepsConsistent(State(), residue, target, mutates, lookup);
      }
      if !mutates(residue, target) {
        return false;
      }
      var raised := RecordMutation(residue, target, lookup);
      ok := !raised;
    }

    /** `run_all_mutations`: `None` when the wizard cannot be launched; otherwise the loop over
        a snapshot of the list, each row reading its target from the table as it is now. */
    method RunAllMutations(batchTarget: string, wizardOk: bool,
                           mutates: (ResidueKey, string) -> bool, lookup: ResidueKey -> NameLookup)
      returns (skipped: Option<seq<ResidueKey>>)
      modifies this
      ensures !wizardOk ==> skipped.None? && State() == old(State())
      ensures wizardOk ==>
        var run := RunRows(old(State()), old(sortedList), 0, batchTarget, mutates, lookup);
        skipped == Some(run.1) && State() == run.0
      ensures old(Valid()) ==> Valid()
    {
      if Valid() {
        RunRowsKeepsConsistent(State(), sortedList, 0, batchTarget, mutates, lookup);
      }
      if !wizardOk {
        return None;
      }
      var snap := sortedList;
      ghost var run := RunRows(State(), snap, 0, batchTarget, mutates, lookup);
      var failed: seq<ResidueKey> := [];
      var row := 0;
      assert run.1 == failed + run.1;
      while row < |snap|
        invariant row <= |snap|
        invariant run.0 == RunRows(State(), snap, row, batchTarget, mutates, lookup).0
        invariant run.1 == failed + RunRows(State(), snap, row, batchTarget, mutates, lookup).1
        decreases |snap| - row
      {
        failed := RunSnapshotRow(snap, row, failed, batchTarget, mutates, lookup);
        row := row + 1;
      }
      assert failed + [] == failed;
      skipped := Some(failed);
    }

    /** One pass of the loop of `run_all_mutations` over the snapshot `snap`, adding the
        residue to `failed` when it is skipped. */
    method RunSnapshotRow(snap: seq<ResidueKey>, row: nat, failed: seq<ResidueKey>, batchTarget: string,
                          mutates: (ResidueKey, string) -> bool, lookup: ResidueKey -> NameLookup)
      returns (failed': seq<ResidueKey>)
      requires row < |snap|
      modifies this
      ensures var before := RunRows(old(State()), snap, row, batchTarget, mutates, lookup);
              var after := RunRows(State(), snap, row + 1, batchTarget, mutates, lookup);
        before.0 == after.0 && failed + before.1 == failed' + after.1
    {
      RunRowsUnfold(State(), snap, row, batchTarget, mutates, lookup);
      var ok := RunRow(snap[row], row, batchTarget, mutates, lookup);
      ghost var rest := RunRows(State(), snap, row + 1, batchTarget, mutates, lookup).1;
      if !ok {
        assert failed + ([snap[row]] + rest) == (failed + [snap[row]]) + rest;
        failed' := failed + [snap[row]];
      } else {
        assert [] + rest == rest;
        failed' := failed;
      }
    }

    /** One pass of the loop of `run_all_mutations`: the target comes from the batch combo box
        or from the table row with the same index; a missing row raises and counts as a
        failure. */
    method RunRow(residue: ResidueKey, row: nat, batchTarget: string,
                  mutates: (ResidueKey, string) -> bool, lookup: ResidueKey -> NameLookup)
      returns (ok: bool)
      modifies this
      ensures (State(), ok) == RowStep(old(State()), residue, row, batchTarget, mutates, lookup)
    {
      ok := false;
      if mode == Batch {
        ok := ExecuteMutation(residue, batchTarget, mutates, lookup);
      } else if row < |rowTargets| {
        ok := ExecuteMutation(residue, rowTargets[row], mutates, lookup);
      }
    }

    /** `start_mutation_process` ("Mutate All"). */
    method StartMutationProcess(batchTarget: string, wizardOk: bool,
                                mutates: (ResidueKey, string) -> bool, lookup: ResidueKey -> NameLookup)
      returns (outcome: StartOutcome)
      modifies this
      requires Valid()
      ensures (State(), outcome) == PanelSpec.StartMutationProcess(old(State()), batchTarget, wizardOk, mutates, lookup)
      ensures Valid()
    {
      ghost var before := State();
      StartKeepsConsistent(before, batchTarget, wizardOk, mutates, lookup);
      var count := |sortedList|;
      if count == 0 {
        return NothingStaged;
      }
      var skipped := RunAllMutations(batchTarget, wizardOk, mutates, lookup);
      if skipped.None? {
        return WizardFailed;
      }
      ResetStagedList();
      outcome := Completed(count - |skipped.value|, |skipped.value|);
    }

    /** `apply_single_mutation_step` ("Apply This Mutation"). */
    method ApplySingleMutationStep(mutates: (ResidueKey, string) -> bool, lookup: ResidueKey -> NameLookup)
      returns (ok: bool)
      modifies this
      requires Valid()
      ensures (State(), ok) == PanelSpec.ApplySingleMutationStep(old(State()), mutates, lookup)
      ensures Valid()
    {
      ApplyStepKeepsConsistent(State(), mutates, lookup);
      if sortedList == [] || stepIndex >= |sortedList| {
        return false;
      }
      if stepIndex >= |rowTargets| {
        // no combo box at the cursor: the handler raises before anything changes
        return false;
      }
      ok := ExecuteMutation(sortedList[stepIndex], rowTargets[stepIndex], mutates, lookup);
    }

    /** `show_previous_residue`. */
    method ShowPreviousResidue()
      requires Valid()
      modifies this
      ensures State() == PanelSpec.ShowPreviousResidue(old(State()))
      ensures Valid()
    {
      if stepIndex > 0 {
        stepIndex := stepIndex - 1;
      }
    }

    /** `show_next_residue`. */
    method ShowNextResidue()
      requires Valid()
      modifies this
      ensures State() == PanelSpec.ShowNextResidue(old(State()))
      ensures Valid()
    {
      if stepIndex < |sortedList| - 1 {
        stepIndex := stepIndex + 1;
      }
    }

    /** `prime_wizard_from_table_selection`, given the first selected row if any. */
    method PrimeFromTableSelection(selected: Option<nat>)
      requires selected.Some? ==> selected.value < |sortedList|
      requires Valid()
      modifies this
      ensures State() == SelectTableRow(old(State()), selected)
      ensures Valid()
    {
      if mode != Step {
        return;
      }
      if selected.None? {
        return;
      }
      stepIndex := selected.value;
    }

    /** The user picks `code` in the combo box of `row`. */
    method ChooseRowTarget(row: nat, code: string)
      requires row < |rowTargets| && code in AminoAcids
      requires Valid()
      modifies this
      ensures State() == PanelSpec.ChooseRowTarget(old(State()), row, code)
      ensures Valid()
    {
      rowTargets := rowTargets[row := code];
    }

    /** The user checks a mode radio button. */
    method SelectMode(m: Mode)
      requires Valid()
      modifies this
      ensures State() == PanelSpec.SelectMode(old(State()), m)
      ensures Valid()
    {
      mode := m;
    }

    /** `load_mutations_from_csv` ("Import CSV"): the dialog's answer, the loaded objects, the
        rows the reader yields and whether it then raises are parameters. */
    method LoadMutationsFromCsv(fileChosen: bool, objects: seq<string>, rows: seq<Row>, readFailed: bool,
                                contains: set<ResidueKey>, lookup: ResidueKey -> NameLookup)
      returns (outcome: LoadOutcome)
      modifies this
      ensures (State(), outcome)
           == PanelSpec.LoadMutationsFromCsv(old(State()), fileChosen, objects, rows, readFailed, contains, lookup)
      ensures Valid()
    {
      LoadIsConsistent(State(), fileChosen, objects, rows, readFailed, contains, lookup);
      ghost var reset := PanelSpec.FullReset(State());
      FullReset();
      if !fileChosen {
        return Cancelled;
      }
      if objects == [] {
        return NoObjects;
      }
      csvTargets := map[];
      var found, notFound := ReadRows(rows, objects, contains);
      assert staged == {} && originals == map[] && mutated == map[];
      assert sortedList == [] && stepIndex == 0 && rowTargets == [] && mode == reset.mode;
      ghost var withTargets := reset.(csvTargets := csvTargets);
      if readFailed {
        return ReadFailed;
      }
      if found != {} {
        StageImported(found, lookup);
      }
      outcome := Loaded(notFound);
    }
 
    /** The end of `load_mutations_from_csv`: the accepted residues are added to the (empty)
        staged set, individual mode is checked and the table populated. */
    method StageImported(found: set<ResidueKey>, lookup: ResidueKey -> NameLookup)
      requires staged == {}
      modifies this
      ensures State() == Populate(old(State()).(staged := found, mode := Individual), lookup)
    {
      staged := staged + found;
      assert staged == found;
      mode := Individual;
      PopulateTable(lookup);
    }

    /** The `for row in reader` loop of `load_mutations_from_csv`: accepted rows go to
        `found_residues` and `csv_targets`, rejected ones to `not_found`. */
    method ReadRows(rows: seq<Row>, objects: seq<string>, contains: set<ResidueKey>)
      returns (found: set<ResidueKey>, notFound: seq<Rejection>)
      requires csvTargets == map[]
      modifies this`csvTargets
      ensures Import(found, csvTargets, notFound) == ImportRows(rows, objects, contains)
    {
      found, notFound := {}, [];
      var i := 0;
      while i < |rows|
        invariant i <= |rows|
        invariant Import(found, csvTargets, notFound) == ImportRows(rows[..i], objects, contains)
      {
        ImportRowsSnoc(rows[..i], rows[i], objects, contains);
        assert rows[..i + 1] == rows[..i] + [rows[i]];
        found, notFound := ReadOneRow(rows[i], objects, contains, found, notFound);
        i := i + 1;
      }
      assert rows[..i] == rows;
    }

    /** One pass of the import loop. */
    method ReadOneRow(row: Row, objects: seq<string>, contains: set<ResidueKey>,
                      found: set<ResidueKey>, notFound: seq<Rejection>)
      returns (found': set<ResidueKey>, notFound': seq<Rejection>)
      modifies this`csvTargets
      ensures Import(found', csvTargets, notFound')
           == Absorb(Import(found, old(csvTargets), notFound), ClassifyRow(row, objects, contains))
    {
      found', notFound' := found, notFound;
      var o := ReadRow(row, objects, contains);
      match o
      case Skipped =>
      case Rejected(j) => notFound' := notFound + [j];
      case Accepted(k, t) =>
        found' := found + {k};
        csvTargets := csvTargets[k := t];
    }
  }

  /** The `original_residues` loop takes one more residue. */
  lemma RecordOriginalsStep(originals: map<ResidueKey, string>, done: set<ResidueKey>, k: ResidueKey,
                            lookup: ResidueKey -> NameLookup)
    requires k !in done
    ensures var before := RecordOriginals(originals, done, lookup);
      RecordOriginals(originals, done + {k}, lookup)
        == if k in before || lookup(k).NoAtoms? then before
           else before[k := if lookup(k).Resn? then lookup(k).name else Unknown]
  {
  }

  /** The table loop of `_populate_table`: one combo box per listed residue, set to the
      imported code when there is one and otherwise left at the first code. */
  method BuildTable(list: seq<ResidueKey>, csvTargets: map<ResidueKey, string>) returns (targets: seq<string>)
    ensures targets == DefaultTargets(list, csvTargets)
  {
    targets := [];
    var row := 0;
    while row < |list|
      invariant row <= |list| && |targets| == row
      invariant forall i :: 0 <= i < row ==> targets[i] == DefaultTarget(list[i], csvTargets)
    {
      var code := DefaultCode;
      if list[row] in csvTargets {
        code := csvTargets[list[row]];
      }
      targets := targets + [code];
      row := row + 1;
    }
  }

  /** The inner `for obj in all_objects` loop with its `break`. */
  method FindModel(objects: seq<string>, chain: string, resi: string, contains: set<ResidueKey>)
    returns (found: Option<string>)
    ensures found == FirstContaining(objects, chain, resi, contains)
  {
    var i := 0;
    while i < |objects|
      invariant i <= |objects|
      invariant FirstContaining(objects, chain, resi, contains) == FirstContaining(objects[i..], chain, resi, contains)
    {
      assert objects[i..][1..] == objects[i + 1..];
      if ResidueKey(objects[i], chain, resi) in contains {
        return Some(objects[i]);
      }
      i := i + 1;
    }
    found := None;
  }

  /** The body of the import loop for one row. */
  method ReadRow(row: Row, objects: seq<string>, contains: set<ResidueKey>) returns (o: RowOutcome)
    ensures o == ClassifyRow(row, objects, contains)
  {
    if |row| < 2 {
      return Skipped;
    }
    var location, code := Strip(row[0]), Upper(Strip(row[1]));
    if code !in AminoAcids {
      return Rejected(InvalidCode(row, code));
    }
    var parts := LocationTokens(location);
    if |parts| < 2 {
      return Rejected(BadLocation(row, location));
    }
    var chain, resi := parts[0], parts[1];
    var model := FindModel(objects, chain, resi, contains);
    if model.Some? && model.value != "" {
      o := Accepted(ResidueKey(model.value, chain, resi), code);
    } else {
      o := Rejected(NotFound(row, chain, resi));
    }
  }
}
