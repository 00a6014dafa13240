/** What the panel's operations promise, proved about the functions of `PanelSpec`. */
module PanelProperties {

  import opened Wrappers
  import opened Sorting
  import opened ResidueOrder
  import opened CsvImport
  import opened PanelSpec

  // ---------------------------------------------------------------------------
  // Every operation keeps the panel consistent

  lemma EmptyIsConsistent(st: PanelState)
    requires st.staged == {} && st.sortedList == [] && st.rowTargets == []
    requires forall k :: k in st.csvTargets ==> st.csvTargets[k] in AminoAcids
    ensures Consistent(st)
  {
    assert |SortedList({})| == 0;
  }

  /** A populated table lists the staged set in order with one valid code per row. */
  lemma PopulateConsistent(st: PanelState, lookup: ResidueKey -> NameLookup)
    requires forall k :: k in st.csvTargets ==> st.csvTargets[k] in AminoAcids
    ensures Consistent(Populate(st, lookup))
  {
    assert AminoAcids[0] == DefaultCode;
  }

  lemma UpdateKeepsConsistent(st: PanelState, selection: set<ResidueKey>, lookup: ResidueKey -> NameLookup)
    requires Consistent(st)
    ensures Consistent(UpdateResidueTable(st, selection, lookup))
  {
    if selection != {} {
      PopulateConsistent(st.(staged := st.staged + selection), lookup);
    }
  }

  lemma RecordKeepsConsistent(st: PanelState, residue: ResidueKey, target: string, lookup: ResidueKey -> NameLookup)
    requires Consistent(st)
    ensures Consistent(RecordMutation(st, residue, target, lookup))
  {
    var recorded := st.(mutated := st.mutated[residue := target]);
    if !RecordRaises(st) {
      PopulateConsistent(recorded.(staged := recorded.staged - {residue}), lookup);
    }
  }

  lemma ExecuteKeepsConsistent(st: PanelState, residue: ResidueKey, target: string,
                               mutates: (ResidueKey, string) -> bool, lookup: ResidueKey -> NameLookup)
    requires Consistent(st)
    ensures Consistent(ExecuteMutation(st, residue, target, mutates, lookup).0)
  {
    if mutates(residue, target) {
      RecordKeepsConsistent(st, residue, target, lookup);
    }
  }

  lemma RowStepKeepsConsistent(st: PanelState, residue: ResidueKey, row: nat, batchTarget: string,
                               mutates: (ResidueKey, string) -> bool, lookup: ResidueKey -> NameLookup)
    requires Consistent(st)
    ensures Consistent(RowStep(st, residue, row, batchTarget, mutates, lookup).0)
  {
    var target := TargetAt(st, row, batchTarget);
    if target.Some? {
      ExecuteKeepsConsistent(st, residue, target.value, mutates, lookup);
    }
  }

  lemma {:induction false} RunRowsKeepsConsistent(st: PanelState, snap: seq<ResidueKey>, row: nat, batchTarget: string,
                                                  mutates: (ResidueKey, string) -> bool, lookup: ResidueKey -> NameLookup)
    requires Consistent(st) && row <= |snap|
    ensures Consistent(RunRows(st, snap, row, batchTarget, mutates, lookup).0)
    decreases |snap| - row
  {
    if row < |snap| {
      var step := RowStep(st, snap[row], row, batchTarget, mutates, lookup);
      RowStepKeepsConsistent(st, snap[row], row, batchTarget, mutates, lookup);
      RunRowsKeepsConsistent(step.0, snap, row + 1, batchTarget, mutates, lookup);
    }
  }

  lemma StartKeepsConsistent(st: PanelState, batchTarget: string, wizardOk: bool,
                             mutates: (ResidueKey, string) -> bool, lookup: ResidueKey -> NameLookup)
    requires Consistent(st)
    ensures Consistent(StartMutationProcess(st, batchTarget, wizardOk, mutates, lookup).0)
  {
    if |st.sortedList| > 0 && wizardOk {
      var run := RunRows(st, st.sortedList, 0, batchTarget, mutates, lookup);
      RunRowsKeepsConsistent(st, st.sortedList, 0, batchTarget, mutates, lookup);
      EmptyIsConsistent(ResetStagedList(run.0));
    }
  }

  lemma ApplyStepKeepsConsistent(st: PanelState, mutates: (ResidueKey, string) -> bool, lookup: ResidueKey -> NameLookup)
    requires Consistent(st)
    ensures Consistent(ApplySingleMutationStep(st, mutates, lookup).0)
  {
    if st.stepIndex < |st.sortedList| {
      ExecuteKeepsConsistent(st, st.sortedList[st.stepIndex], st.rowTargets[st.stepIndex], mutates, lookup);
    }
  }

  /** Whatever the file and the host say, an import leaves the panel consistent. */
  lemma LoadIsConsistent(st: PanelState, fileChosen: bool, objects: seq<string>, rows: seq<Row>,
                         readFailed: bool, contains: set<ResidueKey>, lookup: ResidueKey -> NameLookup)
    ensures Consistent(LoadMutationsFromCsv(st, fileChosen, objects, rows, readFailed, contains, lookup).0)
  {
    var reset := FullReset(st);
    EmptyIsConsistent(reset);
    if fileChosen && objects != [] {
      var imported := ImportRows(rows, objects, contains);
      var withTargets := reset.(csvTargets := imported.targets);
      EmptyIsConsistent(withTargets);
      if !readFailed && imported.found != {} {
        PopulateConsistent(withTargets.(staged := imported.found, mode := Individual), lookup);
      }
    }
  }

  // ---------------------------------------------------------------------------
  // Staging

  /** Names already recorded are never overwritten; a staged residue without one gets the
      looked-up name, "UNK" when the lookup raises, and nothing when it yields no atoms. */
  lemma RecordOriginalsKeepsNames(originals: map<ResidueKey, string>, staged: set<ResidueKey>,
                                  lookup: ResidueKey -> NameLookup)
    ensures var r := RecordOriginals(originals, staged, lookup);
      && (forall k :: k in originals ==> k in r && r[k] == originals[k])
      && (forall k :: k in r && k !in originals ==> k in staged && !lookup(k).NoAtoms?)
      && (forall k :: k in staged && k !in originals && lookup(k).Resn? ==> k in r && r[k] == lookup(k).name)
      && (forall k :: k in staged && k !in originals && lookup(k).LookupRaises? ==> k in r && r[k] == Unknown)
      && (forall k :: k in staged ==> DisplayName(r, k) == DisplayName(originals, k) || k !in originals)
  {
  }

  /** Staging the same selection twice is staging it once: the union absorbs the repeat and
      every name lookup that stored nothing stores nothing again. */
  lemma StagingIdempotent(st: PanelState, selection: set<ResidueKey>, lookup: ResidueKey -> NameLookup)
    ensures UpdateResidueTable(UpdateResidueTable(st, selection, lookup), selection, lookup)
         == UpdateResidueTable(st, selection, lookup)
  {
    if selection != {} {
      var once := UpdateResidueTable(st, selection, lookup);
      var twice := UpdateResidueTable(once, selection, lookup);
      assert once.staged + selection == once.staged;
      var again := RecordOriginals(once.originals, once.staged, lookup);
      assert again == once.originals;
      assert twice.sortedList == once.sortedList;
      assert twice.rowTargets == once.rowTargets;
    }
  }

  // ---------------------------------------------------------------------------
  // Executing one mutation

  ghost predicate Distinct(snap: seq<ResidueKey>)
  {
    forall i, j :: 0 <= i < j < |snap| ==> snap[i] != snap[j]
  }

  lemma SortedListDistinct(s: set<ResidueKey>)
    ensures Distinct(SortedList(s))
  {
    var r := SortedList(s);
    SortedListAscending(s);
    forall i, j | 0 <= i < j < |r| ensures r[i] != r[j] {
      assert Before(r[i], r[j]);
      BeforeIrreflexive(r[i]);
    }
  }

  /** A recorded mutation that does not raise relists the staged set without the residue and
      keeps every name already recorded. */
  lemma RecordRelists(st: PanelState, residue: ResidueKey, target: string, lookup: ResidueKey -> NameLookup)
    requires !RecordRaises(st)
    ensures var r := RecordMutation(st, residue, target, lookup);
      && r.sortedList == SortedList(st.staged - {residue})
      && forall k :: k in st.originals ==> k in r.originals && r.originals[k] == st.originals[k]
  {
  }

  /** Taking a residue out of a staged set takes exactly its position out of the sorted list. */
  lemma RemoveFromSortedList(s: set<ResidueKey>, residue: ResidueKey)
    ensures var list := SortedList(s);
      && (residue in list ==>
            var i := IndexOf(list, residue);
            SortedList(s - {residue}) == list[..i] + list[i + 1..])
      && (residue !in list ==> SortedList(s - {residue}) == list)
  {
    var list := SortedList(s);
    if residue in list {
      var i := IndexOf(list, residue);
      SortedListRemove(s, i);
      assert list[i] == residue;
    } else {
      assert residue !in s;
      assert s - {residue} == s;
    }
  }

  /** A mutation that previews and applies is recorded with its target, and its residue leaves
      the staged set and the sorted list, every other listed residue keeping its order. */
  lemma ExecuteSuccess(st: PanelState, residue: ResidueKey, target: string,
                       mutates: (ResidueKey, string) -> bool, lookup: ResidueKey -> NameLookup)
    requires Consistent(st) && mutates(residue, target) && !RecordRaises(st)
    ensures var r := ExecuteMutation(st, residue, target, mutates, lookup);
      && r.1
      && r.0.mutated == st.mutated[residue := target]
      && r.0.staged == st.staged - {residue}
      && residue !in r.0.sortedList
      && r.0.csvTargets == st.csvTargets
      && (residue in st.sortedList ==>
            var i := IndexOf(st.sortedList, residue);
            r.0.sortedList == st.sortedList[..i] + st.sortedList[i + 1..])
      && (residue !in st.sortedList ==> r.0.sortedList == st.sortedList)
      && forall k :: k in st.originals ==> k in r.0.originals && r.0.originals[k] == st.originals[k]
  {
    RecordRelists(st, residue, target, lookup);
    RemoveFromSortedList(st.staged, residue);
  }

  /** In step mode a record that does not raise re-resolves the cursor on the new list. */
  lemma RecordCursor(st: PanelState, residue: ResidueKey, target: string, lookup: ResidueKey -> NameLookup)
    requires st.mode == Step && st.stepIndex < |st.sortedList|
    ensures var r := RecordMutation(st, residue, target, lookup);
      r.stepIndex == ResolveCursor(st.sortedList[st.stepIndex], st.stepIndex, r.sortedList)
  {
  }

  /** In step mode a successful mutation of some residue leaves the cursor on the residue it
      showed, unless that residue was the one mutated; a non-empty list keeps it in range. */
  lemma CursorFollowsResidue(st: PanelState, residue: ResidueKey, target: string,
                             mutates: (ResidueKey, string) -> bool, lookup: ResidueKey -> NameLookup)
    requires Consistent(st) && st.mode == Step && st.stepIndex < |st.sortedList|
    requires mutates(residue, target)
    ensures var r := ExecuteMutation(st, residue, target, mutates, lookup).0;
      && (r.sortedList != [] ==> r.stepIndex < |r.sortedList|)
      && (residue != st.sortedList[st.stepIndex] ==> r.sortedList[r.stepIndex] == st.sortedList[st.stepIndex])
  {
    ExecuteSuccess(st, residue, target, mutates, lookup);
    var r := ExecuteMutation(st, residue, target, mutates, lookup).0;
    var current := st.sortedList[st.stepIndex];
    if residue != current {
      assert current in st.staged && current in r.staged;
      assert current in r.sortedList;
    }
  }

  /** Re-resolving the cursor on a list that lost the residue under it leaves the cursor on the
      position of the next residue, or on the new last position. */
  lemma CursorAfterRemoval(list: seq<ResidueKey>, i: nat)
    requires i < |list|
    ensures var rest := list[..i] + list[i + 1..];
            var c := ResolveCursor(list[i], i, rest);
      && (list[i] !in rest ==> (i < |list| - 1 ==> c == i && rest[i] == list[i + 1]))
      && (list[i] !in rest ==> (i == |list| - 1 ==> c == if |list| >= 2 then |list| - 2 else 0))
  {
  }

  /** "Apply This Mutation" mutates the residue under the cursor, which is listed once. */
  lemma ApplyAtCursor(st: PanelState, mutates: (ResidueKey, string) -> bool, lookup: ResidueKey -> NameLookup)
    requires Consistent(st) && st.stepIndex < |st.sortedList|
    ensures IndexOf(st.sortedList, st.sortedList[st.stepIndex]) == st.stepIndex
    ensures ApplySingleMutationStep(st, mutates, lookup)
         == ExecuteMutation(st, st.sortedList[st.stepIndex], st.rowTargets[st.stepIndex], mutates, lookup)
  {
    SortedListDistinct(st.staged);
  }

  /** "Apply This Mutation" on a residue that mutates removes it from the list and leaves the
      cursor on the residue that followed it, or on the new last residue when it was the last. */
  lemma StepApplyMovesToNext(st: PanelState, mutates: (ResidueKey, string) -> bool, lookup: ResidueKey -> NameLookup)
    requires Consistent(st) && st.mode == Step && st.stepIndex < |st.sortedList|
    requires mutates(st.sortedList[st.stepIndex], st.rowTargets[st.stepIndex])
    ensures var i, n := st.stepIndex, |st.sortedList|;
            var r := ApplySingleMutationStep(st, mutates, lookup);
      && r.1
      && r.0.mutated == st.mutated[st.sortedList[i] := st.rowTargets[i]]
      && r.0.sortedList == st.sortedList[..i] + st.sortedList[i + 1..]
      && (i < n - 1 ==> r.0.stepIndex == i && r.0.sortedList[i] == st.sortedList[i + 1])
      && (i == n - 1 ==> r.0.stepIndex == if n >= 2 then n - 2 else 0)
  {
    var i := st.stepIndex;
    var residue := st.sortedList[i];
    var target := st.rowTargets[i];
    ApplyAtCursor(st, mutates, lookup);
    ExecuteSuccess(st, residue, target, mutates, lookup);
    RecordCursor(st, residue, target, lookup);
    CursorAfterRemoval(st.sortedList, i);
  }

  // ---------------------------------------------------------------------------
  // The loop of "Mutate All"

  lemma RunRowsUnfold(st: PanelState, snap: seq<ResidueKey>, row: nat, batchTarget: string,
                      mutates: (ResidueKey, string) -> bool, lookup: ResidueKey -> NameLookup)
    requires row < |snap|
    ensures var step := RowStep(st, snap[row], row, batchTarget, mutates, lookup);
            var rest := RunRows(step.0, snap, row + 1, batchTarget, mutates, lookup);
      RunRows(st, snap, row, batchTarget, mutates, lookup)
        == (rest.0, (if step.1 then [] else [snap[row]]) + rest.1)
  {
  }

  /** One pass touches only its own residue: imported targets and the mode never change,
      outside step mode the cursor stays, and staging only shrinks. */
  lemma RowStepFrame(st: PanelState, residue: ResidueKey, row: nat, batchTarget: string,
                     mutates: (ResidueKey, string) -> bool, lookup: ResidueKey -> NameLookup)
    ensures var r := RowStep(st, residue, row, batchTarget, mutates, lookup).0;
      && r.csvTargets == st.csvTargets && r.mode == st.mode
      && (st.mode != Step ==> r.stepIndex == st.stepIndex)
      && r.staged <= st.staged
      && (forall k :: k != residue ==> (k in r.staged <==> k in st.staged))
      && (forall k :: k != residue ==> (k in r.mutated <==> k in st.mutated))
      && (forall k :: k != residue && k in st.mutated ==> r.mutated[k] == st.mutated[k])
  {
  }

  /** The loop touches only the residues it has still to visit: the rest keep their staging and
      their recorded mutation; imported targets and the mode never change; outside step mode
      the cursor never moves; staging only shrinks. */
  lemma {:induction false} RunRowsFrame(st: PanelState, snap: seq<ResidueKey>, row: nat, batchTarget: string,
                                        mutates: (ResidueKey, string) -> bool, lookup: ResidueKey -> NameLookup)
    requires row <= |snap|
    ensures var fin := RunRows(st, snap, row, batchTarget, mutates, lookup).0;
      && fin.csvTargets == st.csvTargets && fin.mode == st.mode
      && (st.mode != Step ==> fin.stepIndex == st.stepIndex)
      && fin.staged <= st.staged
      && forall k :: k !in snap[row..] ==>
           && (k in fin.staged <==> k in st.staged)
           && (k in fin.mutated <==> k in st.mutated)
           && (k in st.mutated ==> fin.mutated[k] == st.mutated[k])
    decreases |snap| - row
  {
    if row < |snap| {
      var step := RowStep(st, snap[row], row, batchTarget, mutates, lookup);
      RowStepFrame(st, snap[row], row, batchTarget, mutates, lookup);
      RunRowsFrame(step.0, snap, row + 1, batchTarget, mutates, lookup);
      assert snap[row..] == [snap[row]] + snap[row + 1..];
    }
  }

  /** Outside batch mode, once the row index is past the last table row every remaining
      residue is skipped and nothing changes. */
  lemma {:induction false} RunRowsPastTable(st: PanelState, snap: seq<ResidueKey>, row: nat, batchTarget: string,
                                            mutates: (ResidueKey, string) -> bool, lookup: ResidueKey -> NameLookup)
    requires row <= |snap|
    requires st.mode != Batch && |st.rowTargets| <= row
    ensures RunRows(st, snap, row, batchTarget, mutates, lookup) == (st, snap[row..])
    decreases |snap| - row
  {
    if row < |snap| {
      RunRowsPastTable(st, snap, row + 1, batchTarget, mutates, lookup);
      assert TargetAt(st, row, batchTarget).None?;
      assert snap[row..] == [snap[row]] + snap[row + 1..];
    } else {
      assert snap[row..] == [];
    }
  }

  /** The state the loop reaches at row `j` when it started at row `row` in state `st`. */
  ghost function Visited(st: PanelState, snap: seq<ResidueKey>, row: nat, j: nat, batchTarget: string,
                         mutates: (ResidueKey, string) -> bool, lookup: ResidueKey -> NameLookup): PanelState
    requires row <= j <= |snap|
    decreases j - row
  {
    if j == row then st
    else Visited(RowStep(st, snap[row], row, batchTarget, mutates, lookup).0, snap, row + 1, j, batchTarget, mutates, lookup)
  }

  /** The loop row by row, in every mode: it ends in the state reached after the last row;
      every skipped residue is one of the visited rows; a row's residue is skipped exactly
      when its pass fails; and a row that succeeds leaves its residue recorded as mutated to
      the target that row found. */
  lemma {:induction false} RunRowsByRow(st: PanelState, snap: seq<ResidueKey>, row: nat, batchTarget: string,
                                        mutates: (ResidueKey, string) -> bool, lookup: ResidueKey -> NameLookup)
    requires row <= |snap| && Distinct(snap)
    ensures var run := RunRows(st, snap, row, batchTarget, mutates, lookup);
      && run.0 == Visited(st, snap, row, |snap|, batchTarget, mutates, lookup)
      && (forall x :: x in run.1 ==> x in snap[row..])
      && forall j :: row <= j < |snap| ==>
           var at := Visited(st, snap, row, j, batchTarget, mutates, lookup);
           var step := RowStep(at, snap[j], j, batchTarget, mutates, lookup);
           && (snap[j] in run.1 <==> !step.1)
           && (step.1 ==> snap[j] in run.0.mutated && run.0.mutated[snap[j]] == TargetAt(at, j, batchTarget).value)
    decreases |snap| - row
  {
    var run := RunRows(st, snap, row, batchTarget, mutates, lookup);
    if row < |snap| {
      var step := RowStep(st, snap[row], row, batchTarget, mutates, lookup);
      var rest := RunRows(step.0, snap, row + 1, batchTarget, mutates, lookup);
      RunRowsUnfold(st, snap, row, batchTarget, mutates, lookup);
      RunRowsByRow(step.0, snap, row + 1, batchTarget, mutates, lookup);
      RunRowsFrame(step.0, snap, row + 1, batchTarget, mutates, lookup);
      assert snap[row..] == [snap[row]] + snap[row + 1..];
      assert snap[row] !in snap[row + 1..];
      if step.1 {
        var target := TargetAt(st, row, batchTarget).value;
        assert step.0.mutated == st.mutated[snap[row] := target];
      }
      forall j | row < j < |snap|
        ensures Visited(st, snap, row, j, batchTarget, mutates, lookup)
             == Visited(step.0, snap, row + 1, j, batchTarget, mutates, lookup)
        ensures snap[j] != snap[row]
      {
      }
    }
  }

  /** The residues of `rs` that fail to mutate to `target`, in order: what a batch run skips. */
  function Failures(rs: seq<ResidueKey>, target: string, mutates: (ResidueKey, string) -> bool): (r: seq<ResidueKey>)
    ensures |r| <= |rs|
  {
    if rs == [] then []
    else (if mutates(rs[0], target) then [] else [rs[0]]) + Failures(rs[1..], target, mutates)
  }

  lemma {:induction false} FailuresMembers(rs: seq<ResidueKey>, target: string, mutates: (ResidueKey, string) -> bool)
    ensures forall x :: x in Failures(rs, target, mutates) <==> x in rs && !mutates(x, target)
  {
    if rs != [] {
      FailuresMembers(rs[1..], target, mutates);
      assert rs == [rs[0]] + rs[1..];
    }
  }

  /** In batch mode one pass tries its residue with the batch target. */
  lemma BatchStep(st: PanelState, residue: ResidueKey, row: nat, batchTarget: string,
                  mutates: (ResidueKey, string) -> bool, lookup: ResidueKey -> NameLookup)
    requires st.mode == Batch
    ensures var r := RowStep(st, residue, row, batchTarget, mutates, lookup);
      && (r.1 <==> mutates(residue, batchTarget))
      && (r.1 ==> r.0.mutated == st.mutated[residue := batchTarget] && residue !in r.0.staged)
      && (!r.1 ==> r.0 == st)
  {
  }

  /** In batch mode every visited residue is tried with the batch target: exactly the ones that
      fail are skipped, in order; the others are recorded with the batch target and unstaged. */
  lemma {:induction false} BatchRows(st: PanelState, snap: seq<ResidueKey>, row: nat, batchTarget: string,
                                     mutates: (ResidueKey, string) -> bool, lookup: ResidueKey -> NameLookup)
    requires row <= |snap| && st.mode == Batch && Distinct(snap)
    ensures var run := RunRows(st, snap, row, batchTarget, mutates, lookup);
      && run.1 == Failures(snap[row..], batchTarget, mutates)
      && (forall j :: row <= j < |snap| && mutates(snap[j], batchTarget) ==>
            snap[j] in run.0.mutated && run.0.mutated[snap[j]] == batchTarget && snap[j] !in run.0.staged)
      && (forall j :: row <= j < |snap| && !mutates(snap[j], batchTarget) ==>
            && (snap[j] in run.0.mutated <==> snap[j] in st.mutated)
            && (snap[j] in st.mutated ==> run.0.mutated[snap[j]] == st.mutated[snap[j]]))
    decreases |snap| - row
  {
    if row < |snap| {
      var residue := snap[row];
      var step := RowStep(st, residue, row, batchTarget, mutates, lookup);
      BatchStep(st, residue, row, batchTarget, mutates, lookup);
      BatchRows(step.0, snap, row + 1, batchTarget, mutates, lookup);
      RunRowsFrame(step.0, snap, row + 1, batchTarget, mutates, lookup);
      assert residue !in snap[row + 1..] by {
        forall j | row + 1 <= j < |snap| ensures snap[j] != residue { }
      }
      assert snap[row..] == [residue] + snap[row + 1..];
      assert snap[row..][1..] == snap[row + 1..];
    }
  }

  /** A run that starts visits the whole list from row 0 and then resets the staging. */
  lemma StartRunsEveryRow(st: PanelState, batchTarget: string, mutates: (ResidueKey, string) -> bool,
                          lookup: ResidueKey -> NameLookup)
    requires st.sortedList != []
    ensures var run := RunRows(st, st.sortedList, 0, batchTarget, mutates, lookup);
      StartMutationProcess(st, batchTarget, true, mutates, lookup)
        == (ResetStagedList(run.0), Completed(|st.sortedList| - |run.1|, |run.1|))
  {
  }

  /** A whole batch run, stated per residue rather than per row. */
  lemma BatchRunByResidue(st: PanelState, snap: seq<ResidueKey>, batchTarget: string,
                          mutates: (ResidueKey, string) -> bool, lookup: ResidueKey -> NameLookup)
    requires st.mode == Batch && Distinct(snap)
    ensures var run := RunRows(st, snap, 0, batchTarget, mutates, lookup);
      && run.1 == Failures(snap, batchTarget, mutates)
      && (forall k :: k in snap && mutates(k, batchTarget) ==> k in run.0.mutated && run.0.mutated[k] == batchTarget)
      && (forall k :: k in snap && !mutates(k, batchTarget) ==> (k in run.0.mutated <==> k in st.mutated))
  {
    var run := RunRows(st, snap, 0, batchTarget, mutates, lookup);
    BatchRows(st, snap, 0, batchTarget, mutates, lookup);
    assert snap[0..] == snap;
    forall k | k in snap && mutates(k, batchTarget)
      ensures k in run.0.mutated && run.0.mutated[k] == batchTarget
    {
      var j :| 0 <= j < |snap| && snap[j] == k;
    }
    forall k | k in snap && !mutates(k, batchTarget)
      ensures k in run.0.mutated <==> k in st.mutated
    {
      var j :| 0 <= j < |snap| && snap[j] == k;
    }
  }

  /** "Mutate All" in batch mode: every listed residue is tried with the batch target; the
      success count is the number that mutate, every success is recorded and nothing stays
      staged. */
  lemma BatchMutateAll(st: PanelState, batchTarget: string, mutates: (ResidueKey, string) -> bool,
                       lookup: ResidueKey -> NameLookup)
    requires Consistent(st) && st.mode == Batch && st.sortedList != []
    ensures var fails := Failures(st.sortedList, batchTarget, mutates);
            var r := StartMutationProcess(st, batchTarget, true, mutates, lookup);
      && r.1 == Completed(|st.sortedList| - |fails|, |fails|)
      && r.0.staged == {} && r.0.sortedList == []
      && (forall k :: k in st.sortedList && mutates(k, batchTarget) ==> k in r.0.mutated && r.0.mutated[k] == batchTarget)
      && (forall k :: k in st.sortedList && !mutates(k, batchTarget) ==> (k in r.0.mutated <==> k in st.mutated))
  {
    SortedListDistinct(st.staged);
    StartRunsEveryRow(st, batchTarget, mutates, lookup);
    BatchRunByResidue(st, st.sortedList, batchTarget, mutates, lookup);
  }

  /** Outside step mode a successful record rebuilds the table from the defaults. */
  lemma RecordRebuildsTable(st: PanelState, residue: ResidueKey, target: string, lookup: ResidueKey -> NameLookup)
    requires st.mode != Step
    ensures var r := RecordMutation(st, residue, target, lookup);
      r.rowTargets == DefaultTargets(r.sortedList, r.csvTargets) && r.stepIndex == st.stepIndex
  {
  }

  /** One pass of an individual-mode run whose list is `snap[i..]` and whose table was freshly
      built: row `i` shows the default code of `snap[2i]`, and a success leaves the list
      `snap[i+1..]` with a table freshly built again. */
  lemma ShiftedStep(st: PanelState, snap: seq<ResidueKey>, i: nat, batchTarget: string,
                    mutates: (ResidueKey, string) -> bool, lookup: ResidueKey -> NameLookup)
    requires Consistent(st) && st.mode == Individual
    requires 2 * i < |snap| && st.sortedList == snap[i..]
    requires st.rowTargets == DefaultTargets(st.sortedList, st.csvTargets)
    requires mutates(snap[i], DefaultTarget(snap[2 * i], st.csvTargets))
    ensures var step := RowStep(st, snap[i], i, batchTarget, mutates, lookup);
      && step.1
      && step.0.mutated == st.mutated[snap[i] := DefaultTarget(snap[2 * i], st.csvTargets)]
      && step.0.sortedList == snap[i + 1..]
      && step.0.rowTargets == DefaultTargets(step.0.sortedList, step.0.csvTargets)
      && step.0.mode == Individual && step.0.csvTargets == st.csvTargets
      && Consistent(step.0)
  {
    var target := DefaultTarget(snap[2 * i], st.csvTargets);
    assert TargetAt(st, i, batchTarget) == Some(target);
    assert IndexOf(st.sortedList, snap[i]) == 0;
    ExecuteSuccess(st, snap[i], target, mutates, lookup);
    ExecuteKeepsConsistent(st, snap[i], target, mutates, lookup);
    RecordRebuildsTable(st, snap[i], target, lookup);
    assert st.sortedList[1..] == snap[i + 1..];
  }

  /** The induction step of `ShiftedRows`, on the recorded mutations alone. */
  lemma ShiftedCombine(before: map<ResidueKey, string>, afterStep: map<ResidueKey, string>,
                       fin: map<ResidueKey, string>, csvTargets: map<ResidueKey, string>,
                       snap: seq<ResidueKey>, i: nat, skipped: seq<ResidueKey>)
    requires Distinct(snap) && 2 * i < |snap|
    requires afterStep == before[snap[i] := DefaultTarget(snap[2 * i], csvTargets)]
    requires forall j :: i + 1 <= j && 2 * j < |snap| ==>
               snap[j] in fin && fin[snap[j]] == DefaultTarget(snap[2 * j], csvTargets)
    requires forall k :: k !in snap[i + 1..] ==>
               && (k in fin <==> k in afterStep)
               && (k in afterStep ==> fin[k] == afterStep[k])
    requires skipped == [] + snap[if 2 * (i + 1) >= |snap| then i + 1 else (|snap| + 1) / 2..]
    ensures forall j :: i <= j && 2 * j < |snap| ==>
              snap[j] in fin && fin[snap[j]] == DefaultTarget(snap[2 * j], csvTargets)
    ensures skipped == snap[(|snap| + 1) / 2..]
  {
    assert snap[i] !in snap[i + 1..] by {
      forall j | i + 1 <= j < |snap| ensures snap[j] != snap[i] { }
    }
  }

  /** Outside batch mode the loop reads row `i` of a table rebuilt after every success. From
      row `i` on, with the list equal to `snap[i..]` and a freshly built table, each residue
      `snap[j]` with `2j < |snap|` receives the default code of `snap[2j]`, and every later
      residue is skipped. */
  lemma {:induction false} ShiftedRows(st: PanelState, snap: seq<ResidueKey>, i: nat, batchTarget: string,
                                       mutates: (ResidueKey, string) -> bool, lookup: ResidueKey -> NameLookup)
    requires Consistent(st) && st.mode == Individual && (forall r, t :: mutates(r, t))
    requires Distinct(snap) && i <= |snap|
    requires st.sortedList == snap[i..]
    requires st.rowTargets == DefaultTargets(st.sortedList, st.csvTargets)
    ensures var run := RunRows(st, snap, i, batchTarget, mutates, lookup);
      && (forall j :: i <= j && 2 * j < |snap| ==>
            snap[j] in run.0.mutated && run.0.mutated[snap[j]] == DefaultTarget(snap[2 * j], st.csvTargets))
      && run.1 == snap[if 2 * i >= |snap| then i else (|snap| + 1) / 2..]
    decreases |snap| - i
  {
    var run := RunRows(st, snap, i, batchTarget, mutates, lookup);
    if 2 * i >= |snap| {
      assert |st.rowTargets| <= i;
      RunRowsPastTable(st, snap, i, batchTarget, mutates, lookup);
    } else {
      var step := RowStep(st, snap[i], i, batchTarget, mutates, lookup);
      var rest := RunRows(step.0, snap, i + 1, batchTarget, mutates, lookup);
      ShiftedStep(st, snap, i, batchTarget, mutates, lookup);
      ShiftedRows(step.0, snap, i + 1, batchTarget, mutates, lookup);
      RunRowsFrame(step.0, snap, i + 1, batchTarget, mutates, lookup);
      RunRowsUnfold(st, snap, i, batchTarget, mutates, lookup);
      assert run.0 == rest.0 && run.1 == [] + rest.1;
      ShiftedCombine(st.mutated, step.0.mutated, rest.0.mutated, st.csvTargets, snap, i, run.1);
    }
  }

  /** The first pass of an individual-mode run mutates the first residue to the code its row
      shows and leaves the rest of the list with a freshly built table. */
  lemma FirstRowStep(st: PanelState, batchTarget: string,
                     mutates: (ResidueKey, string) -> bool, lookup: ResidueKey -> NameLookup)
    requires Consistent(st) && st.mode == Individual && st.sortedList != []
    requires mutates(st.sortedList[0], st.rowTargets[0])
    ensures var snap := st.sortedList;
            var step := RowStep(st, snap[0], 0, batchTarget, mutates, lookup);
      && step.1
      && step.0.mutated == st.mutated[snap[0] := st.rowTargets[0]]
      && step.0.sortedList == snap[1..]
      && step.0.rowTargets == DefaultTargets(step.0.sortedList, step.0.csvTargets)
      && step.0.mode == Individual && step.0.csvTargets == st.csvTargets
      && Consistent(step.0)
  {
    var snap := st.sortedList;
    assert TargetAt(st, 0, batchTarget) == Some(st.rowTargets[0]);
    assert IndexOf(snap, snap[0]) == 0;
    ExecuteSuccess(st, snap[0], st.rowTargets[0], mutates, lookup);
    ExecuteKeepsConsistent(st, snap[0], st.rowTargets[0], mutates, lookup);
    RecordRebuildsTable(st, snap[0], st.rowTargets[0], lookup);
  }

  /** The first residue keeps what the first pass recorded for it, since later passes visit
      only the residues after it. */
  lemma FirstCombine(afterStep: map<ResidueKey, string>, fin: map<ResidueKey, string>,
                     snap: seq<ResidueKey>, t: string)
    requires Distinct(snap) && snap != []
    requires snap[0] in afterStep && afterStep[snap[0]] == t
    requires forall k :: k !in snap[1..] ==>
               && (k in fin <==> k in afterStep)
               && (k in afterStep ==> fin[k] == afterStep[k])
    ensures snap[0] in fin && fin[snap[0]] == t
  {
    assert snap[0] !in snap[1..] by {
      forall j | 1 <= j < |snap| ensures snap[j] != snap[0] { }
    }
  }

  /** "Mutate All" in individual mode when every mutation succeeds: the first residue gets the
      code its row shows, but every later residue `j` gets the default code of residue `2j`
      (codes picked by the user in later rows are lost), and the second half of the list is
      reported skipped. */
  lemma IndividualMutateAllShiftsTargets(st: PanelState, batchTarget: string,
                                         mutates: (ResidueKey, string) -> bool, lookup: ResidueKey -> NameLookup)
    requires Consistent(st) && st.mode == Individual && st.sortedList != []
    requires forall r, t :: mutates(r, t)
    ensures var snap := st.sortedList;
            var run := RunRows(st, snap, 0, batchTarget, mutates, lookup);
      && snap[0] in run.0.mutated && run.0.mutated[snap[0]] == st.rowTargets[0]
      && (forall j :: 1 <= j && 2 * j < |snap| ==>
            snap[j] in run.0.mutated && run.0.mutated[snap[j]] == DefaultTarget(snap[2 * j], st.csvTargets))
      && run.1 == snap[(|snap| + 1) / 2..]
  {
    var snap := st.sortedList;
    SortedListDistinct(st.staged);
    var run := RunRows(st, snap, 0, batchTarget, mutates, lookup);
    var step := RowStep(st, snap[0], 0, batchTarget, mutates, lookup);
    var rest := RunRows(step.0, snap, 1, batchTarget, mutates, lookup);
    FirstRowStep(st, batchTarget, mutates, lookup);
    ShiftedRows(step.0, snap, 1, batchTarget, mutates, lookup);
    RunRowsFrame(step.0, snap, 1, batchTarget, mutates, lookup);
    RunRowsUnfold(st, snap, 0, batchTarget, mutates, lookup);
    assert run.0 == rest.0 && run.1 == [] + rest.1;
    FirstCombine(step.0.mutated, rest.0.mutated, snap, st.rowTargets[0]);
    assert (if 2 * 1 >= |snap| then 1 else (|snap| + 1) / 2) == (|snap| + 1) / 2;
  }

  /** Hence the report after such a run counts only the first half of the list as applied. */
  lemma IndividualMutateAllReportsHalf(st: PanelState, batchTarget: string,
                                       mutates: (ResidueKey, string) -> bool, lookup: ResidueKey -> NameLookup)
    requires Consistent(st) && st.mode == Individual && st.sortedList != []
    requires forall r, t :: mutates(r, t)
    ensures var n := |st.sortedList|;
      StartMutationProcess(st, batchTarget, true, mutates, lookup).1 == Completed((n + 1) / 2, n - (n + 1) / 2)
  {
    StartRunsEveryRow(st, batchTarget, mutates, lookup);
    IndividualMutateAllShiftsTargets(st, batchTarget, mutates, lookup);
  }

  // ---------------------------------------------------------------------------
  // Navigation and button enablement

  /** "Previous" undoes an enabled "Next". */
  lemma PreviousUndoesNext(st: PanelState)
    requires NextEnabled(st)
    ensures ShowPreviousResidue(ShowNextResidue(st)) == st
  {
  }

  /** "Next" undoes an enabled "Previous" taken from a cursor inside the list. */
  lemma NextUndoesPrevious(st: PanelState)
    requires PreviousEnabled(st) && st.stepIndex < |st.sortedList|
    ensures ShowNextResidue(ShowPreviousResidue(st)) == st
  {
  }

  /** What the enabled state of each button says about its handler on a consistent panel:
      "Mutate All" is enabled exactly when a launched run would complete; a disabled
      "Apply This Mutation" would change nothing; a disabled "Clear All" would only forget
      names, imported targets and the cursor; "Previous" and "Next" are enabled exactly when
      they would move the cursor. */
  lemma EnabledButtonsAct(st: PanelState, batchTarget: string,
                          mutates: (ResidueKey, string) -> bool, lookup: ResidueKey -> NameLookup)
    requires Consistent(st)
    ensures MutateAllEnabled(st) <==> StartMutationProcess(st, batchTarget, true, mutates, lookup).1.Completed?
    ensures !ApplyEnabled(st) ==> ApplySingleMutationStep(st, mutates, lookup) == (st, false)
    ensures !ClearAllEnabled(st) ==>
              FullReset(st).(originals := st.originals, csvTargets := st.csvTargets, stepIndex := st.stepIndex) == st
    ensures PreviousEnabled(st) <==> st.sortedList != [] && ShowPreviousResidue(st) != st
    ensures NextEnabled(st) <==> st.sortedList != [] && ShowNextResidue(st) != st
  {
    assert |st.sortedList| == |st.staged|;
  }

  // ---------------------------------------------------------------------------
  // Resets and the cursor

  /** The staging reset keeps only names of mutated residues and is idempotent. */
  lemma ResetStagedListIdempotent(st: PanelState)
    requires Consistent(st)
    ensures Consistent(ResetStagedList(st))
    ensures ResetStagedList(ResetStagedList(st)) == ResetStagedList(st)
    ensures ResetStagedList(st).originals.Keys <= ResetStagedList(st).mutated.Keys
  {
    EmptyIsConsistent(ResetStagedList(st));
    var once := ResetStagedList(st);
    assert once.originals.Keys * once.mutated.Keys == once.originals.Keys;
  }

  /** The staging reset keeps the cursor, so a cursor that was in range can end up past the
      end of a later, shorter list: "Apply This Mutation" is then enabled but does nothing. */
  lemma StaleCursorAfterMutateAll(st: PanelState, batchTarget: string, selection: set<ResidueKey>,
                                  mutates: (ResidueKey, string) -> bool, lookup: ResidueKey -> NameLookup)
    requires Consistent(st) && st.mode == Step && 2 <= |st.sortedList|
    requires selection != {} && |selection| < |st.sortedList|
    ensures var s1 := SelectTableRow(st, Some(|st.sortedList| - 1));
            var s2 := SelectMode(s1, Individual);
            var s3 := StartMutationProcess(s2, batchTarget, true, mutates, lookup).0;
            var s4 := UpdateResidueTable(s3, selection, lookup);
            var s5 := SelectMode(s4, Step);
      && s1.stepIndex < |s1.sortedList|
      && ApplyEnabled(s5) && s5.stepIndex >= |s5.sortedList|
      && ApplySingleMutationStep(s5, mutates, lookup) == (s5, false)
  {
    var s1 := SelectTableRow(st, Some(|st.sortedList| - 1));
    var s2 := SelectMode(s1, Individual);
    var run := RunRows(s2, s2.sortedList, 0, batchTarget, mutates, lookup);
    RunRowsFrame(s2, s2.sortedList, 0, batchTarget, mutates, lookup);
    var s3 := StartMutationProcess(s2, batchTarget, true, mutates, lookup).0;
    assert s3.stepIndex == |st.sortedList| - 1;
    var s4 := UpdateResidueTable(s3, selection, lookup);
    assert s4.staged == selection;
  }

  // ---------------------------------------------------------------------------
  // Import

  /** A table populated from a staged set that is exactly the imported residues shows, in
      every row, the code imported for that row's residue. */
  lemma PopulateShowsImported(st: PanelState, lookup: ResidueKey -> NameLookup)
    requires st.staged == st.csvTargets.Keys
    ensures var r := Populate(st, lookup);
      && |r.rowTargets| == |r.sortedList| == |st.staged|
      && forall i :: 0 <= i < |r.sortedList| ==>
           r.sortedList[i] in st.csvTargets && r.rowTargets[i] == st.csvTargets[r.sortedList[i]]
  {
    var r := Populate(st, lookup);
    forall i | 0 <= i < |r.sortedList|
      ensures r.sortedList[i] in st.csvTargets && r.rowTargets[i] == st.csvTargets[r.sortedList[i]]
    {
      assert r.sortedList[i] in SortedList(st.staged);
    }
  }

  /** After a successful import every table row starts at the code imported for its residue,
      and the panel is in individual mode. */
  lemma ImportedRowsShowTargets(st: PanelState, objects: seq<string>, rows: seq<Row>,
                                contains: set<ResidueKey>, lookup: ResidueKey -> NameLookup)
    requires objects != []
    requires ImportRows(rows, objects, contains).found != {}
    ensures var r := LoadMutationsFromCsv(st, true, objects, rows, false, contains, lookup).0;
            var imported := ImportRows(rows, objects, contains);
      && r.mode == Individual
      && |r.rowTargets| == |r.sortedList| == |imported.found|
      && forall i :: 0 <= i < |r.sortedList| ==>
           r.sortedList[i] in imported.targets && r.rowTargets[i] == imported.targets[r.sortedList[i]]
  {
    var imported := ImportRows(rows, objects, contains);
    var staged := FullReset(st).(csvTargets := imported.targets, staged := imported.found, mode := Individual);
    assert LoadMutationsFromCsv(st, true, objects, rows, false, contains, lookup).0 == Populate(staged, lookup);
    PopulateShowsImported(staged, lookup);
  }

}
