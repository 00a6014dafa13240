# PyBmw bookkeeping core in Dafny

PyBmw is a PyMOL plugin for batch mutagenesis. The user stages residues, either from the
PyMOL selection or from an imported CSV list of `location,target` rows. The plugin then
mutates them in one of three modes:
- batch: one target code for all residues;
- individual: one code per table row;
- step-by-step: a cursor moves over the sorted list.

Under its Qt and PyMOL glue, the panel `PyBmwPanel` (in `pybmw.py`) keeps a small bookkeeping
core, and this project models that core:

- `ResidueOrder` (`residue_order.dfy`): residue identity `(object, chain, resi)` and the
  sort key of `_residue_sort_key`. The key is the object, the chain, the integer of the
  digit characters (0 when there are none) and the letter characters. It also holds the
  sorted staged list, with an insertion-sort method proved equal to it.
- `Sorting` (`sorting.dfy`): the generic "sorted by a strict total order" function the
  staged list is built on. It is unique, ascending, and removing an element drops its
  position.
- `CsvImport` (`csv_import.dfy`): the per-row validation of the CSV import:
  - `strip`, `upper`, the `/`-to-space replacement and `split`;
  - the 20-code alphabet;
  - resolution to the first loaded object holding the residue;
  - the rejection messages;
  - the accumulation of accepted residues, targets and rejections over all rows.
- `PanelSpec` (`panel_spec.dfy`): the panel's fields as a value `PanelState`, with each
  handler as a function from the fields before to the fields after:
  - staging;
  - the two resets;
  - recording and executing a mutation;
  - the "Mutate All" loop;
  - the step-mode cursor;
  - the enablement predicates;
  - the import.
- `PanelProperties` (`panel_properties.dfy`): what those handlers promise, as lemmas.
- `Panel` (`panel.dfy`): the class `PyBmwPanel` with the same fields, updated in place by
  methods with loops. Each method is proved to leave the fields equal to the `PanelSpec`
  function of the fields before, so every lemma about the functions holds of the object.
  The button handlers also keep `Valid()`, the consistency of the fields (the list is the
  sorted staged set, one valid code per table row).
- `Capabilities` (`capabilities.dfy`): `detect_pymol_capabilities` on the `PYMOL_CAPS`
  entries (as a class whose `Detect` method has the candidate loop with its `break`), and
  the refinement options it enables.

The host enters only through parameters:
- `mutates(residue, code)`: whether the wizard previews and applies a mutation without
  raising.
- `lookup(residue)`: the CA-atom name lookup. It yields a name, yields nothing, or raises.
- `contains`: the (object, chain, resi) triples with a positive polymer atom count.
- The ordered object list.
- The user's selection.
- The rows the CSV reader yields, and whether it then raises.
- `probe(name)`: what `cmd.get(name)` does (returns, raises `CmdException`, or raises
  something else).
- Whether the wizard can be launched.

Three behaviours of the code are modelled as written, and each has a lemma that shows it.
1. In individual mode, "Mutate All" reads the target of the `i`-th residue from table row
   `i`. The table is rebuilt (from the imported codes or "ALA") after every success. So
   when every mutation succeeds:
   - the first residue gets the code its row showed;
   - residue `j` gets the default code of residue `2j`;
   - the second half of the list is reported skipped.
   See `IndividualMutateAllShiftsTargets` and `IndividualMutateAllReportsHalf`.
2. `_reset_staged_list` keeps `step_index`. A cursor can therefore be past the end of a
   later, shorter list while "Apply This Mutation" stays enabled, and applying then does
   nothing (`StaleCursorAfterMutateAll`). The bound `0 <= step_index < len` is therefore
   not an invariant of the panel. It holds after a step-mode `_record_mutation` that does
   not raise and leaves a non-empty list, and after a navigation handler that started in
   range. "Previous" from a stale cursor moves it down by one only, and "Next" leaves it
   where it is.
3. In step mode, `_record_mutation` stores the mutation before it reads
   `sorted_residue_list[step_index]`. With a stale cursor that read raises, so
   `execute_mutation` returns false while the mutation stays recorded and the residue stays
   staged. See `PanelSpec.RecordMutation` and `PanelSpec.ExecuteMutation`. In the running
   program this needs "Mutate All" to run while step mode is checked:
   `apply_single_mutation_step` returns early on a stale cursor (pybmw.py:604), and
   `refresh_panel_view` hides the "Mutate All" button in step mode (pybmw.py:302). The
   model keeps the branch because the handler itself does not exclude it.

## Model

| member | source | states |
|---|---|---|
| ResidueOrder.Keep | pybmw.py:230-231 | `filter` joined back into a string: every kept character satisfies the predicate |
| ResidueOrder.KeepFilters | pybmw.py:230-231 | the filtered string keeps exactly the characters satisfying the predicate and is no longer than the input |
| ResidueOrder.KeepAppend | pybmw.py:230-231 | filtering a concatenation is the concatenation of the filtered parts, so the kept characters stay in their order and multiplicity |
| ResidueOrder.KeepAll | pybmw.py:230-231 | a string whose every character satisfies the predicate is kept whole |
| ResidueOrder.Decimal | pybmw.py:232 | `int` of a digit string is zero exactly when every digit is 0 |
| ResidueOrder.KeyOf | pybmw.py:228-232 | the key carries the object and chain unchanged, its letter part holds only letters, and its number is 0 exactly when every digit of the residue id is 0 (in particular when there is none) |
| ResidueOrder.KeyIgnoresOtherCharacters | pybmw.py:228-232 | a character that is neither a digit nor a letter, inserted anywhere in the residue id, leaves the key unchanged |
| ResidueOrder.Before | pybmw.py:480 | the order `sorted` lists residues in: by the key, ties broken by the residue-id string; BeforeIsStrictTotalOrder proves it a strict total order |
| ResidueOrder.SortedList | pybmw.py:480 | the staged list holds exactly the staged residues, each once |
| ResidueOrder.SortedListAscending | pybmw.py:480 | the staged list is ascending in the residue order |
| ResidueOrder.SortedListRemove | pybmw.py:480 | unstaging the residue at position i of the list gives the list with exactly position i removed |
| ResidueOrder.SortResidues | pybmw.py:480 | the insertion sort over the staged set returns exactly the sorted staged list |
| ResidueOrder.BeforeIsStrictTotalOrder | pybmw.py:228-232 | the listing order (the source's key, ties broken by the residue-id string) is irreflexive, transitive and total |
| ResidueOrder.SortedListFollowsKey | pybmw.py:228-232 | a later residue in the list never has a smaller key than an earlier one |
| ResidueOrder.SmallerKeyListedFirst | pybmw.py:228-232 | a staged residue with a smaller key is listed, and so processed, before one with a larger key |
| ResidueOrder.NineABeforeTen | pybmw.py:228-232 | the digits compare as an integer: ("m","A","9A") precedes ("m","A","10") |
| ResidueOrder.MinusSignIgnored | pybmw.py:228-232 | characters other than digits and letters do not reach the key: "-10" has the key of "10" and sorts after "9" |
| CsvImport.Strip | pybmw.py:377 | the result is a slice of the input with only white space cut from either end, and it neither starts nor ends with white space |
| CsvImport.Upper | pybmw.py:377 | same length, and each character is upper-cased |
| CsvImport.ReplaceSlashes | pybmw.py:381 | same length; every '/' becomes a space and every other character is kept |
| CsvImport.Split | pybmw.py:381 | every token is non-empty and holds no white space; the tokens joined together are exactly the non-space characters of the input, in order; the number of tokens is the number of maximal non-space runs (SplitInterleave and SplitDecomposes fix where each token starts and ends) |
| CsvImport.SplitJoinWords | pybmw.py:381 | splitting words joined by single spaces gives the words back |
| CsvImport.SplitInterleave | pybmw.py:381 | splitting words separated by any non-empty white-space runs, with any white space before and after, gives exactly the words back |
| CsvImport.SplitDecomposes | pybmw.py:381 | every string is its tokens interleaved with white-space runs (inner runs non-empty), so by SplitInterleave the tokens are exactly its maximal non-space runs, in order |
| CsvImport.LocationFormats | pybmw.py:381-385 | "A 123" and "A/123" both give the tokens [chain, resi] |
| CsvImport.FirstContaining | pybmw.py:386-393 | None exactly when no listed object holds the residue; otherwise the first object in list order that holds it |
| CsvImport.FirstContainingUnique | pybmw.py:386-393 | at most one object is the first in list order to hold a residue |
| CsvImport.FirstContainingExactly | pybmw.py:386-393 | the object loop yields an object exactly when that object is the first in list order to hold the residue |
| CsvImport.ClassifyRow | pybmw.py:375-399 | skipped exactly when the row has fewer than 2 fields; an invalid-code rejection exactly when the stripped, upper-cased code is not among the 20, carrying that code; a bad-location rejection carries the stripped location; a not-found rejection means no object holds the residue or the first that does has an empty name; an accepted row carries a valid code, the first two location tokens and the first object holding them, with a non-empty name; every rejection reports its own row |
| CsvImport.ClassifyRowComplete | pybmw.py:375-399 | the converse directions: with a valid code, a bad-location rejection exactly when the location has fewer than 2 tokens; a not-found rejection has a valid code and carries the first two tokens; accepted exactly when the code is valid, there are 2 tokens and the first object holding them has a non-empty name |
| CsvImport.Message | pybmw.py:379-399 | every rejection message starts with the quoted row |
| CsvImport.Outcomes | pybmw.py:375 | one outcome per row, in file order |
| CsvImport.Absorb | pybmw.py:376-399 | one pass of the row loop on the three accumulators; ImportRowsSnoc shows the import of one more row is one more Absorb, and LastAcceptedWins and AcceptedIsFound state what the passes add up to |
| CsvImport.Accumulate | pybmw.py:370-399 | the targets are keyed by exactly the found residues; each found residue comes from an accepting row with its target; each rejection comes from a rejected row; no more rejections than rows |
| CsvImport.ImportRows | pybmw.py:370-399 | every found residue lies in an existing object, has a target among the 20 codes and a key in the targets; every rejection reports one of the rows |
| CsvImport.ImportRowsSnoc | pybmw.py:375-399 | the import of one more row is the old import plus the outcome of that row |
| CsvImport.InvalidCodeRejectedOnce | pybmw.py:376-380 | a row with an invalid code adds exactly one rejection and nothing to the found residues or the targets |
| CsvImport.OneOutcomePerRow | pybmw.py:375-399 | a row adds at most one found residue or one rejection, never both |
| CsvImport.LastAcceptedWins | pybmw.py:396-397 | a residue's target is the target of the last outcome accepting it |
| CsvImport.LastRowWins | pybmw.py:397 | for duplicate keys the last accepting row's target wins |
| CsvImport.AcceptedIsFound | pybmw.py:394-397 | a residue accepted by any row is among the found residues, whatever later rows say |
| CsvImport.ImportableRowFound | pybmw.py:375-397 | a row with a valid code, two location tokens and a first holding object with a non-empty name puts that residue among the found residues |
| CsvImport.ExampleRowAccepted | pybmw.py:375-397 | row ("A 123", "ala") with chain A residue 123 present in prot1 is accepted as (prot1, A, 123) with ALA |
| PanelSpec.RecordOriginals | pybmw.py:469-478 | the names loop of `_populate_table`; RecordOriginalsKeepsNames states what it keeps and adds |
| PanelSpec.DefaultTargets | pybmw.py:482-496 | the codes a rebuilt table shows: each row the imported code of its residue, else "ALA"; PopulateShowsImported and ShiftedStep use it |
| PanelSpec.Populate | pybmw.py:436-498 | `_populate_table` on the fields: names recorded, list sorted from the staged set, table rebuilt; PopulateConsistent proves the result consistent |
| PanelSpec.UpdateResidueTable | pybmw.py:421-430 | the staged set becomes the union with the selection; an empty selection changes nothing; mutations, imported targets, cursor and mode are untouched |
| PanelSpec.ResetStagedList | pybmw.py:248-250 | staged set, list and table emptied; names kept exactly for the mutated residues, unchanged; mutations, targets, cursor and mode kept |
| PanelSpec.FullReset | pybmw.py:281-286 | every collection emptied and the cursor set to 0; the mode is kept |
| PanelSpec.IndexOf | pybmw.py:644 | the first position holding the residue |
| PanelSpec.ResolveCursor | pybmw.py:642-647 | the cursor follows the residue it showed when that is still listed; otherwise it is unchanged when in range and clamped to max(0, len-1) when past the end; it is in range whenever the list is non-empty |
| PanelSpec.RecordMutation | pybmw.py:618-647 | the mutation is always recorded; when the step-mode cursor read raises nothing else changes; otherwise the residue is unstaged; targets and mode kept |
| PanelSpec.ExecuteMutation | pybmw.py:551-561 | a preview or apply failure returns false and changes nothing; the result is true exactly when the mutation applies and the record does not raise |
| PanelSpec.TargetAt | pybmw.py:570 | the code a row index reads: the batch code in batch mode, else the row's combo box, none past the last row; RowStep and RunRowsPastTable use it |
| PanelSpec.RowStep | pybmw.py:569-576 | a row index past the table (outside batch mode) is a failure that changes nothing |
| PanelSpec.RunRows | pybmw.py:567-577 | no more skipped residues than rows visited; the per-row outcome in every mode is stated by RunRowsByRow |
| PanelSpec.StartMutationProcess | pybmw.py:581-601 | a run happens exactly when the list is non-empty and the wizard launches; otherwise nothing changes; succeeded + skipped equals the listed count; after a run nothing is staged or listed |
| PanelSpec.ApplySingleMutationStep | pybmw.py:603-610 | a cursor at or past the end of the list returns false and changes nothing |
| PanelSpec.ShowPreviousResidue | pybmw.py:652-656 | a positive cursor moves down by exactly one, a cursor at 0 leaves the state unchanged; only the cursor changes; with a non-empty list the state changes exactly when "previous" is enabled; a cursor in range stays in range |
| PanelSpec.ShowNextResidue | pybmw.py:658-662 | a cursor before the last position moves up by exactly one, any other leaves the state unchanged; only the cursor changes; with a non-empty list the state changes exactly when "next" is enabled; a cursor in range stays in range |
| PanelSpec.SelectTableRow | pybmw.py:664-668 | in step mode with a selected row the cursor becomes that row; nothing else changes |
| PanelSpec.ChooseRowTarget | pybmw.py:489-496 | only the chosen row's combo box changes, to the chosen code |
| PanelSpec.SelectMode | pybmw.py:118-126 | the checked mode becomes the chosen one and nothing else changes |
| PanelSpec.ApplyEnabled | pybmw.py:321-323 | "Apply This Mutation" is enabled when the list is non-empty; EnabledButtonsAct ties it to the handler |
| PanelSpec.PreviousEnabled | pybmw.py:324 | "Previous" is enabled when the list is non-empty and the cursor positive; EnabledButtonsAct ties it to the handler |
| PanelSpec.NextEnabled | pybmw.py:325 | "Next" is enabled when the list is non-empty and the cursor before its last position; EnabledButtonsAct ties it to the handler |
| PanelSpec.MutateAllEnabled | pybmw.py:315-317 | "Mutate All" is enabled when something is staged; EnabledButtonsAct ties it to the handler |
| PanelSpec.ClearAllEnabled | pybmw.py:315-318 | "Clear All" is enabled when something is staged or mutated; EnabledButtonsAct ties it to the handler |
| PanelSpec.ExportEnabled | pybmw.py:316-319 | "Export Files..." is enabled when something is mutated or some object is loaded |
| PanelSpec.LoadMutationsFromCsv | pybmw.py:361-409 | always resets first (no mutations, cursor 0); loaded exactly when a file was chosen, objects exist and the reader does not raise; otherwise nothing is staged; when loaded, staged set, targets and rejections are those of the rows |
| PanelProperties.EmptyIsConsistent | pybmw.py:281-286 | an emptied panel with valid imported targets is consistent (list = sorted staged set, one valid code per row) |
| PanelProperties.PopulateConsistent | pybmw.py:469-496 | a populated table is consistent |
| PanelProperties.UpdateKeepsConsistent | pybmw.py:421-430 | staging keeps the panel consistent |
| PanelProperties.RecordKeepsConsistent | pybmw.py:618-647 | recording a mutation keeps the panel consistent |
| PanelProperties.ExecuteKeepsConsistent | pybmw.py:551-561 | executing a mutation keeps the panel consistent |
| PanelProperties.RowStepKeepsConsistent | pybmw.py:569-576 | one pass of the batch loop keeps the panel consistent |
| PanelProperties.RunRowsKeepsConsistent | pybmw.py:567-577 | the whole batch loop keeps the panel consistent |
| PanelProperties.StartKeepsConsistent | pybmw.py:581-601 | "Mutate All" keeps the panel consistent |
| PanelProperties.ApplyStepKeepsConsistent | pybmw.py:603-610 | "Apply This Mutation" keeps the panel consistent |
| PanelProperties.LoadIsConsistent | pybmw.py:361-409 | any import leaves the panel consistent |
| PanelProperties.RecordOriginalsKeepsNames | pybmw.py:469-478 | recorded names are never overwritten; a new entry only for a staged residue whose lookup yields something: the first name, or "UNK" when it raises |
| PanelProperties.StagingIdempotent | pybmw.py:421-430 | staging the same selection twice equals staging it once |
| PanelProperties.SortedListDistinct | pybmw.py:480 | the staged list has no duplicates |
| PanelProperties.RecordRelists | pybmw.py:637-640 | a record that does not raise relists the staged set without the residue and keeps every recorded name |
| PanelProperties.RemoveFromSortedList | pybmw.py:637-640 | removing a residue from the staged set removes exactly its position from the list, or nothing when it was not listed |
| PanelProperties.ExecuteSuccess | pybmw.py:551-561 | on success the result is true, the mutation is recorded with its target, the residue leaves the staged set and exactly its position leaves the list, targets and names kept |
| PanelProperties.CursorFollowsResidue | pybmw.py:634-647 | after a successful step-mode mutation the cursor is in range of a non-empty list and shows the same residue unless that residue was the one mutated |
| PanelProperties.CursorAfterRemoval | pybmw.py:642-647 | after the residue under the cursor leaves the list, re-resolving leaves the cursor on the position of the next residue, or on the new last position |
| PanelProperties.ApplyAtCursor | pybmw.py:603-610 | on a consistent panel with the cursor in range, "Apply This Mutation" executes the residue under the cursor with its row's code, and that residue is listed only there |
| PanelProperties.StepApplyMovesToNext | pybmw.py:603-647 | applying at the cursor records the row's code, removes that residue, and leaves the cursor on the following residue, or on the new last one |
| PanelProperties.RowStepFrame | pybmw.py:569-576 | one pass changes only its own residue's staging and mutation, never the targets or the mode, and outside step mode not the cursor |
| PanelProperties.RunRowsFrame | pybmw.py:567-577 | the loop changes only residues it still has to visit, never the targets or mode, outside step mode not the cursor, and staging only shrinks |
| PanelProperties.RunRowsPastTable | pybmw.py:570-576 | outside batch mode, once the row index is past the table every remaining residue is skipped and nothing changes |
| PanelProperties.RunRowsByRow | pybmw.py:567-577 | in every mode, over a list without duplicates: every skipped residue is a visited row; a row's residue is skipped exactly when its pass fails; a row that succeeds ends recorded as mutated to the code that row read in the state the loop had reached |
| PanelProperties.Failures | pybmw.py:572-573 | the failures are no more than the residues tried |
| PanelProperties.FailuresMembers | pybmw.py:572-573 | a residue is a failure exactly when it is tried and does not mutate |
| PanelProperties.BatchStep | pybmw.py:570-573 | in batch mode a pass succeeds exactly when the residue mutates to the batch code, and then records it and unstages it; a failure changes nothing |
| PanelProperties.BatchRows | pybmw.py:567-577 | in batch mode the skipped list is exactly the failures in order; each success is recorded with the batch code and unstaged; each failure keeps its earlier record |
| PanelProperties.BatchRunByResidue | pybmw.py:567-577 | the batch loop stated per residue: skipped = failures; successes recorded with the batch code; failures keep their earlier record |
| PanelProperties.BatchMutateAll | pybmw.py:567-601 | batch "Mutate All" reports listed - failures succeeded and failures skipped, records every success with the batch code, keeps failures' earlier records, and leaves nothing staged |
| PanelProperties.ShiftedStep | pybmw.py:570-571 | with list snap[i..] and a fresh table, row i shows the default of snap[2i]; a success leaves list snap[i+1..] and a fresh table |
| PanelProperties.ShiftedCombine | pybmw.py:567-577 | the induction step of ShiftedRows on the recorded mutations |
| PanelProperties.ShiftedRows | pybmw.py:567-577 | from row i with list snap[i..] and a fresh table, each snap[j] with 2j < n gets the default code of snap[2j] and the rest is skipped |
| PanelProperties.FirstRowStep | pybmw.py:570-571 | the first individual-mode pass records the code row 0 shows and leaves list snap[1..] with a fresh table |
| PanelProperties.FirstCombine | pybmw.py:567-577 | later passes do not touch the first residue's record |
| PanelProperties.IndividualMutateAllShiftsTargets | pybmw.py:567-577 | when everything mutates, individual "Mutate All" gives the first residue its row's code and residue j the default code of residue 2j, and skips the second half of the list |
| PanelProperties.IndividualMutateAllReportsHalf | pybmw.py:581-601 | the report after such a run counts (n+1)/2 successes and the rest skipped |
| PanelProperties.PreviousUndoesNext | pybmw.py:652-662 | "Previous" undoes an enabled "Next" |
| PanelProperties.NextUndoesPrevious | pybmw.py:652-662 | "Next" undoes an enabled "Previous" taken from a cursor inside the list |
| PanelProperties.EnabledButtonsAct | pybmw.py:315-325 | on a consistent panel: "Mutate All" is enabled exactly when a launched run completes; a disabled "Apply" changes nothing; a disabled "Clear All" only forgets names, imported targets and the cursor; "Previous" and "Next" are enabled exactly when they move the cursor |
| PanelProperties.ResetStagedListIdempotent | pybmw.py:248-250 | the staging reset keeps the panel consistent, is idempotent, and leaves names only for mutated residues |
| PanelProperties.StaleCursorAfterMutateAll | pybmw.py:321-325 | a cursor on the last row, then "Mutate All", then a smaller new staging: "Apply" is enabled but the cursor is past the end and applying changes nothing |
| PanelProperties.PopulateShowsImported | pybmw.py:482-496 | when the staged set is exactly the imported residues, every row shows its residue's imported code |
| PanelProperties.ImportedRowsShowTargets | pybmw.py:406-409 | after an import that finds residues, the mode is individual and every row starts at the code imported for its residue |
| Panel.PyBmwPanel.constructor | pybmw.py:110-126 | a new panel is empty, in batch mode, cursor 0, and consistent |
| Panel.PyBmwPanel.FullReset | pybmw.py:281-286 | the fields become FullReset of the old fields, and the panel is consistent |
| Panel.PyBmwPanel.ResetStagedList | pybmw.py:248-250 | the fields become ResetStagedList of the old fields |
| Panel.PyBmwPanel.RecordOriginalNames | pybmw.py:469-478 | the loop over the staged set leaves the names equal to RecordOriginals of the old names |
| Panel.PyBmwPanel.PopulateTable | pybmw.py:469-496 | the fields become Populate of the old fields |
| Panel.PyBmwPanel.UpdateResidueTable | pybmw.py:421-430 | the fields become UpdateResidueTable of the old fields and the selection; a consistent panel stays consistent |
| Panel.PyBmwPanel.RecordMutation | pybmw.py:618-647 | returns whether the cursor read raised; the fields become RecordMutation of the old fields |
| Panel.PyBmwPanel.ExecuteMutation | pybmw.py:551-561 | fields and result as ExecuteMutation of the old fields; a panel consistent before is consistent after |
| Panel.PyBmwPanel.RunAllMutations | pybmw.py:563-579 | None with nothing changed when the wizard fails; otherwise the skipped list and the fields of RunRows over the snapshot of the list; a panel consistent before is consistent after |
| Panel.PyBmwPanel.RunSnapshotRow | pybmw.py:569-576 | one loop pass advances the loop from row i to row i+1, extending the skipped list |
| Panel.PyBmwPanel.RunRow | pybmw.py:569-576 | fields and result as RowStep of the old fields |
| Panel.PyBmwPanel.StartMutationProcess | pybmw.py:581-601 | fields and outcome as StartMutationProcess of the old fields; a consistent panel stays consistent |
| Panel.PyBmwPanel.ApplySingleMutationStep | pybmw.py:603-610 | fields and result as ApplySingleMutationStep of the old fields; a consistent panel stays consistent |
| Panel.PyBmwPanel.ShowPreviousResidue | pybmw.py:652-654 | the fields become ShowPreviousResidue of the old fields; a consistent panel stays consistent |
| Panel.PyBmwPanel.ShowNextResidue | pybmw.py:658-660 | the fields become ShowNextResidue of the old fields; a consistent panel stays consistent |
| Panel.PyBmwPanel.PrimeFromTableSelection | pybmw.py:664-668 | the fields become SelectTableRow of the old fields; a consistent panel stays consistent |
| Panel.PyBmwPanel.ChooseRowTarget | pybmw.py:489-496 | the fields become ChooseRowTarget of the old fields; a consistent panel stays consistent |
| Panel.PyBmwPanel.SelectMode | pybmw.py:118-126 | only the mode changes; a consistent panel stays consistent |
| Panel.PyBmwPanel.LoadMutationsFromCsv | pybmw.py:361-409 | fields and outcome as LoadMutationsFromCsv of the old fields; the panel is consistent afterwards, whatever it was before |
| Panel.PyBmwPanel.StageImported | pybmw.py:406-409 | the accepted residues are staged, individual mode checked and the table populated |
| Panel.PyBmwPanel.ReadRows | pybmw.py:370-399 | the row loop leaves found residues, targets and rejections equal to ImportRows of the rows |
| Panel.PyBmwPanel.ReadOneRow | pybmw.py:375-399 | one pass absorbs the row's outcome into the accumulators |
| Panel.RecordOriginalsStep | pybmw.py:469-478 | one more residue in the names loop adds at most its own entry |
| Panel.BuildTable | pybmw.py:482-496 | one combo box per listed residue, at its imported code or "ALA" |
| Panel.FindModel | pybmw.py:386-393 | the object loop with its break returns FirstContaining |
| Panel.ReadRow | pybmw.py:375-399 | the loop body returns ClassifyRow of the row |
| Capabilities.ScanNames | pybmw.py:52-60 | the candidate loop: the first name that does not raise CmdException decides; ScanFindsFirst states its outcome |
| Capabilities.Detected | pybmw.py:41-64 | sculpting is reported only when "sculpting" is recognised; the stored setting name is kept or replaced by a candidate the host recognises |
| Capabilities.HasSettingName | pybmw.py:135 | Python truthiness of the setting name: present and non-empty |
| Capabilities.RefinementOptions | pybmw.py:134-138 | the default rotamer comes first; "Sculpt Rotamer" is offered exactly when sculpting is supported and the setting name is truthy |
| Capabilities.ScanFindsFirst | pybmw.py:53-60 | the candidate loop finds the first recognised name when every earlier one is unrecognised, finds none exactly when all are unrecognised, and only reports a listed, recognised name |
| Capabilities.FirstRecognisedWins | pybmw.py:42-60 | the first recognised candidate becomes the setting name whatever was stored; sculpting support is exactly whether "sculpting" is recognised |
| Capabilities.NoneRecognisedKeepsName | pybmw.py:53-60 | when no candidate is recognised the stored setting name is kept, not reset |
| Capabilities.FailureResets | pybmw.py:46-64 | an exception other than CmdException in any probe reached resets both entries |
| Capabilities.SculptOfferedAfterDetection | pybmw.py:134-138 | from the initial entries, "Sculpt Rotamer" is offered exactly when "sculpting" and some candidate are recognised |
| Capabilities.PymolCaps.constructor | pybmw.py:37-40 | the entries start unsupported, with no setting name |
| Capabilities.PymolCaps.Detect | pybmw.py:42-64 | the loop with its break leaves the entries equal to Detected of the old entries |

## Left out

- Qt widgets, dialogs, message boxes and labels are not modelled. The only widget state kept is the mode radio buttons and the texts of the table's combo boxes. The enablement set by `refresh_panel_view` is modelled as predicates; visibility is not.
- PyMOL cosmetic commands are not modelled: selection, colouring, labels, sticks and deleting highlights. They are host side effects. Only the deletion of old highlights in `_populate_table` (pybmw.py:439-443) is guarded, and only against `CmdException`. The `cmd.select`, `cmd.color` and `cmd.label` calls after it (pybmw.py:458-467) are not guarded, and an exception from them would leave `_populate_table` before the names and the table are rebuilt. The model treats these commands as always succeeding.
- The mutagenesis wizard is reduced to two oracles: whether it launches, and whether a mutation previews and applies. Its lifecycle, rotamer stepping, `prime_wizard_for_step`, `finalize_and_cleanup` and `reject` are host calls.
- `handle_combobox_change` only re-primes the wizard; choosing a code is modelled by `ChooseRowTarget`.
- `scan_for_steric_clashes` is a host spatial query with a floating-point cutoff.
- File I/O and the `csv` module are not modelled. The reader's records are a parameter, and `readFailed` says the reader raised after them. The rows yielded before a raise still leave their targets, as in the source.
- Export, saving and plugin launch and registration are file pickers, writes and host registration.
- `fetch_user_selection` iterates host atoms; its result is the `selection` parameter.
- `cmd.count_atoms` is the `contains` set. An object whose count raises counts as not containing the residue, as the source's `continue` does.
- ResidueOrder.Before: Python's `sorted` leaves residues with equal keys in set-iteration order, which the language does not fix. The model orders them by their residue-id string, one of the orders the source can produce.
- ResidueOrder.KeyOf: `str.isdigit` and `str.isalpha` are taken on ASCII digits and letters only, and the model drops every other character. The source behaves differently on non-ASCII digits. Some, such as '²', pass `str.isdigit` but make `int()` raise `ValueError`, so the sort in `_populate_table` fails. Others, such as '٣', pass both and add their digit value to the number. Non-ASCII letters stay in the source's letter part. None of these cases is modelled.
- CsvImport.Upper: upper-cases ASCII letters only. Unicode case mapping is not modelled.
- CsvImport.IsSpace follows Python's `str.isspace` over its code points. Unicode normalisation and the `utf-8-sig` decoding are not modelled.
- PanelSpec.RunRows: wizard exceptions are caught inside `preview_mutation` or `execute_mutation`, which then return false; that is the `mutates` oracle saying no. The only exception that reaches the loop's own handler is a missing table row, which is modelled. The sculpting settings `preview_mutation` applies are part of the same oracle.
- Capabilities.PymolCaps.Detect: an exception raised by `detect_pymol_capabilities` itself is already caught inside it, so the module-level handler around the call is not modelled.
