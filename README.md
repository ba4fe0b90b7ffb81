# AlphaFold2 model analyser and blueprint editor, in Dafny

This project models two parts of `pyrosetta_help`, then proves properties of them.

The first part is the bookkeeping of `AF2NotebookAnalyser` in `pyrosetta_help/alphafold/multimodel.py`:

- **The catalog.** It is built from a ColabFold results folder: one row per rank, and a relaxed file beats an unrelaxed one. It is then joined with the pLDDT and pTM scores read from `settings.txt`.
- **The pose registry.** It holds the `original`, `relaxed` and `phospho` groups, and the generator that walks a group in the key order of the error matrices.
- **The steps that fill or change the registry:**
  - `constrain`, `sidechain_relax` and `relax`, with the clone-if-absent rule and the `dG` column;
  - `find_interface_residues`, `get_median_interface_bfactors` and `calculate_interface`;
  - `make_phosphorylated`.
- **The PhosphoSitePlus parser and the patching.** This covers `parse_phosphosite`, `_apply_patch` and `_phospho_pose`.

The second part is the blueprint editor `BlueprinterSubscripted` in `blueprint_maker/_subscripted.py`. It is a list of rows edited through Python subscripts:

- lookups by residue index and by inclusive slice;
- rewriting and soft deletion;
- `insert`, `insert_before` and `insert_after`;
- rendering with `__str__`.

How the model is built:

- **The analyser is a class.** `Registry.Analyser` holds the catalog, the three pose groups, the error matrices and the optional columns. Each of its methods is proved against a pure function of the old state. Lemmas about those functions, in `RegistryFacts`, state what the analyser promises.
- **The blueprint editor is a class.** `Blueprint.Blueprinter` holds its rows. Every method states the new rows as a function of the old ones.
- **Pure code is functions.** Catalog building, the settings join and the PhosphoSitePlus parser are functions with lemmas about them.
- **Loops that patch a pose are methods.** `_apply_patch` and `_phospho_pose` are methods with loop invariants.
- **Poses are values.** A pose records its residues, its chain count and its PDB numbering. Every physics call made on it is appended to a `trace`: FastRelax with its score function and move map, and the two constraint derivations. This lets contracts state which refinement happened and with which weights.
- **Exceptions are values.** A Python exception becomes `Raise`/`Raised` with its class, and a contract says which class is raised when.

Where the code and its specification disagree, the model follows the code:

- **Missing `settings.txt`.** The specification says the scores become the sentinel 100. The code instead falls through to an unconditional `open` after warning, so it raises `FileNotFoundError` (`Catalog.AddSettings`).
- **Empty catalog.** The specification says an empty catalog is not an error. The code reads its `rank` column in `_add_settings`, which raises `KeyError`.
- **No `-p` marker.** For text without the marker, `parse_phosphosite` fails an `assert` (`AssertionError`), not a dedicated format error. `constrain` raises `ValueError` and `find_interface_residues` raises `AssertionError`, not state errors.
- **`calculate_interface` without a `dG` column.** It is not a no-op: it has already added the interchain residue columns before it returns (`RegistryFacts.CalculateWithoutEnergies`).
- **The `dG` column.** It is aligned by rank lookup, row by row (`RegistryFacts.RelaxSpec`).
- **`constrain` on a group.** It changes the poses of that group itself, not only `relaxed`.

Blueprint behaviours the model reproduces as written:

- **Off-position inserts.** `insert` counts live rows with `enumerate(self)`, then inserts at that count into the full row list. An emptied row in front therefore shifts new rows to an earlier position (`BlueprintFacts.InsertBeforeShiftedByDeletedRow`).
- **`insert_after` always fails.** It compares the list returned by `max()` with an int, so it always raises `TypeError` once the new rows are in (`BlueprintFacts.InsertAfterRaisesOnceInserted`).
- **Slices missing a bound.** In `self[:9]` or `self[5:]`, the slice test compares a row's index with `None`. It raises `TypeError` at the first live row that reaches the missing bound, before anything changes, and otherwise selects nothing (`BlueprintFacts.OpenSpanFails`).

## Model

| member | source | states |
|---|---|---|
| Common.FirstSeen | pyrosetta_help/alphafold/multimodel.py:95-106 | the keys of a dictionary in insertion order: each element of the input once, and nothing else |
| Text.ReplaceChar | blueprint_maker/_subscripted.py:40-42 | `str.replace` of one character: the text's pieces between its occurrences, joined with the replacement; unchanged when the character is absent, and none left when the replacement has none |
| Catalog.Records | pyrosetta_help/alphafold/multimodel.py:80-94 | the listing loop raises `AttributeError` exactly when some file matches `rank_\d+.*\.pdb` but not the detailed pattern |
| Catalog.RankPosition | pyrosetta_help/alphafold/multimodel.py:95 | `rank in ranked_filenames`: the row holding the rank, or the fact that no row holds it |
| Catalog.FirstRelaxed | pyrosetta_help/alphafold/multimodel.py:95-104 | the first relaxed candidate of a rank, or none when no candidate is relaxed |
| Catalog.AddSettings | pyrosetta_help/alphafold/multimodel.py:108-122 | raises `KeyError` for an empty catalog and `FileNotFoundError` for a missing file, and only then; otherwise every row keeps its place and entry |
| CatalogFacts.RecordsAppend | pyrosetta_help/alphafold/multimodel.py:83-104 | one more listed file is one more turn of the loop |
| CatalogFacts.RecordsIgnoreUnranked | pyrosetta_help/alphafold/multimodel.py:84-85 | files not matching `rank_\d+.*\.pdb` play no part in the catalog |
| CatalogFacts.RecordsOfFields | pyrosetta_help/alphafold/multimodel.py:83-104 | a listing of structured filenames gives one record per file, in listing order, with path `folder/filename` and `relaxed` meaning the state lacks "unrelaxed" |
| CatalogFacts.RanksPrefix | pyrosetta_help/alphafold/multimodel.py:104-106 | the ranks of a prefix of the rows are a prefix of the ranks |
| CatalogFacts.StoreRanks | pyrosetta_help/alphafold/multimodel.py:95-104 | storing a row keeps the place of a known rank and appends a new one |
| CatalogFacts.MergeRanks | pyrosetta_help/alphafold/multimodel.py:83-106 | the catalog's ranks are the listing's ranks, each once, in the order first seen (no sorting by rank) |
| CatalogFacts.RanksUnique | pyrosetta_help/alphafold/multimodel.py:95-106 | the catalog has one row per rank, and a rank has a row exactly when some file carries it |
| CatalogFacts.CandidatesEmpty | pyrosetta_help/alphafold/multimodel.py:92-104 | a rank has candidate files exactly when it occurs |
| CatalogFacts.FirstRelaxedAppend | pyrosetta_help/alphafold/multimodel.py:95-96 | a later file cannot displace an earlier relaxed one |
| CatalogFacts.ChosenAppend | pyrosetta_help/alphafold/multimodel.py:95-104 | a new file for a rank replaces the stored row unless that row is relaxed |
| CatalogFacts.MergeKeepsChosen | pyrosetta_help/alphafold/multimodel.py:83-106 | every catalog row is its rank's first relaxed file, or its last file when none is relaxed |
| CatalogFacts.RelaxedWinsEitherOrder | pyrosetta_help/alphafold/multimodel.py:95-104 | of a relaxed and an unrelaxed file for one rank, the relaxed one is kept in either listing order |
| CatalogFacts.TablesHoldLastMatch | pyrosetta_help/alphafold/multimodel.py:117-120 | a rank has scores exactly when some settings line names it, and they come from the last such line |
| CatalogFacts.JoinedScores | pyrosetta_help/alphafold/multimodel.py:117-122 | each row gets the scores of the last settings line for its rank, or none (NaN) when no line names it |
| CatalogFacts.ThreeRanksCatalog | pyrosetta_help/alphafold/multimodel.py:80-106 | ranks 1 to 3 with rank 2 relaxed then unrelaxed and a non-model file among them give exactly three rows, rank 2 keeping its relaxed file |
| CatalogFacts.SettingsMissRank | pyrosetta_help/alphafold/multimodel.py:117-122 | settings for ranks 1 and 2 only score those rows and leave rank 3 empty |
| Ptm.KeyPosition | pyrosetta_help/alphafold/multimodel.py:388 | the entry of a `defaultdict` key, or the fact that there is none |
| Ptm.ParsePhosphosite | pyrosetta_help/alphafold/multimodel.py:372-389 | raises `AssertionError` exactly when the text has no `-p` |
| Ptm.PatchFor | pyrosetta_help/alphafold/multimodel.py:407-440 | only p, ac, m1, m2 and m3 have a patch; only the methylations are restricted, and to LYS |
| Ptm.ApplyPatch | pyrosetta_help/alphafold/multimodel.py:391-403 | the patch loop on a pose, proved against its step function: skip 0, raise on a missing residue, skip a restriction mismatch, else mutate and record |
| Ptm.PhosphoPose | pyrosetta_help/alphafold/multimodel.py:405-455 | the modification loop then one FastRelax over the 7-residue neighbourhood of the patched residues, none when nothing was patched |
| PtmFacts.AppendKeys | pyrosetta_help/alphafold/multimodel.py:384-388 | appending to a `defaultdict(list)` adds a key only when it is new, at the end |
| PtmFacts.ModsAppend | pyrosetta_help/alphafold/multimodel.py:385 | the tokens of one more site are the old tokens and its own |
| PtmFacts.GroupKeys | pyrosetta_help/alphafold/multimodel.py:384-389 | the result's keys are the tokens of the sites inside the window, each once, in first-seen order |
| PtmFacts.ResiduesOfEmpty | pyrosetta_help/alphafold/multimodel.py:385-388 | a token has residues exactly when some site carries it |
| PtmFacts.GroupResidues | pyrosetta_help/alphafold/multimodel.py:381-389 | each key lists the residue numbers of its in-window sites, in text order; a `maximum` below 1 means no upper bound |
| PtmFacts.ParseExample | pyrosetta_help/alphafold/multimodel.py:372-389 | `S45-p T99-p K12-m1` in the window 1..50 gives `{p: [45], m1: [12]}` |
| PtmFacts.PatchedNothing | pyrosetta_help/alphafold/multimodel.py:391-403 | patching no residue leaves the pose as it was |
| PtmFacts.PatchedOneMore | pyrosetta_help/alphafold/multimodel.py:398-402 | patching one more residue mutates that residue alone |
| PtmFacts.PatchFromSpec | pyrosetta_help/alphafold/multimodel.py:394-403 | from any patched state, the loop patches exactly the selected residues, and raises exactly when a nonzero residue is missing |
| PtmFacts.ApplyPatchSpec | pyrosetta_help/alphafold/multimodel.py:391-403 | `_apply_patch` mutates exactly the residues it returns; they are in order the nonzero residues present whose name matches the restriction; it raises exactly when one is missing |
| PtmFacts.PatchFromReached | pyrosetta_help/alphafold/multimodel.py:394-403 | raised or not, the loop lists the selected residues before the first missing one |
| PtmFacts.ReachedSelection | pyrosetta_help/alphafold/multimodel.py:394-403 | with no residue missing, those are all the selected residues |
| PtmFacts.ApplyPatchReached | pyrosetta_help/alphafold/multimodel.py:391-403 | raised or not, `_apply_patch` has patched exactly the selected residues before the first missing one |
| PtmFacts.SimilarSelection | pyrosetta_help/alphafold/multimodel.py:397-400 | patching never changes which residues a later patch selects |
| PtmFacts.MissingAnyFirst | pyrosetta_help/alphafold/multimodel.py:407-440 | a missing residue under some patched kind is one under the first kind or under the rest |
| PtmFacts.KindStepSpec | pyrosetta_help/alphafold/multimodel.py:407-440 | one kind adds its selected residues to the patched list and patches the residues it reached, or raises on a missing residue; unknown kinds and `ub` do nothing |
| PtmFacts.KindsFromSpec | pyrosetta_help/alphafold/multimodel.py:407-440 | the modification loop lists, kind by kind, the expected residues, and raises exactly when one is missing |
| PtmFacts.KindsFromPatches | pyrosetta_help/alphafold/multimodel.py:407-440 | the loop leaves the pose patched kind by kind, up to and including the kind that raises |
| PtmFacts.SimilarLastPatch | pyrosetta_help/alphafold/multimodel.py:397-400 | which patch a residue ends with, and whether a residue is missing, do not depend on earlier patches |
| PtmFacts.PatchedAllTypes | pyrosetta_help/alphafold/multimodel.py:398-402 | with no residue missing, each residue carries the patch of the last kind selecting it, on its own three-letter name, or is unchanged |
| PtmFacts.PhosphoSpec | pyrosetta_help/alphafold/multimodel.py:405-455 | `_phospho_pose` keeps the residue numbers and names, patches the residues kind by kind (half-patched when it raises), raises exactly when a residue is missing, returns the expected residues, and refines once around them only when there are some |
| PtmFacts.PhosphoTypes | pyrosetta_help/alphafold/multimodel.py:405-440 | when `_phospho_pose` returns, each residue carries the patch of the last kind selecting it, or is unchanged |
| Registry.Walk | pyrosetta_help/alphafold/multimodel.py:153-158 | the generator yields (rank, pose, matrix) for each error key in order, up to the first rank the group lacks, where it raises `KeyError` |
| Registry.CloneRefineNext | pyrosetta_help/alphafold/multimodel.py:189-192 | one more turn clones only an absent rank and refines it |
| Registry.RefineGroup | pyrosetta_help/alphafold/multimodel.py:188-192 | the relaxing loop over the generator's items: each rank is cloned from the original group only when the relaxed group lacks it, then refined; it stops where the generator raises |
| Registry.PhosphorylateGroup | pyrosetta_help/alphafold/multimodel.py:457-475 | the phosphorylation loop over the relaxed group's items: each relaxed pose is cloned into the phospho group and patched there; it stops at the first exception, keeping the half-patched pose |
| Registry.ConstrainGroup | pyrosetta_help/alphafold/multimodel.py:169-171 | the constraint loop over one group, proved against the generator's items: it stops where the generator raises |
| Registry.Analyser.constructor | pyrosetta_help/alphafold/multimodel.py:55-65 | the groups start empty, `original` holds the loaded poses by rank when requested, and there is one error matrix per catalog row |
| Registry.Analyser.SetGroup | pyrosetta_help/alphafold/multimodel.py:67-70 | assigning one group of the `poses` property leaves the others |
| Registry.Analyser.RefineFromOriginal | pyrosetta_help/alphafold/multimodel.py:189-192 | the relaxing loop changes the relaxed group as its specification function says |
| Registry.Analyser.SidechainRelax | pyrosetta_help/alphafold/multimodel.py:173-192 | side-chain-only FastRelax with constraint weight 0 over the original group, cloning absent ranks |
| Registry.Analyser.Relax | pyrosetta_help/alphafold/multimodel.py:194-219 | full FastRelax with constraint weight 1, then the `dG` column with weight 0 |
| Registry.Analyser.Constrain | pyrosetta_help/alphafold/multimodel.py:160-171 | both constraint sets go onto the chosen group's poses; other groups are untouched |
| Registry.Analyser.FindInterfaceResidues | pyrosetta_help/alphafold/multimodel.py:331-344 | the interchain columns, computed once, after the three guards |
| Registry.Analyser.MedianInterfaceBfactors | pyrosetta_help/alphafold/multimodel.py:354-367 | finds the interface residues first, then gives each row's median pLDDT over both residue sets |
| Registry.Analyser.CalculateInterface | pyrosetta_help/alphafold/multimodel.py:229-259 | medians first, then the interface analysis rows only when `dG` exists |
| Registry.Analyser.MakePhosphorylated | pyrosetta_help/alphafold/multimodel.py:457-475 | changes only the phospho group, as its specification function says |
| RegistryFacts.GeneratorSpec | pyrosetta_help/alphafold/multimodel.py:153-158 | `AssertionError` exactly for an empty group; otherwise the items follow the error keys, and the walk ends normally exactly when the group has every key |
| RegistryFacts.CloneRefineSpec | pyrosetta_help/alphafold/multimodel.py:189-192 | the loop clones only absent ranks, refines each visited rank once and leaves the others alone |
| RegistryFacts.CloneRefineKeys | pyrosetta_help/alphafold/multimodel.py:190-191 | the relaxed group afterwards has the old ranks and the visited ones |
| RegistryFacts.CloneRefineUntouched | pyrosetta_help/alphafold/multimodel.py:189-192 | ranks the loop does not visit keep their pose |
| RegistryFacts.CloneRefineVisited | pyrosetta_help/alphafold/multimodel.py:189-192 | each visited rank holds its existing pose or the original clone, refined once |
| RegistryFacts.RefineSpec | pyrosetta_help/alphafold/multimodel.py:173-216 | both relaxing steps finish exactly when the original group is loaded and complete; every new relaxed pose is a refined original, and existing ones are refined in place |
| RegistryFacts.SecondPassRefinesSameClone | pyrosetta_help/alphafold/multimodel.py:221-227 | `sidechain_relax` then `relax` refine the same clone twice: idempotent by presence, not by effect |
| RegistryFacts.RelaxSpec | pyrosetta_help/alphafold/multimodel.py:194-219 | `dG` gets one entry per catalog row, its rank's relaxed pose scored with weight 0; a failed relax leaves `dG` alone |
| RegistryFacts.ConstrainAllSpec | pyrosetta_help/alphafold/multimodel.py:169-171 | every visited pose gets both constraint sets from its own matrix; others are unchanged |
| RegistryFacts.ConstrainSpec | pyrosetta_help/alphafold/multimodel.py:160-171 | `ValueError` without original poses and `AssertionError` for an empty group, with nothing changed; otherwise every reached rank is constrained with cutoff 15, and the group keeps its ranks |
| RegistryFacts.InterfaceSpec | pyrosetta_help/alphafold/multimodel.py:331-344 | a cached no-op once computed; otherwise succeeds exactly when `relaxed` is non-empty, has rank 1 with more than one chain, and has every row's rank; then it records chain 1 and 2 contacts within 3 |
| RegistryFacts.CalculateWithoutEnergies | pyrosetta_help/alphafold/multimodel.py:240-243 | without `dG`, `calculate_interface` still adds the interchain columns but no interface rows |
| RegistryFacts.CalculateSpec | pyrosetta_help/alphafold/multimodel.py:229-259 | with `dG`, each row gets its median pLDDT and the interface analysis of its relaxed pose, in catalog order |
| RegistryFacts.PhosphoFromSpec | pyrosetta_help/alphafold/multimodel.py:473-475 | each phospho entry is untouched or a fresh patched copy of its relaxed pose, whatever was there before |
| RegistryFacts.MakePhosphoSpec | pyrosetta_help/alphafold/multimodel.py:457-475 | `KeyError` without original rank 1 and `AssertionError` with no relaxed poses, with nothing changed; otherwise every rank is rebuilt from its relaxed pose with PTMs converted through rank 1's numbering |
| Blueprint.Live | blueprint_maker/_subscripted.py:6-7 | iteration visits the non-empty rows only, in stored order |
| Blueprint.Find | blueprint_maker/_subscripted.py:10-14 | the first live row carrying an index, or the fact that none does |
| Blueprint.SpanPositions | blueprint_maker/_subscripted.py:15-21 | exactly the live rows with `start <= index <= stop`, in order |
| Blueprint.Splice | blueprint_maker/_subscripted.py:88-93 | inserting one new row per value adds that many rows and keeps rows well formed |
| Blueprint.WobbleAt | blueprint_maker/_subscripted.py:104-106 | a row of three columns or fewer gets the design `NATAA`; raises exactly when the index is not found |
| Blueprint.Design | blueprint_maker/_subscripted.py:40-44 | the design written to a row of a slice: the value's pieces between `*`s joined with the row's residue letter, the value itself when it has no `*` |
| Blueprint.Blueprinter.LookupOpen | blueprint_maker/_subscripted.py:15-21 | a slice missing a bound raises `TypeError` exactly when some live row's test compares with the missing bound; otherwise it selects nothing |
| Blueprint.Blueprinter.Lookup | blueprint_maker/_subscripted.py:9-24 | `self[i]` is the first live row with index `i`, else `ValueError` |
| Blueprint.Blueprinter.LookupSpan | blueprint_maker/_subscripted.py:15-21 | `self[a:b]` is the live rows in the inclusive span |
| Blueprint.Blueprinter.GetItem | blueprint_maker/_subscripted.py:9-24 | int, slice with both bounds, slice missing a bound (`TypeError` or nothing) or `TypeError` |
| Blueprint.Blueprinter.SetRow | blueprint_maker/_subscripted.py:26-31 | columns after 1 are replaced by the secondary structure and the design |
| Blueprint.Blueprinter.SetSpan | blueprint_maker/_subscripted.py:37-44 | every row of the span is rewritten, with `*` standing for its own residue |
| Blueprint.Blueprinter.SetItem | blueprint_maker/_subscripted.py:33-46 | int, slice or `TypeError`, with nothing changed on an error; a slice missing a bound changes nothing and raises as its lookup does |
| Blueprint.Blueprinter.DelSpan | blueprint_maker/_subscripted.py:58-60 | the rows of the span are emptied, not removed |
| Blueprint.Blueprinter.DelItem | blueprint_maker/_subscripted.py:48-62 | soft deletion keeps the number of rows; a slice missing a bound changes nothing and raises as its lookup does |
| Blueprint.Blueprinter.Wobble | blueprint_maker/_subscripted.py:104-106 | one wobble step, as `WobbleAt` states |
| Blueprint.Blueprinter.Enumerate | blueprint_maker/_subscripted.py:86-87 | the number of live rows before the one carrying the index, never past its position |
| Blueprint.Blueprinter.InsertRows | blueprint_maker/_subscripted.py:88-93 | the new rows `[0, X, D, value]` go in, in order, at one position |
| Blueprint.Blueprinter.Insert | blueprint_maker/_subscripted.py:70-106 | `insert` as its specification function says, `TypeError` for a bad value and `ValueError` for an unknown index |
| Blueprint.Blueprinter.InsertBefore | blueprint_maker/_subscripted.py:108-109 | `insert` with `before` true |
| Blueprint.Blueprinter.InsertAfter | blueprint_maker/_subscripted.py:111-112 | `insert` with `before` false |
| Blueprint.SpliceStep | blueprint_maker/_subscripted.py:88-93 | one more `list.insert` extends the splice by the next value |
| BlueprintFacts.OpenSpanFails | blueprint_maker/_subscripted.py:17-19 | a slice without a start raises exactly when there is a live row; one without a stop raises exactly when `max()` lists an index at or above its start |
| BlueprintFacts.LiveConcat | blueprint_maker/_subscripted.py:6-7 | iteration distributes over concatenation |
| BlueprintFacts.LiveMembers | blueprint_maker/_subscripted.py:6-7 | iteration visits exactly the non-empty rows |
| BlueprintFacts.DeletedRowNotIterated | blueprint_maker/_subscripted.py:48-62 | an emptied row keeps its place but is no longer iterated |
| BlueprintFacts.RenderIgnoresDeleted | blueprint_maker/_subscripted.py:116-117 | an emptied row never shows in the text |
| BlueprintFacts.FindDependsOnMatches | blueprint_maker/_subscripted.py:10-14 | a lookup depends only on which rows carry the index |
| BlueprintFacts.FindKeepsRewrittenRow | blueprint_maker/_subscripted.py:26-31 | rewriting a row's design changes no lookup |
| BlueprintFacts.FindFirst | blueprint_maker/_subscripted.py:10-14 | the first live row carrying the index is the one found |
| BlueprintFacts.FindAfterDelete | blueprint_maker/_subscripted.py:55-57 | after `del self[i]`, `self[i]` finds the next row with index `i`, or raises |
| BlueprintFacts.MaxListsFindableIndices | blueprint_maker/_subscripted.py:64-68 | `max()` lists exactly the indices a lookup can find |
| BlueprintFacts.JoinAvoids | blueprint_maker/_subscripted.py:116-117 | joining pieces without a character gives text without it, when the separator lacks it |
| BlueprintFacts.RenderLines | blueprint_maker/_subscripted.py:116-117 | `str(self)` has one line per live row, in order, each the row's fields joined by spaces |
| BlueprintFacts.LiveOfLivePrefix | blueprint_maker/_subscripted.py:86 | with no emptied row in front, the enumeration count is the position |
| BlueprintFacts.WobbleKeepsLookups | blueprint_maker/_subscripted.py:104-106 | a wobble changes no lookup, and leaves the found row with a design |
| BlueprintFacts.SpliceKeepsLookups | blueprint_maker/_subscripted.py:88-93 | inserted rows carry index 0 and change no other lookup |
| BlueprintFacts.InsertBeforeRetouches | blueprint_maker/_subscripted.py:86-106 | whatever the wobble does, `insert_before` leaves the spliced rows, some retouched |
| BlueprintFacts.InsertBeforePlacesRows | blueprint_maker/_subscripted.py:86-93 | with no emptied row in front, the new rows sit right before the row for the index |
| BlueprintFacts.InsertAfterRaisesOnceInserted | blueprint_maker/_subscripted.py:98-101 | `insert_after` raises `TypeError` after its rows are in, right after the row for the index |
| BlueprintFacts.InsertBeforeWobblesNeighbours | blueprint_maker/_subscripted.py:98-106 | a completed `insert_before(i)` leaves the rows for `i` and `i - 1` with a design |
| BlueprintFacts.InsertBeforeFirstRaises | blueprint_maker/_subscripted.py:98-106 | with no row for `i - 1`, `insert_before(i)` raises `ValueError` after inserting |
| BlueprintFacts.InsertBeforeShiftedByDeletedRow | blueprint_maker/_subscripted.py:86-93 | with an emptied row in front, `insert_before(2, 'V')` lands before residue 1 |

## Left out

- **Physics and other foreign calls.** The structure engine's calls are not computed: FastRelax, the constraint derivations, scoring, the contact selector, the median over B-factors and the interface analyser. A pose records each call in its `trace`, and a measurement is a value naming its inputs. The N_interchain count columns are left out with them.
- **The detailed filename regex.** What the filename and settings patterns match is given as parsed fields (`Catalog.Parse`, `Catalog.Setting`), as are the `(\w)(\d+)\-(\w+)` matches of `parse_phosphosite`. Floating-point scores are `real`.
- **File input and output.** The model covers no directory listing, no file reading and no file writing: `dump`, `dump_pdbs`, `load`, `_parse_folder_argument`, `write` and `set`, and the `warnings.warn` call. The constructor receives the loaded poses and error matrices as arguments (`get_poses`, `get_errors`).
- Registry.Analyser.constructor: it takes the catalog already built and scored, so it requires a non-empty catalog with unique ranks. Reading the rank column of an empty catalog raises before construction completes (`Catalog.AddSettings`), and `CatalogFacts.RanksUnique` proves the ranks unique.
- **`get_ss`.** The blueprint's secondary-structure function is a parameter, because its class is not part of this model.
- **Poses are values, not shared objects.** The in-place updates of the source are modelled by writing the changed pose back into its group. A pose held in two places at once is not modelled. The source never does this, because relaxed and phospho poses are clones.
- **`MutateResidue` on the residue's name.** The patch is recorded in the residue type name; the three-letter name is kept as it was.
- **`constrain_and_relax` as one method.** Its two refinement passes are covered by `RegistryFacts.SecondPassRefinesSameClone`. The constraint pass between them is covered by `RegistryFacts.ConstrainSpec`.
- **Unknown group names.** `constrain(groupname)` raises `KeyError` for a name outside `original`, `relaxed` and `phospho` (multimodel.py:157). The model's groups are the enumeration `Registry.Group`, so it holds only the three known names and this error is not modelled.
- **`_get_median_interface_bfactor`.** It is the `MedianPLDDT` measurement rather than a computed median.
- **Unicode case mapping.** `str.upper` is modelled for ASCII letters only.
