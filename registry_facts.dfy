/** What the pose registry's steps guarantee. */
module RegistryFacts {
  import opened Common
  import opened Catalog
  import opened Poses
  import opened Ptm
  import PtmFacts
  import opened Registry

  function ItemRanks(items: seq<Item>): seq<nat> {
    seq(|items|, k requires 0 <= k < |items| => items[k].rank)
  }

  // -------------------------------------------------------------- generator

  /** `_generator_poses(g)` fails at once when the group is empty. Otherwise
      it yields `(rank, group[rank], errors[rank])` for the keys of `errors`
      in order, and runs to the end exactly when the group has every one of
      them; else it raises `KeyError` at the first rank the group lacks. */
  lemma GeneratorSpec(group: map<nat, Pose>, errors: seq<Pae>)
    ensures GeneratorPoses(group, errors).Raise? <==> |group| == 0
    ensures GeneratorPoses(group, errors).Raise? ==> GeneratorPoses(group, errors).exception == AssertionError
    ensures GeneratorPoses(group, errors).Ok? ==>
      var g := GeneratorPoses(group, errors).value;
      && ItemRanks(g.items) == ErrorRanks(errors)[..|g.items|]
      && (forall k :: 0 <= k < |g.items| ==> g.items[k].pose == group[errors[k].rank] && g.items[k].pae == errors[k].matrix)
      && (g.end.Returned? <==> forall k :: 0 <= k < |errors| ==> errors[k].rank in group)
      && (g.end.Raised? ==>
            && g.end.exception == KeyError
            && errors[|g.items|].rank !in group
            && forall k :: 0 <= k < |g.items| ==> errors[k].rank in group)
  {
    if |group| != 0 {
      var g := Walk(group, errors);
      if g.end.Raised? {
        assert errors[|g.items|].rank !in group;
      }
    }
  }

  lemma DistinctPrefix<T>(s: seq<T>, n: nat)
    requires Distinct(s) && n <= |s|
    ensures Distinct(s[..n])
  {
  }

  // ------------------------------------------------- sidechain_relax, relax

  /** The shared loop clones only ranks the relaxed group lacks, refines
      every rank it visits once, and leaves every other rank alone. */
  lemma CloneRefineSpec(relaxed: map<nat, Pose>, items: seq<Item>, step: Physics)
    requires Distinct(ItemRanks(items))
    ensures var result := CloneRefine(relaxed, items, step);
      && (forall r :: r in result <==> r in relaxed || r in ItemRanks(items))
      && (forall k :: 0 <= k < |items| ==>
            items[k].rank in result
            && result[items[k].rank] == Refined(if items[k].rank in relaxed then relaxed[items[k].rank] else items[k].pose, step))
      && (forall r :: r in relaxed && r !in ItemRanks(items) ==> r in result && result[r] == relaxed[r])
  {
    CloneRefineKeys(relaxed, items, step);
    CloneRefineVisited(relaxed, items, step);
    CloneRefineUntouched(relaxed, items, step);
  }

  lemma {:induction false} CloneRefineKeys(relaxed: map<nat, Pose>, items: seq<Item>, step: Physics)
    ensures forall r :: r in CloneRefine(relaxed, items, step) <==> r in relaxed || r in ItemRanks(items)
  {
    if items != [] {
      var n := |items| - 1;
      assert ItemRanks(items) == ItemRanks(items[..n]) + [items[n].rank];
      CloneRefineKeys(relaxed, items[..n], step);
    }
  }

  lemma {:induction false} CloneRefineUntouched(relaxed: map<nat, Pose>, items: seq<Item>, step: Physics)
    ensures forall r :: r in relaxed && r !in ItemRanks(items) ==>
      r in CloneRefine(relaxed, items, step) && CloneRefine(relaxed, items, step)[r] == relaxed[r]
  {
    if items != [] {
      var n := |items| - 1;
      assert ItemRanks(items) == ItemRanks(items[..n]) + [items[n].rank];
      CloneRefineUntouched(relaxed, items[..n], step);
    }
  }

  lemma {:induction false} CloneRefineVisited(relaxed: map<nat, Pose>, items: seq<Item>, step: Physics)
    requires Distinct(ItemRanks(items))
    ensures var result := CloneRefine(relaxed, items, step);
      forall k :: 0 <= k < |items| ==>
        items[k].rank in result
        && result[items[k].rank] == Refined(if items[k].rank in relaxed then relaxed[items[k].rank] else items[k].pose, step)
  {
    if items != [] {
      var n := |items| - 1;
      var last := items[n];
      var ranks := ItemRanks(items);
      assert ItemRanks(items[..n]) == ranks[..n];
      assert ranks == ItemRanks(items[..n]) + [last.rank];
      DistinctPrefix(ranks, n);
      CloneRefineVisited(relaxed, items[..n], step);
      forall k | 0 <= k < n
        ensures items[k].rank != last.rank && items[..n][k] == items[k]
      {
        assert ranks[k] != ranks[n];
      }
      CloneRefineFresh(relaxed, items[..n], last.rank, step);
    }
  }

  /** A rank the loop has not visited is as the relaxed group had it. */
  lemma CloneRefineFresh(relaxed: map<nat, Pose>, items: seq<Item>, r: nat, step: Physics)
    requires forall k :: 0 <= k < |items| ==> items[k].rank != r
    ensures r in CloneRefine(relaxed, items, step) <==> r in relaxed
    ensures r in relaxed ==> CloneRefine(relaxed, items, step)[r] == relaxed[r]
  {
    CloneRefineKeys(relaxed, items, step);
    CloneRefineUntouched(relaxed, items, step);
  }

  lemma WalkRanks(group: map<nat, Pose>, errors: seq<Pae>)
    requires Distinct(ErrorRanks(errors))
    ensures var g := Walk(group, errors);
      && ItemRanks(g.items) == ErrorRanks(errors)[..|g.items|]
      && Distinct(ItemRanks(g.items))
  {
    var g := Walk(group, errors);
    assert ItemRanks(g.items) == ErrorRanks(errors)[..|g.items|];
    DistinctPrefix(ErrorRanks(errors), |g.items|);
  }

  /** `sidechain_relax` and `relax` finish exactly when the original group
      is loaded and holds every rank of `errors`. Whichever way they end,
      ranks the relaxed group held stay there (refined at most once more),
      and every rank they add is a refined clone of the original pose.
      When they finish, every rank of `errors` is in the relaxed group, as
      the refined existing pose when there was one, not a new clone. */
  lemma RefineSpec(original: map<nat, Pose>, relaxed: map<nat, Pose>, errors: seq<Pae>, step: Physics)
    requires Distinct(ErrorRanks(errors))
    ensures var (result, out) := RefineEffect(original, relaxed, errors, step);
      && (out.Returned? <==> |original| > 0 && forall k :: 0 <= k < |errors| ==> errors[k].rank in original)
      && (out.Raised? ==> out.exception == if |original| == 0 then AssertionError else KeyError)
      && (forall r :: r in relaxed ==> r in result && (result[r] == relaxed[r] || result[r] == Refined(relaxed[r], step)))
      && (forall r :: r in result && r !in relaxed ==> r in original && result[r] == Refined(original[r], step))
      && (out.Returned? ==> forall k :: 0 <= k < |errors| ==>
            var r := errors[k].rank;
            r in result && result[r] == Refined(if r in relaxed then relaxed[r] else original[r], step))
  {
    GeneratorSpec(original, errors);
    if |original| != 0 {
      WalkClones(original, relaxed, errors, step);
    }
  }

  /** `RefineSpec` once the generator has started. */
  lemma WalkClones(original: map<nat, Pose>, relaxed: map<nat, Pose>, errors: seq<Pae>, step: Physics)
    requires Distinct(ErrorRanks(errors))
    ensures var g := Walk(original, errors);
      var result := CloneRefine(relaxed, g.items, step);
      && (forall r :: r in relaxed ==> r in result && (result[r] == relaxed[r] || result[r] == Refined(relaxed[r], step)))
      && (forall r :: r in result && r !in relaxed ==> r in original && result[r] == Refined(original[r], step))
      && (g.end.Returned? ==> forall k :: 0 <= k < |errors| ==>
            var r := errors[k].rank;
            r in result && result[r] == Refined(if r in relaxed then relaxed[r] else original[r], step))
  {
    WalkClonesKeep(original, relaxed, errors, step);
    WalkClonesFinished(original, relaxed, errors, step);
  }

  lemma WalkClonesKeep(original: map<nat, Pose>, relaxed: map<nat, Pose>, errors: seq<Pae>, step: Physics)
    requires Distinct(ErrorRanks(errors))
    ensures var g := Walk(original, errors);
      var result := CloneRefine(relaxed, g.items, step);
      && (forall r :: r in relaxed ==> r in result && (result[r] == relaxed[r] || result[r] == Refined(relaxed[r], step)))
      && (forall r :: r in result && r !in relaxed ==> r in original && result[r] == Refined(original[r], step))
  {
    var g := Walk(original, errors);
    WalkRanks(original, errors);
    CloneRefineSpec(relaxed, g.items, step);
    var result := CloneRefine(relaxed, g.items, step);
    forall r | r in result && r !in relaxed
      ensures r in original && result[r] == Refined(original[r], step)
    {
      var k :| 0 <= k < |g.items| && ItemRanks(g.items)[k] == r;
    }
    forall r | r in relaxed
      ensures result[r] == relaxed[r] || result[r] == Refined(relaxed[r], step)
    {
      if r in ItemRanks(g.items) {
        var k :| 0 <= k < |g.items| && ItemRanks(g.items)[k] == r;
      }
    }
  }

  lemma WalkClonesFinished(original: map<nat, Pose>, relaxed: map<nat, Pose>, errors: seq<Pae>, step: Physics)
    requires Distinct(ErrorRanks(errors))
    ensures var g := Walk(original, errors);
      var result := CloneRefine(relaxed, g.items, step);
      g.end.Returned? ==> forall k :: 0 <= k < |errors| ==>
        var r := errors[k].rank;
        r in result && result[r] == Refined(if r in relaxed then relaxed[r] else original[r], step)
  {
    var g := Walk(original, errors);
    if g.end.Returned? {
      WalkRanks(original, errors);
      CloneRefineVisited(relaxed, g.items, step);
      forall k | 0 <= k < |errors|
        ensures errors[k].rank == g.items[k].rank && g.items[k].pose == original[errors[k].rank]
      {
      }
    }
  }

  /** Running the loop twice, as `constrain_and_relax` does with
      `sidechain_relax` then `relax`, refines the one clone twice: the second
      pass does not clone again. */
  lemma SecondPassRefinesSameClone(original: map<nat, Pose>, relaxed: map<nat, Pose>, errors: seq<Pae>,
                                   first: Physics, second: Physics)
    requires Distinct(ErrorRanks(errors))
    requires RefineEffect(original, relaxed, errors, first).1.Returned?
    ensures var once := RefineEffect(original, relaxed, errors, first).0;
      var (twice, out) := RefineEffect(original, once, errors, second);
      && out.Returned?
      && forall k :: 0 <= k < |errors| ==>
           var r := errors[k].rank;
           r in twice && twice[r] == Refined(Refined(if r in relaxed then relaxed[r] else original[r], first), second)
  {
    RefineSpec(original, relaxed, errors, first);
    var once := RefineEffect(original, relaxed, errors, first).0;
    RefineSpec(original, once, errors, second);
  }

  /** After `relax` finishes, `dG` has one entry per catalog row: that row's
      relaxed pose scored with the constraint weight back at 0. When the
      rows' ranks are keys of `errors` (as `get_errors` makes them), the
      column cannot fail once the loop has finished. When `relax` raises,
      `dG` is left as it was. */
  lemma RelaxSpec(original: map<nat, Pose>, relaxed: map<nat, Pose>, errors: seq<Pae>, scores: seq<Scored>,
                  dG: Option<seq<Measure>>, cycles: int)
    requires Distinct(ErrorRanks(errors))
    ensures var (result, column, out) := RelaxEffect(original, relaxed, errors, scores, dG, cycles);
      && result == RefineEffect(original, relaxed, errors, FullRelaxStep(cycles)).0
      && (out.Raised? ==> column == dG)
      && (out.Returned? ==>
            && column.Some? && |column.value| == |scores|
            && forall k :: 0 <= k < |scores| ==>
                 scores[k].entry.rank in result && column.value[k] == Energy(result[scores[k].entry.rank], FullAtom(0)))
      && ((forall k :: 0 <= k < |scores| ==> scores[k].entry.rank in ErrorRanks(errors))
            ==> (out.Returned? <==> RefineEffect(original, relaxed, errors, FullRelaxStep(cycles)).1.Returned?))
  {
    var (result, end) := RefineEffect(original, relaxed, errors, FullRelaxStep(cycles));
    if end.Returned? && forall k :: 0 <= k < |scores| ==> scores[k].entry.rank in ErrorRanks(errors) {
      RefineCovers(original, relaxed, errors, FullRelaxStep(cycles));
      forall k | 0 <= k < |scores|
        ensures scores[k].entry.rank in result
      {
        assert scores[k].entry.rank in ErrorRanks(errors);
        var j :| 0 <= j < |ErrorRanks(errors)| && ErrorRanks(errors)[j] == scores[k].entry.rank;
        assert errors[j].rank in result;
      }
    }
  }

  /** A finished refinement loop leaves every rank of `errors` relaxed. */
  lemma RefineCovers(original: map<nat, Pose>, relaxed: map<nat, Pose>, errors: seq<Pae>, step: Physics)
    requires Distinct(ErrorRanks(errors))
    ensures var (result, out) := RefineEffect(original, relaxed, errors, step);
      out.Returned? ==> forall k :: 0 <= k < |errors| ==> errors[k].rank in result
  {
    RefineSpec(original, relaxed, errors, step);
  }

  // -------------------------------------------------------------- constrain

  /** The constraint loop adds both constraint sets once to every rank it
      visits, and leaves every other rank alone. */
  lemma ConstrainAllSpec(group: map<nat, Pose>, items: seq<Item>, options: seq<(string, real)>)
    requires Distinct(ItemRanks(items))
    requires forall k :: 0 <= k < |items| ==> items[k].rank in group && items[k].pose == group[items[k].rank]
    ensures var result := ConstrainAll(group, items, options);
      && result.Keys == group.Keys
      && (forall k :: 0 <= k < |items| ==> result[items[k].rank] == Constrained(group[items[k].rank], items[k].pae, options))
      && (forall r :: r in group && r !in ItemRanks(items) ==> result[r] == group[r])
  {
    ConstrainAllKeys(group, items, options);
    ConstrainAllVisited(group, items, options);
    ConstrainAllUntouched(group, items, options);
  }

  lemma {:induction false} ConstrainAllKeys(group: map<nat, Pose>, items: seq<Item>, options: seq<(string, real)>)
    requires forall k :: 0 <= k < |items| ==> items[k].rank in group
    ensures ConstrainAll(group, items, options).Keys == group.Keys
  {
    if items != [] {
      var n := |items| - 1;
      ConstrainAllKeys(group, items[..n], options);
    }
  }

  lemma {:induction false} ConstrainAllUntouched(group: map<nat, Pose>, items: seq<Item>, options: seq<(string, real)>)
    ensures forall r :: r in group && r !in ItemRanks(items) ==>
      r in ConstrainAll(group, items, options) && ConstrainAll(group, items, options)[r] == group[r]
  {
    if items != [] {
      var n := |items| - 1;
      assert ItemRanks(items) == ItemRanks(items[..n]) + [items[n].rank];
      ConstrainAllUntouched(group, items[..n], options);
    }
  }

  lemma {:induction false} ConstrainAllVisited(group: map<nat, Pose>, items: seq<Item>, options: seq<(string, real)>)
    requires Distinct(ItemRanks(items))
    requires forall k :: 0 <= k < |items| ==> items[k].rank in group && items[k].pose == group[items[k].rank]
    ensures var result := ConstrainAll(group, items, options);
      forall k :: 0 <= k < |items| ==>
        items[k].rank in result && result[items[k].rank] == Constrained(group[items[k].rank], items[k].pae, options)
  {
    if items != [] {
      var n := |items| - 1;
      var last := items[n];
      var ranks := ItemRanks(items);
      assert ItemRanks(items[..n]) == ranks[..n];
      DistinctPrefix(ranks, n);
      ConstrainAllVisited(group, items[..n], options);
      forall k | 0 <= k < n
        ensures items[k].rank != last.rank && items[..n][k] == items[k]
      {
        assert ranks[k] != ranks[n];
      }
    }
  }

  /** `constrain(g)` raises `ValueError` without touching anything when
      no original pose is loaded, and `AssertionError` when group `g` is
      empty. Otherwise every rank of `errors` it reaches gets both
      constraint sets from its own matrix, the interchain one with cutoff
      15, and it finishes exactly when `g` holds every rank of `errors`.
      The group keeps its ranks. */
  lemma ConstrainSpec(original: map<nat, Pose>, group: map<nat, Pose>, errors: seq<Pae>, options: seq<(string, real)>)
    requires Distinct(ErrorRanks(errors))
    ensures var (result, out) := ConstrainEffect(original, group, errors, options);
      && result.Keys == group.Keys
      && (|original| == 0 ==> out == Raised(ValueError) && result == group)
      && (|original| != 0 && |group| == 0 ==> out == Raised(AssertionError) && result == group)
      && (out.Returned? <==> |original| != 0 && |group| != 0 && forall k :: 0 <= k < |errors| ==> errors[k].rank in group)
      && (out.Returned? ==> forall k :: 0 <= k < |errors| ==>
            result[errors[k].rank] == Constrained(group[errors[k].rank], errors[k].matrix, options))
      && (forall r :: r in group ==>
            || result[r] == group[r]
            || exists k :: 0 <= k < |errors| && errors[k].rank == r && result[r] == Constrained(group[r], errors[k].matrix, options))
  {
    GeneratorSpec(group, errors);
    if |original| != 0 && |group| != 0 {
      WalkConstrains(group, errors, options);
    }
  }

  /** `ConstrainSpec` once the generator has started. */
  lemma WalkConstrains(group: map<nat, Pose>, errors: seq<Pae>, options: seq<(string, real)>)
    requires Distinct(ErrorRanks(errors))
    ensures var g := Walk(group, errors);
      var result := ConstrainAll(group, g.items, options);
      && result.Keys == group.Keys
      && (g.end.Returned? ==> forall k :: 0 <= k < |errors| ==>
            result[errors[k].rank] == Constrained(group[errors[k].rank], errors[k].matrix, options))
      && (forall r :: r in group ==>
            || result[r] == group[r]
            || exists k :: 0 <= k < |errors| && errors[k].rank == r && result[r] == Constrained(group[r], errors[k].matrix, options))
  {
    var g := Walk(group, errors);
    WalkRanks(group, errors);
    ConstrainAllSpec(group, g.items, options);
    var result := ConstrainAll(group, g.items, options);
    if g.end.Returned? {
      forall k | 0 <= k < |errors|
        ensures result[errors[k].rank] == Constrained(group[errors[k].rank], errors[k].matrix, options)
      {
        assert g.items[k].rank == errors[k].rank;
      }
    }
    forall r | r in group && r in ItemRanks(g.items)
      ensures exists k :: 0 <= k < |errors| && errors[k].rank == r && result[r] == Constrained(group[r], errors[k].matrix, options)
    {
      var k :| 0 <= k < |g.items| && ItemRanks(g.items)[k] == r;
      assert errors[k].rank == r && g.items[k].pae == errors[k].matrix;
    }
  }

  // -------------------------------------------------------------- interface

  /** `find_interface_residues` does nothing once its columns exist. Before
      that, it raises `AssertionError` for an empty relaxed group,
      `KeyError` when rank 1 is not relaxed, `AssertionError` when that pose
      has one chain, and `KeyError` when some row's rank has no relaxed
      pose; otherwise it adds, for every row, the residues of chains 1 and 2
      within 3 of another chain in the row's relaxed pose. It changes
      nothing when it raises. */
  lemma InterfaceSpec(scores: seq<Scored>, relaxed: map<nat, Pose>, interchain: Option<seq<Interchain>>)
    ensures var (columns, out) := InterfaceEffect(scores, relaxed, interchain);
      && (interchain.Some? ==> columns == interchain && out == Returned)
      && (out.Raised? ==> columns == interchain)
      && (interchain.None? ==>
            (out.Returned? <==> |relaxed| != 0 && 1 in relaxed && relaxed[1].chains > 1
                                && forall k :: 0 <= k < |scores| ==> scores[k].entry.rank in relaxed))
      && (interchain.None? && out.Returned? ==>
            && columns.Some? && |columns.value| == |scores|
            && forall k :: 0 <= k < |scores| ==>
                 var pose := relaxed[scores[k].entry.rank];
                 columns.value[k] == Interchain(Contacts(pose, 1, 3.0), Contacts(pose, 2, 3.0)))
      && (out.Returned? ==> InterfaceEffect(scores, relaxed, columns) == (columns, Returned))
  {
  }

  /** Without a `dG` column, `calculate_interface` adds no interface columns
      but, when the interface residues can be found, still adds the
      interchain columns: the catalog is not left unchanged. */
  lemma CalculateWithoutEnergies(scores: seq<Scored>, relaxed: map<nat, Pose>, analysis: Option<seq<InterfaceRow>>, descriptor: string)
    requires |relaxed| != 0 && 1 in relaxed && relaxed[1].chains > 1
    requires forall k :: 0 <= k < |scores| ==> scores[k].entry.rank in relaxed
    ensures var (columns, rows, out) := CalculateEffect(scores, relaxed, None, None, analysis, descriptor);
      && out == Returned && rows == analysis
      && columns.Some? && columns == InterfaceEffect(scores, relaxed, None).0
  {
  }

  /** With a `dG` column, a finished `calculate_interface` gives every row
      the median pLDDT over its two interchain residue sets and the
      interface analysis of its relaxed pose. */
  lemma CalculateSpec(scores: seq<Scored>, relaxed: map<nat, Pose>, interchain: Option<seq<Interchain>>,
                      dG: Option<seq<Measure>>, analysis: Option<seq<InterfaceRow>>, descriptor: string)
    requires interchain.Some? ==> |interchain.value| == |scores|
    ensures var (columns, rows, out) := CalculateEffect(scores, relaxed, interchain, dG, analysis, descriptor);
      && columns == InterfaceEffect(scores, relaxed, interchain).0
      && (out.Raised? || dG.None? ==> rows == analysis)
      && (out.Returned? ==>
            && columns.Some? && |columns.value| == |scores|
            && forall k :: 0 <= k < |scores| ==> scores[k].entry.rank in relaxed)
      && (out.Returned? && dG.Some? ==>
            && rows.Some? && |rows.value| == |scores|
            && forall k :: 0 <= k < |scores| ==>
                 var pose := relaxed[scores[k].entry.rank];
                 rows.value[k] == InterfaceRow(MedianPLDDT(pose, columns.value[k].first, columns.value[k].second),
                                               InterfaceAnalysis(pose, descriptor)))
  {
  }

  // ---------------------------------------------------- make_phosphorylated

  /** The phospho loop: an entry is either untouched or the patched and
      refined copy of the relaxed pose of its rank, whatever the phospho
      group held before. */
  lemma {:induction false} PhosphoFromSpec(phospho: map<nat, Pose>, items: seq<Item>, ptms: Grouped, cycles: int, relaxed: map<nat, Pose>)
    requires forall k :: 0 <= k < |items| ==> items[k].rank in relaxed && items[k].pose == relaxed[items[k].rank]
    ensures var (result, out) := PhosphoFrom(phospho, items, ptms, cycles);
      && (forall r :: r in phospho ==> r in result)
      && (forall r :: r in result ==>
            (r in phospho && result[r] == phospho[r])
            || (r in relaxed && result[r] == PhosphoEffect(relaxed[r], FullAtom(1), cycles, ptms).pose))
      && (out.Raised? ==> out.exception == ResidueError)
      && (out.Returned? ==> forall k :: 0 <= k < |items| ==>
            items[k].rank in result && result[items[k].rank] == PhosphoEffect(relaxed[items[k].rank], FullAtom(1), cycles, ptms).pose)
    decreases |items|
  {
    if items != [] {
      var first := items[0];
      var done := PhosphoEffect(first.pose, FullAtom(1), cycles, ptms);
      PtmFacts.PhosphoSpec(first.pose, FullAtom(1), cycles, ptms);
      var next := phospho[first.rank := done.pose];
      if done.outcome.Returned? {
        PhosphoFromSpec(next, items[1..], ptms, cycles, relaxed);
        var (result, out) := PhosphoFrom(next, items[1..], ptms, cycles);
        if out.Returned? {
          forall k | 0 <= k < |items|
            ensures items[k].rank in result && result[items[k].rank] == PhosphoEffect(relaxed[items[k].rank], FullAtom(1), cycles, ptms).pose
          {
            if k > 0 {
              assert items[k] == items[1..][k - 1];
            }
          }
        }
      }
    }
  }

  /** `make_phosphorylated` raises `KeyError` without touching anything when
      rank 1 has no original pose (its numbering converts the PDB numbers),
      and `AssertionError` when the relaxed group is empty. Otherwise it
      walks the relaxed group and, for each rank, replaces the phospho
      entry with a fresh clone of the relaxed pose, patched and refined;
      the relaxed group is not assigned (the method's frame). When it
      finishes, every rank of `errors` has that fresh phospho pose. */
  lemma MakePhosphoSpec(original: map<nat, Pose>, relaxed: map<nat, Pose>, phospho: map<nat, Pose>, errors: seq<Pae>,
                        pdbPtms: Grouped, chain: string, cycles: int)
    ensures var (result, out) := MakePhosphoEffect(original, relaxed, phospho, errors, pdbPtms, chain, cycles);
      && (1 !in original ==> result == phospho && out == Raised(KeyError))
      && (1 in original && |relaxed| == 0 ==> result == phospho && out == Raised(AssertionError))
      && (1 in original ==>
            var ptms := Convert(original[1], chain, pdbPtms);
            && (forall r :: r in phospho ==> r in result)
            && (forall r :: r in result ==>
                  (r in phospho && result[r] == phospho[r])
                  || (r in relaxed && result[r] == PhosphoEffect(relaxed[r], FullAtom(1), cycles, ptms).pose))
            && (out.Returned? ==> forall k :: 0 <= k < |errors| ==>
                  errors[k].rank in relaxed && errors[k].rank in result
                  && result[errors[k].rank] == PhosphoEffect(relaxed[errors[k].rank], FullAtom(1), cycles, ptms).pose))
  {
    if 1 in original && |relaxed| != 0 {
      var ptms := Convert(original[1], chain, pdbPtms);
      var g := Walk(relaxed, errors);
      PhosphoFromSpec(phospho, g.items, ptms, cycles, relaxed);
      var (result, out) := PhosphoFrom(phospho, g.items, ptms, cycles);
      if out.Returned? && g.end.Returned? {
        forall k | 0 <= k < |errors|
          ensures errors[k].rank == g.items[k].rank
        {
        }
      }
    }
  }
}
