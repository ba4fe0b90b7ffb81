/** The pose registry of `AF2NotebookAnalyser` in
    pyrosetta_help/alphafold/multimodel.py: three rank-keyed groups of poses
    (original, relaxed, phospho), the error matrices keyed by rank, the
    catalog with the columns the pipeline appends to it, and the steps that
    refine, constrain, analyse and phosphorylate the poses group by group.
    Every pose a group receives from another is a clone, so groups hold
    poses by value. */
module Registry {
  import opened Common
  import opened Catalog
  import opened Poses
  import opened Ptm

  /** The names in `pose_groupnames`. */
  datatype Group = Relaxed | Original | Phospho

  /** One entry of the `errors` dictionary. */
  datatype Pae = Pae(rank: nat, matrix: Matrix)

  /** One triple yielded by `_generator_poses`. */
  datatype Item = Item(rank: nat, pose: Pose, pae: Matrix)

  /** A generator run to its end: what it yielded, and whether it stopped
      by raising. */
  datatype Generated = Generated(items: seq<Item>, end: Outcome)

  /** The columns `interchain_residues_1` and `interchain_residues_2` of one
      row (the `N_interchain_residues_*` columns are their lengths). */
  datatype Interchain = Interchain(first: Measure, second: Measure)

  /** The seven columns `calculate_interface` adds to one row. */
  datatype InterfaceRow = InterfaceRow(medianPLDDT: Measure, analysis: Measure)

  function ErrorRanks(errors: seq<Pae>): seq<nat> {
    seq(|errors|, k requires 0 <= k < |errors| => errors[k].rank)
  }

  function ScoreRanks(scores: seq<Scored>): seq<nat> {
    seq(|scores|, k requires 0 <= k < |scores| => scores[k].entry.rank)
  }

  /** Iterating the generator expression of `_generator_poses`: one item per
      key of `errors`, in key order, up to the first rank the group lacks,
      where the lookup raises. */
  function Walk(group: map<nat, Pose>, errors: seq<Pae>): (g: Generated)
    ensures |g.items| <= |errors|
    ensures forall k :: 0 <= k < |g.items| ==>
      errors[k].rank in group && g.items[k] == Item(errors[k].rank, group[errors[k].rank], errors[k].matrix)
    ensures g.end.Returned? <==> |g.items| == |errors|
    ensures g.end.Raised? ==> g.end.exception == KeyError && errors[|g.items|].rank !in group
  {
    if errors == [] then Generated([], Returned)
    else if errors[0].rank !in group then Generated([], Raised(KeyError))
    else
      var rest := Walk(group, errors[1..]);
      Generated([Item(errors[0].rank, group[errors[0].rank], errors[0].matrix)] + rest.items, rest.end)
  }

  /** `_generator_poses`: the assertion runs when it is called, before
      anything is yielded. */
  function GeneratorPoses(group: map<nat, Pose>, errors: seq<Pae>): Result<Generated> {
    if |group| == 0 then Raise(AssertionError) else Ok(Walk(group, errors))
  }

  /** What a loop over `_generator_poses` sees: the items, and how it ends. */
  function Run(generated: Result<Generated>): (seq<Item>, Outcome) {
    match generated
    case Raise(e) => ([], Raised(e))
    case Ok(g) => (g.items, g.end)
  }

  /** `sidechain_relax`'s refinement: side chains only, no constraints. */
  function SidechainStep(cycles: int): Physics {
    FastRelax(FullAtom(0), cycles, MoveMap(Nothing, Everything, false))
  }

  /** `relax`'s refinement: everything moves, constraints weigh 1. */
  function FullRelaxStep(cycles: int): Physics {
    FastRelax(FullAtom(1), cycles, MoveMap(Everything, Everything, true))
  }

  /** The loop shared by `sidechain_relax` and `relax`: for each item, clone
      the original pose into the relaxed group if the rank is absent there,
      then refine the relaxed pose. */
  function CloneRefine(relaxed: map<nat, Pose>, items: seq<Item>, step: Physics): map<nat, Pose> {
    if items == [] then relaxed
    else
      var n := |items| - 1;
      var sofar := CloneRefine(relaxed, items[..n], step);
      var start := if items[n].rank in sofar then sofar[items[n].rank] else items[n].pose;
      sofar[items[n].rank := Refined(start, step)]
  }

  lemma CloneRefineNext(relaxed: map<nat, Pose>, items: seq<Item>, k: nat, step: Physics)
    requires k < |items|
    ensures var sofar := CloneRefine(relaxed, items[..k], step);
      CloneRefine(relaxed, items[..k + 1], step)
        == sofar[items[k].rank := Refined(if items[k].rank in sofar then sofar[items[k].rank] else items[k].pose, step)]
  {
    assert items[..k + 1][..k] == items[..k];
  }

  /** The relaxed group after the loop, and how the loop ended. */
  function RefineEffect(original: map<nat, Pose>, relaxed: map<nat, Pose>, errors: seq<Pae>, step: Physics): (map<nat, Pose>, Outcome) {
    var (items, end) := Run(GeneratorPoses(original, errors));
    (CloneRefine(relaxed, items, step), end)
  }

  /** The generator loop of `sidechain_relax` and `relax` over the original
      group: clone a rank into the relaxed group if it is absent, then
      refine the relaxed pose. */
  method RefineGroup(original: map<nat, Pose>, relaxed: map<nat, Pose>, errors: seq<Pae>, step: Physics)
    returns (result: map<nat, Pose>, out: Outcome)
    ensures (result, out) == RefineEffect(original, relaxed, errors, step)
  {
    result := relaxed;
    var generated := GeneratorPoses(original, errors);
    if generated.Raise? {
      return result, Raised(generated.exception);
    }
    var items := generated.value.items;
    var k := 0;
    while k < |items|
      invariant k <= |items|
      invariant result == CloneRefine(relaxed, items[..k], step)
    {
      var item := items[k];
      CloneRefineNext(relaxed, items, k, step);
      var start := if item.rank in result then result[item.rank] else item.pose;
      result := result[item.rank := Refined(start, step)];
      k := k + 1;
    }
    assert items[..k] == items;
    return result, generated.value.end;
  }

  /** The `dG` column: each row's relaxed pose scored without constraints;
      a row whose rank has no relaxed pose raises. */
  function DGColumn(scores: seq<Scored>, relaxed: map<nat, Pose>): Result<seq<Measure>> {
    if forall k :: 0 <= k < |scores| ==> scores[k].entry.rank in relaxed
    then Ok(seq(|scores|, k requires 0 <= k < |scores| => Energy(relaxed[scores[k].entry.rank], FullAtom(0))))
    else Raise(KeyError)
  }

  /** `relax`: the refinement loop, then the `dG` column. */
  function RelaxEffect(original: map<nat, Pose>, relaxed: map<nat, Pose>, errors: seq<Pae>, scores: seq<Scored>,
                       dG: Option<seq<Measure>>, cycles: int): (map<nat, Pose>, Option<seq<Measure>>, Outcome)
  {
    var (refined, end) := RefineEffect(original, relaxed, errors, FullRelaxStep(cycles));
    if end.Raised? then (refined, dG, end)
    else
      match DGColumn(scores, refined)
      case Raise(e) => (refined, dG, Raised(e))
      case Ok(column) => (refined, Some(column), Returned)
  }

  /** The two constraint sets `constrain` adds to one pose. */
  function Constrained(pose: Pose, pae: Matrix, options: seq<(string, real)>): Pose {
    Refined(Refined(pose, PaeConstraints(pae, options)), InterchainPaeConstraints(pae, 15))
  }

  /** The loop of `constrain` over the group's items. */
  function ConstrainAll(group: map<nat, Pose>, items: seq<Item>, options: seq<(string, real)>): map<nat, Pose> {
    if items == [] then group
    else
      var n := |items| - 1;
      ConstrainAll(group, items[..n], options)[items[n].rank := Constrained(items[n].pose, items[n].pae, options)]
  }

  /** `constrain`: the chosen group afterwards, and how it ended. */
  function ConstrainEffect(original: map<nat, Pose>, group: map<nat, Pose>, errors: seq<Pae>,
                           options: seq<(string, real)>): (map<nat, Pose>, Outcome)
  {
    if |original| == 0 then (group, Raised(ValueError))
    else
      var (items, end) := Run(GeneratorPoses(group, errors));
      (ConstrainAll(group, items, options), end)
  }

  /** The generator loop of `constrain` on one group: the constraints go
      onto the poses of the group itself. */
  method ConstrainGroup(source: map<nat, Pose>, errors: seq<Pae>, options: seq<(string, real)>)
    returns (group: map<nat, Pose>, out: Outcome)
    ensures var (items, end) := Run(GeneratorPoses(source, errors));
      group == ConstrainAll(source, items, options) && out == end
  {
    group := source;
    var generated := GeneratorPoses(source, errors);
    if generated.Raise? {
      return group, Raised(generated.exception);
    }
    var items := generated.value.items;
    var k := 0;
    while k < |items|
      invariant k <= |items|
      invariant group == ConstrainAll(source, items[..k], options)
    {
      var item := items[k];
      assert items[..k + 1][..k] == items[..k];
      group := group[item.rank := Constrained(item.pose, item.pae, options)];
      k := k + 1;
    }
    assert items[..k] == items;
    return group, generated.value.end;
  }

  /** The interchain columns: the residues of chains 1 and 2 within 3 of
      another chain, in each row's relaxed pose. */
  function InterchainColumns(scores: seq<Scored>, relaxed: map<nat, Pose>): Result<seq<Interchain>> {
    if forall k :: 0 <= k < |scores| ==> scores[k].entry.rank in relaxed
    then Ok(seq(|scores|, k requires 0 <= k < |scores| =>
      var pose := relaxed[scores[k].entry.rank];
      Interchain(Contacts(pose, 1, 3.0), Contacts(pose, 2, 3.0))))
    else Raise(KeyError)
  }

  /** `find_interface_residues`: the interchain columns afterwards, and how
      it ended. It does nothing once the columns exist. */
  function InterfaceEffect(scores: seq<Scored>, relaxed: map<nat, Pose>, interchain: Option<seq<Interchain>>)
    : (Option<seq<Interchain>>, Outcome)
  {
    if interchain.Some? then (interchain, Returned)
    else if |relaxed| == 0 then (interchain, Raised(AssertionError))
    else if 1 !in relaxed then (interchain, Raised(KeyError))
    else if relaxed[1].chains <= 1 then (interchain, Raised(AssertionError))
    else
      match InterchainColumns(scores, relaxed)
      case Raise(e) => (interchain, Raised(e))
      case Ok(columns) => (Some(columns), Returned)
  }

  /** The medians of `get_median_interface_bfactors`, row by row. */
  function MedianColumn(scores: seq<Scored>, relaxed: map<nat, Pose>, interchain: seq<Interchain>): Result<seq<Measure>>
    requires |interchain| == |scores|
  {
    if forall k :: 0 <= k < |scores| ==> scores[k].entry.rank in relaxed
    then Ok(seq(|scores|, k requires 0 <= k < |scores| =>
      MedianPLDDT(relaxed[scores[k].entry.rank], interchain[k].first, interchain[k].second)))
    else Raise(KeyError)
  }

  /** The rows `calculate_interface` adds, given the medians. */
  function InterfaceRows(scores: seq<Scored>, relaxed: map<nat, Pose>, medians: seq<Measure>, descriptor: string): seq<InterfaceRow>
    requires |medians| == |scores|
    requires forall k :: 0 <= k < |scores| ==> scores[k].entry.rank in relaxed
  {
    seq(|scores|, k requires 0 <= k < |scores| =>
      InterfaceRow(medians[k], InterfaceAnalysis(relaxed[scores[k].entry.rank], descriptor)))
  }

  /** `calculate_interface`: the interchain columns, the interface columns
      and how it ended. The medians, and with them the interchain columns,
      are computed before the check for `dG`. */
  function CalculateEffect(scores: seq<Scored>, relaxed: map<nat, Pose>, interchain: Option<seq<Interchain>>,
                           dG: Option<seq<Measure>>, analysis: Option<seq<InterfaceRow>>, descriptor: string)
    : (Option<seq<Interchain>>, Option<seq<InterfaceRow>>, Outcome)
    requires interchain.Some? ==> |interchain.value| == |scores|
  {
    var (columns, found) := InterfaceEffect(scores, relaxed, interchain);
    if found.Raised? then (columns, analysis, found)
    else
      assert columns.Some? && |columns.value| == |scores|;
      match MedianColumn(scores, relaxed, columns.value)
      case Raise(e) => (columns, analysis, Raised(e))
      case Ok(medians) =>
        if dG.None? then (columns, analysis, Returned)
        else (columns, Some(InterfaceRows(scores, relaxed, medians, descriptor)), Returned)
  }

  /** `make_phosphorylated`'s conversion of PDB numbers to pose numbers. */
  function Convert(pose: Pose, chain: string, pdbPtms: Grouped): Grouped {
    seq(|pdbPtms|, k requires 0 <= k < |pdbPtms| =>
      (pdbPtms[k].0, seq(|pdbPtms[k].1|, j requires 0 <= j < |pdbPtms[k].1| => PdbToPose(pose, chain, pdbPtms[k].1[j]))))
  }

  /** The loop of `make_phosphorylated` from `phospho`: each item's relaxed
      pose is cloned into the phospho group and patched there; it stops at
      the first exception, keeping the half-patched pose. */
  function PhosphoFrom(phospho: map<nat, Pose>, items: seq<Item>, ptms: Grouped, cycles: int): (map<nat, Pose>, Outcome)
    decreases |items|
  {
    if items == [] then (phospho, Returned)
    else
      var done := PhosphoEffect(items[0].pose, FullAtom(1), cycles, ptms);
      var next := phospho[items[0].rank := done.pose];
      if done.outcome.Raised? then (next, done.outcome)
      else PhosphoFrom(next, items[1..], ptms, cycles)
  }

  /** `make_phosphorylated`: the phospho group afterwards, and how it ended. */
  function MakePhosphoEffect(original: map<nat, Pose>, relaxed: map<nat, Pose>, phospho: map<nat, Pose>, errors: seq<Pae>,
                             pdbPtms: Grouped, chain: string, cycles: int): (map<nat, Pose>, Outcome)
  {
    if 1 !in original then (phospho, Raised(KeyError))
    else
      var ptms := Convert(original[1], chain, pdbPtms);
      var (items, end) := Run(GeneratorPoses(relaxed, errors));
      var (result, outcome) := PhosphoFrom(phospho, items, ptms, cycles);
      (result, if outcome.Raised? then outcome else end)
  }

  /** The body of `make_phosphorylated` on the three groups: each relaxed
      pose is cloned into the phospho group, then patched there. */
  method PhosphorylateGroup(original: map<nat, Pose>, relaxed: map<nat, Pose>, phospho: map<nat, Pose>, errors: seq<Pae>,
                            pdbPtms: Grouped, chain: string, cycles: int)
    returns (result: map<nat, Pose>, out: Outcome)
    ensures (result, out) == MakePhosphoEffect(original, relaxed, phospho, errors, pdbPtms, chain, cycles)
  {
    result := phospho;
    if 1 !in original {
      return result, Raised(KeyError);
    }
    var ptms := Convert(original[1], chain, pdbPtms);
    var generated := GeneratorPoses(relaxed, errors);
    if generated.Raise? {
      return result, Raised(generated.exception);
    }
    var items := generated.value.items;
    var k := 0;
    while k < |items|
      invariant k <= |items|
      invariant PhosphoFrom(result, items[k..], ptms, cycles) == PhosphoFrom(phospho, items, ptms, cycles)
    {
      assert items[k..][0] == items[k] && items[k..][1..] == items[k + 1..];
      var item := items[k];
      ghost var before := result;
      result := result[item.rank := item.pose];
      var pose, valids, patched := PhosphoPose(item.pose, FullAtom(1), cycles, ptms);
      result := result[item.rank := pose];
      assert result == before[item.rank := pose];
      if patched.Raised? {
        return result, patched;
      }
      k := k + 1;
    }
    assert items[k..] == [];
    return result, generated.value.end;
  }

  /** `get_poses`: each row's pose, read from its path, under its rank. */
  function PosesByRank(scores: seq<Scored>, poses: seq<Pose>): map<nat, Pose>
    requires |poses| == |scores|
  {
    if scores == [] then map[]
    else
      var n := |scores| - 1;
      PosesByRank(scores[..n], poses[..n])[scores[n].entry.rank := poses[n]]
  }

  class Analyser {
    var scores: seq<Scored>
    var original: map<nat, Pose>
    var relaxed: map<nat, Pose>
    var phospho: map<nat, Pose>
    var errors: seq<Pae>
    var dG: Option<seq<Measure>>
    var interchain: Option<seq<Interchain>>
    var analysis: Option<seq<InterfaceRow>>

    /** The catalog has rows (reading the rank column of an empty catalog
        raises during construction), `errors` is a dictionary, and every
        column has one entry per row. */
    ghost predicate Valid()
      reads this
    {
      scores != [] && Distinct(ErrorRanks(errors))
      && (dG.Some? ==> |dG.value| == |scores|)
      && (interchain.Some? ==> |interchain.value| == |scores|)
      && (analysis.Some? ==> |analysis.value| == |scores|)
    }

    /** `__init__` once the catalog is built: `poses[k]` and `matrices[k]`
        are what the files of row `k` hold. */
    constructor (scores: seq<Scored>, loadPoses: bool, poses: seq<Pose>, matrices: seq<Matrix>)
      requires scores != [] && Distinct(ScoreRanks(scores))
      requires |poses| == |scores| && |matrices| == |scores|
      ensures Valid()
      ensures this.scores == scores
      ensures original == (if loadPoses then PosesByRank(scores, poses) else map[])
      ensures relaxed == map[] && phospho == map[]
      ensures errors == seq(|scores|, k requires 0 <= k < |scores| => Pae(scores[k].entry.rank, matrices[k]))
      ensures dG.None? && interchain.None? && analysis.None?
    {
      this.scores := scores;
      original := if loadPoses then PosesByRank(scores, poses) else map[];
      relaxed := map[];
      phospho := map[];
      errors := seq(|scores|, k requires 0 <= k < |scores| => Pae(scores[k].entry.rank, matrices[k]));
      dG := None;
      interchain := None;
      analysis := None;
      new;
      assert ErrorRanks(errors) == ScoreRanks(scores);
    }

    /** The `poses` property, one group at a time. */
    function Poses(g: Group): map<nat, Pose>
      reads this
    {
      match g
      case Relaxed => relaxed
      case Original => original
      case Phospho => phospho
    }

    /** `_generator_poses(g)`. */
    function Generate(g: Group): Result<Generated>
      reads this
    {
      GeneratorPoses(Poses(g), errors)
    }

    method SetGroup(g: Group, poses: map<nat, Pose>)
      modifies this`original, this`relaxed, this`phospho
      ensures Poses(g) == poses
      ensures forall h :: h != g ==> Poses(h) == old(Poses(h))
    {
      match g
      case Relaxed => relaxed := poses;
      case Original => original := poses;
      case Phospho => phospho := poses;
    }

    /** The loop of `sidechain_relax` and `relax`. */
    method RefineFromOriginal(step: Physics) returns (out: Outcome)
      modifies this`relaxed
      ensures (relaxed, out) == RefineEffect(original, old(relaxed), errors, step)
    {
      relaxed, out := RefineGroup(original, relaxed, errors, step);
    }

    /** `sidechain_relax(cycles)`. */
    method SidechainRelax(cycles: int) returns (out: Outcome)
      requires Valid()
      modifies this`relaxed
      ensures Valid()
      ensures (relaxed, out) == RefineEffect(original, old(relaxed), errors, SidechainStep(cycles))
    {
      out := RefineFromOriginal(SidechainStep(cycles));
    }

    /** `relax(cycles)`; its check for `original_poses is None` never holds. */
    method Relax(cycles: int) returns (out: Outcome)
      requires Valid()
      modifies this`relaxed, this`dG
      ensures Valid()
      ensures (relaxed, dG, out) == RelaxEffect(original, old(relaxed), errors, scores, old(dG), cycles)
    {
      out := RefineFromOriginal(FullRelaxStep(cycles));
      if out.Raised? {
        return;
      }
      match DGColumn(scores, relaxed)
      case Raise(e) =>
        out := Raised(e);
      case Ok(column) =>
        dG := Some(column);
    }

    /** `constrain(groupname, **options)`: the constraints go onto the
        poses of the group itself. */
    method Constrain(g: Group, options: seq<(string, real)>) returns (out: Outcome)
      requires Valid()
      modifies this`original, this`relaxed, this`phospho
      ensures Valid()
      ensures (Poses(g), out) == ConstrainEffect(old(original), old(Poses(g)), errors, options)
      ensures forall h :: h != g ==> Poses(h) == old(Poses(h))
    {
      if |original| == 0 {
        return Raised(ValueError);
      }
      var group;
      group, out := ConstrainGroup(Poses(g), errors, options);
      SetGroup(g, group);
    }

    /** `find_interface_residues()`. */
    method FindInterfaceResidues() returns (out: Outcome)
      requires Valid()
      modifies this`interchain
      ensures Valid()
      ensures (interchain, out) == InterfaceEffect(scores, relaxed, old(interchain))
    {
      if interchain.Some? {
        return Returned;
      }
      if |relaxed| == 0 {
        return Raised(AssertionError);
      }
      if 1 !in relaxed {
        return Raised(KeyError);
      }
      if relaxed[1].chains <= 1 {
        return Raised(AssertionError);
      }
      match InterchainColumns(scores, relaxed)
      case Raise(e) =>
        out := Raised(e);
      case Ok(columns) =>
        interchain := Some(columns);
        out := Returned;
    }

    /** `get_median_interface_bfactors()`: the medians in row order. */
    method MedianInterfaceBfactors() returns (medians: Result<seq<Measure>>)
      requires Valid()
      modifies this`interchain
      ensures Valid()
      ensures var (columns, found) := InterfaceEffect(scores, relaxed, old(interchain));
        && interchain == columns
        && medians == if found.Raised? then Raise(found.exception) else MedianColumn(scores, relaxed, columns.value)
    {
      var found := FindInterfaceResidues();
      if found.Raised? {
        return Raise(found.exception);
      }
      var rows, poses, columns := scores, relaxed, interchain.value;
      var column := [];
      var k := 0;
      while k < |rows|
        invariant k <= |rows|
        invariant forall j :: 0 <= j < k ==> rows[j].entry.rank in poses
        invariant column == seq(k, j requires 0 <= j < k =>
          MedianPLDDT(poses[rows[j].entry.rank], columns[j].first, columns[j].second))
      {
        var rank := rows[k].entry.rank;
        if rank !in poses {
          return Raise(KeyError);
        }
        column := column + [MedianPLDDT(poses[rank], columns[k].first, columns[k].second)];
        k := k + 1;
      }
      return Ok(column);
    }

    /** `calculate_interface(interface)`. */
    method CalculateInterface(descriptor: string) returns (out: Outcome)
      requires Valid()
      modifies this`interchain, this`analysis
      ensures Valid()
      ensures (interchain, analysis, out) == CalculateEffect(scores, relaxed, old(interchain), dG, old(analysis), descriptor)
    {
      var medians := MedianInterfaceBfactors();
      if medians.Raise? {
        return Raised(medians.exception);
      }
      if dG.None? {
        return Returned;
      }
      var catalog, poses := scores, relaxed;
      var newdata := [];
      var k := 0;
      while k < |catalog|
        invariant k <= |catalog|
        invariant newdata == seq(k, j requires 0 <= j < k =>
          InterfaceRow(medians.value[j], InterfaceAnalysis(poses[catalog[j].entry.rank], descriptor)))
      {
        newdata := newdata + [InterfaceRow(medians.value[k], InterfaceAnalysis(poses[catalog[k].entry.rank], descriptor))];
        k := k + 1;
      }
      analysis := Some(newdata);
      return Returned;
    }

    /** `make_phosphorylated(pdb_ptms, chain, cycles)`. */
    method MakePhosphorylated(pdbPtms: Grouped, chain: string, cycles: int) returns (out: Outcome)
      requires Valid()
      modifies this`phospho
      ensures Valid()
      ensures (phospho, out) == MakePhosphoEffect(original, relaxed, old(phospho), errors, pdbPtms, chain, cycles)
    {
      phospho, out := PhosphorylateGroup(original, relaxed, phospho, errors, pdbPtms, chain, cycles);
    }
  }
}
