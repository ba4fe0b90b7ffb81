/** Post-translational modifications in pyrosetta_help/alphafold/multimodel.py:
    reading a copied PhosphoSitePlus table (`parse_phosphosite`), patching
    residues of a pose (`_apply_patch`), and patching then refining a pose
    for every kind of modification (`_phospho_pose`). */
module Ptm {
  import opened Common
  import opened Text
  import opened Poses

  /** One match of `(\w)(\d+)\-(\w+)`: residue letter, residue number and
      modification token (`S45-p` is `Site('S', 45, "p")`). */
  datatype Site = Site(letter: char, resi: nat, mod: string)

  /** Residue numbers grouped by modification token, in the key order of
      the dictionary that holds them. */
  type Grouped = seq<(string, seq<int>)>

  /** The window test of `parse_phosphosite`: a `maximum` below 1 becomes
      NaN, and no number compares greater than NaN. */
  predicate InWindow(resi: int, minimum: int, maximum: int) {
    minimum <= resi && (maximum < 1 || resi <= maximum)
  }

  function Keys(g: Grouped): seq<string> {
    seq(|g|, k requires 0 <= k < |g| => g[k].0)
  }

  /** The position of `mod` among the keys, if it is one. */
  function KeyPosition(g: Grouped, mod: string): (r: Option<nat>)
    ensures r.Some? ==> r.value < |g| && g[r.value].0 == mod
    ensures r.None? ==> forall k :: 0 <= k < |g| ==> g[k].0 != mod
  {
    if g == [] then None
    else if g[0].0 == mod then Some(0)
    else
      match KeyPosition(g[1..], mod)
      case None => None
      case Some(k) => Some(k + 1)
  }

  /** `ptms[mod].append(resi)` on a `defaultdict(list)`. */
  function Append(g: Grouped, mod: string, resi: int): Grouped {
    match KeyPosition(g, mod)
    case None => g + [(mod, [resi])]
    case Some(k) => g[k := (mod, g[k].1 + [resi])]
  }

  /** The dictionary after the loop over `sites`. */
  function Group(sites: seq<Site>, minimum: int, maximum: int): Grouped {
    if sites == [] then []
    else
      var n := |sites| - 1;
      var g := Group(sites[..n], minimum, maximum);
      if InWindow(sites[n].resi, minimum, maximum) then Append(g, sites[n].mod, sites[n].resi) else g
  }

  /** `parse_phosphosite(raw, minimum, maximum)`, where `sites` are the
      matches of the pattern in `raw`. */
  function ParsePhosphosite(raw: string, sites: seq<Site>, minimum: int, maximum: int): (r: Result<Grouped>)
    ensures r.Raise? <==> !Contains(raw, "-p")
    ensures r.Raise? ==> r.exception == AssertionError
  {
    if !Contains(raw, "-p") then Raise(AssertionError) else Ok(Group(sites, minimum, maximum))
  }

  /** A patch and the residue type it is restricted to, if any. */
  datatype Patch = Patch(name: string, restriction: Option<string>)

  /** The patch `_phospho_pose` applies for a kind of modification; `ub`
      and every unknown kind have none. */
  function PatchFor(kind: string): (r: Option<Patch>)
    ensures r.Some? <==> kind in ["p", "ac", "m1", "m2", "m3"]
    ensures r.Some? ==> (r.value.restriction.Some? <==> kind in ["m1", "m2", "m3"])
    ensures r.Some? && r.value.restriction.Some? ==> r.value.restriction.value == "LYS"
  {
    if kind == "p" then Some(Patch("phosphorylated", None))
    else if kind == "ac" then Some(Patch("acetylated", None))
    else if kind == "m1" then Some(Patch("monomethylated", Some("LYS")))
    else if kind == "m2" then Some(Patch("dimethylated", Some("LYS")))
    else if kind == "m3" then Some(Patch("trimethylated", Some("LYS")))
    else None
  }

  /** The pose being patched, the residues patched so far and whether the
      structure engine has raised. */
  datatype Patching = Patching(pose: Pose, valids: seq<int>, outcome: Outcome)

  /** The residue type a patch turns a residue into. */
  function PatchedType(residue: Residue, patch: string): string {
    Upper(residue.name3) + ":" + patch
  }

  /** Whether `_apply_patch` patches residue `r` of `pose`. */
  predicate Selected(pose: Pose, restriction: Option<string>, r: int) {
    r != 0 && r in pose.residues
    && (restriction.None? || Upper(pose.residues[r].name3) == Upper(restriction.value))
  }

  /** One turn of the loop of `_apply_patch`: residue 0 stands for a
      missing residue and is skipped; `pose.residue(r)` raises for a
      residue the pose does not have. */
  function PatchStep(state: Patching, patch: Patch, r: int): Patching {
    if r == 0 then state
    else if r !in state.pose.residues then state.(outcome := Raised(ResidueError))
    else if !Selected(state.pose, patch.restriction, r) then state
    else
      var residue := state.pose.residues[r];
      var pose := state.pose.(residues := state.pose.residues[r := Residue(residue.name3, PatchedType(residue, patch.name))]);
      Patching(pose, state.valids + [r], state.outcome)
  }

  /** The loop of `_apply_patch` over `residues`, from `state`; it stops
      at the first exception. */
  function PatchFrom(state: Patching, patch: Patch, residues: seq<int>): Patching
    decreases |residues|
  {
    if residues == [] || state.outcome.Raised? then state
    else PatchFrom(PatchStep(state, patch, residues[0]), patch, residues[1..])
  }

  /** `_apply_patch(pose, patch, residues, restriction)` on a pose. */
  method ApplyPatch(pose: Pose, patch: Patch, residues: seq<int>) returns (result: Pose, valids: seq<int>, outcome: Outcome)
    ensures Patching(result, valids, outcome) == PatchFrom(Patching(pose, [], Returned), patch, residues)
  {
    result, valids, outcome := pose, [], Returned;
    var k := 0;
    while k < |residues|
      invariant 0 <= k <= |residues|
      invariant PatchFrom(Patching(result, valids, Returned), patch, residues[k..]) == PatchFrom(Patching(pose, [], Returned), patch, residues)
    {
      assert residues[k..][1..] == residues[k + 1..];
      var r := residues[k];
      k := k + 1;
      if r == 0 {
        continue;
      }
      if r !in result.residues {
        outcome := Raised(ResidueError);
        return;
      }
      var present := result.residues[r];
      if patch.restriction.Some? && Upper(present.name3) != Upper(patch.restriction.value) {
        continue;
      }
      result := result.(residues := result.residues[r := Residue(present.name3, PatchedType(present, patch.name))]);
      valids := valids + [r];
    }
  }

  /** The move map `_phospho_pose` refines with: backbone and side chains
      within 7 of a patched residue, patched residues included. */
  function NeighbourhoodMoves(valids: seq<int>): MoveMap {
    MoveMap(Around(valids, 7, true), Around(valids, 7, true), false)
  }

  /** One turn of the loop of `_phospho_pose` over the modifications. */
  function KindStep(state: Patching, kind: string, residues: seq<int>): Patching {
    match PatchFor(kind)
    case None => state
    case Some(patch) =>
      var done := PatchFrom(Patching(state.pose, [], Returned), patch, residues);
      Patching(done.pose, state.valids + done.valids, done.outcome)
  }

  /** The loop of `_phospho_pose` from `state`; it stops at the first
      exception. */
  function KindsFrom(state: Patching, modifications: Grouped): Patching
    decreases |modifications|
  {
    if modifications == [] || state.outcome.Raised? then state
    else KindsFrom(KindStep(state, modifications[0].0, modifications[0].1), modifications[1..])
  }

  /** `_phospho_pose(pose, scorefxn, cycles, **modifications)` on a pose:
      the patches, then one refinement around the patched residues unless
      none was patched. */
  function PhosphoEffect(pose: Pose, scorefxn: ScoreFunction, cycles: int, modifications: Grouped): Patching {
    var patched := KindsFrom(Patching(pose, [], Returned), modifications);
    if patched.outcome.Raised? || patched.valids == [] then patched
    else patched.(pose := Refined(patched.pose, FastRelax(scorefxn, cycles, NeighbourhoodMoves(patched.valids))))
  }

  /** `_phospho_pose`. */
  method PhosphoPose(pose: Pose, scorefxn: ScoreFunction, cycles: int, modifications: Grouped)
    returns (result: Pose, valids: seq<int>, outcome: Outcome)
    ensures Patching(result, valids, outcome) == PhosphoEffect(pose, scorefxn, cycles, modifications)
  {
    result, valids, outcome := pose, [], Returned;
    var k := 0;
    while k < |modifications|
      invariant 0 <= k <= |modifications|
      invariant outcome == Returned
      invariant KindsFrom(Patching(result, valids, Returned), modifications[k..]) == KindsFrom(Patching(pose, [], Returned), modifications)
    {
      assert modifications[k..][1..] == modifications[k + 1..];
      var (kind, residues) := modifications[k];
      k := k + 1;
      var patch := PatchFor(kind);
      if patch.None? {
        continue;
      }
      var v;
      result, v, outcome := ApplyPatch(result, patch.value, residues);
      valids := valids + v;
      if outcome.Raised? {
        assert KindsFrom(Patching(result, valids, outcome), modifications[k..]) == Patching(result, valids, outcome);
        return;
      }
    }
    assert modifications[k..] == [];
    if valids == [] {
      return;
    }
    result := Refined(result, FastRelax(scorefxn, cycles, NeighbourhoodMoves(valids)));
  }
}
