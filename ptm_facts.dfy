/** What `parse_phosphosite`, `_apply_patch` and `_phospho_pose` guarantee. */
module PtmFacts {
  import opened Common
  import opened Text
  import opened Poses
  import opened Ptm

  // ---------------------------------------------------------------- parsing

  /** The sites inside the window, in order. */
  function Kept(sites: seq<Site>, minimum: int, maximum: int): seq<Site> {
    if sites == [] then []
    else
      var n := |sites| - 1;
      Kept(sites[..n], minimum, maximum) + (if InWindow(sites[n].resi, minimum, maximum) then [sites[n]] else [])
  }

  function Mods(sites: seq<Site>): seq<string> {
    seq(|sites|, k requires 0 <= k < |sites| => sites[k].mod)
  }

  /** The residue numbers of the sites carrying `mod`, in order. */
  function ResiduesOf(sites: seq<Site>, mod: string): seq<int> {
    if sites == [] then []
    else
      var n := |sites| - 1;
      ResiduesOf(sites[..n], mod) + (if sites[n].mod == mod then [sites[n].resi] else [])
  }

  lemma AppendKeys(g: Grouped, mod: string, resi: int)
    ensures Keys(Append(g, mod, resi)) == if mod in Keys(g) then Keys(g) else Keys(g) + [mod]
  {
    match KeyPosition(g, mod)
    case None =>
      assert mod !in Keys(g);
    case Some(k) =>
      assert Keys(g)[k] == mod;
  }

  lemma ModsAppend(sites: seq<Site>, s: Site)
    ensures Mods(sites + [s]) == Mods(sites) + [s.mod]
  {
  }

  /** The tokens of the result are the tokens of the kept sites, each once,
      in the order each first appears; a token none of whose sites is kept
      is absent. */
  lemma {:induction false} GroupKeys(sites: seq<Site>, minimum: int, maximum: int)
    ensures Keys(Group(sites, minimum, maximum)) == FirstSeen(Mods(Kept(sites, minimum, maximum)))
  {
    if sites != [] {
      var n := |sites| - 1;
      GroupKeys(sites[..n], minimum, maximum);
      var kept := Kept(sites[..n], minimum, maximum);
      if InWindow(sites[n].resi, minimum, maximum) {
        AppendKeys(Group(sites[..n], minimum, maximum), sites[n].mod, sites[n].resi);
        ModsAppend(kept, sites[n]);
        assert (Mods(kept) + [sites[n].mod])[..|Mods(kept)|] == Mods(kept);
      } else {
        assert Kept(sites, minimum, maximum) == kept;
      }
    }
  }

  lemma {:induction false} ResiduesOfEmpty(sites: seq<Site>, mod: string)
    ensures ResiduesOf(sites, mod) == [] <==> mod !in Mods(sites)
  {
    if sites != [] {
      var n := |sites| - 1;
      ResiduesOfEmpty(sites[..n], mod);
      assert Mods(sites) == Mods(sites[..n]) + [sites[n].mod];
    }
  }

  /** Each token lists the numbers of its kept sites, in the order of the
      input. */
  lemma {:induction false} GroupResidues(sites: seq<Site>, minimum: int, maximum: int)
    ensures var g := Group(sites, minimum, maximum);
      forall k :: 0 <= k < |g| ==> g[k].1 == ResiduesOf(Kept(sites, minimum, maximum), g[k].0)
  {
    if sites != [] {
      var n := |sites| - 1;
      var s := sites[n];
      GroupResidues(sites[..n], minimum, maximum);
      if InWindow(s.resi, minimum, maximum) {
        var before := Group(sites[..n], minimum, maximum);
        var kept := Kept(sites[..n], minimum, maximum);
        assert Kept(sites, minimum, maximum) == kept + [s];
        assert (kept + [s])[..|kept|] == kept;
        GroupKeys(sites[..n], minimum, maximum);
        var g := Group(sites, minimum, maximum);
        forall k | 0 <= k < |g|
          ensures g[k].1 == ResiduesOf(kept + [s], g[k].0)
        {
          if g[k].0 != s.mod {
            assert k < |before| && g[k] == before[k];
          } else {
            match KeyPosition(before, s.mod)
            case None =>
              assert Keys(before)[..|before|] == Keys(before);
              assert s.mod !in Mods(kept);
              ResiduesOfEmpty(kept, s.mod);
              assert k == |before|;
            case Some(j) =>
              assert Keys(before)[k] == Keys(before)[j];
              assert k == j;
          }
        }
      } else {
        assert Kept(sites, minimum, maximum) == Kept(sites[..n], minimum, maximum);
      }
    }
  }

  /** A copied table reads as expected: with the window 1 to 50, `T99-p`
      is dropped and the two remaining tokens keep their order. */
  lemma ParseExample()
    ensures ParsePhosphosite("S45-p T99-p K12-m1", [Site('S', 45, "p"), Site('T', 99, "p"), Site('K', 12, "m1")], 1, 50)
      == Ok([("p", [45]), ("m1", [12])])
  {
    var raw := "S45-p T99-p K12-m1";
    assert raw[3..][..2] == "-p";
    assert Contains(raw[3..], "-p");
    assert Contains(raw[2..], "-p");
    assert Contains(raw[1..], "-p");
    assert raw[1..][1..] == raw[2..] && raw[2..][1..] == raw[3..];
    var sites := [Site('S', 45, "p"), Site('T', 99, "p"), Site('K', 12, "m1")];
    assert sites[..2][..1] == sites[..1] && sites[..1][..0] == [];
    assert Group(sites[..0], 1, 50) == [];
    assert Group(sites[..1], 1, 50) == [("p", [45])];
    assert Group(sites[..2], 1, 50) == [("p", [45])];
    assert KeyPosition([("p", [45])], "m1") == None;
    assert sites[..3] == sites;
    assert Group(sites, 1, 50) == [("p", [45]), ("m1", [12])];
  }

  // --------------------------------------------------------------- patching

  /** `pose` after every residue listed in `valids` has been patched. */
  function Patched(pose: Pose, patch: Patch, valids: seq<int>): Pose {
    pose.(residues := map k | k in pose.residues ::
      if k in valids then Residue(pose.residues[k].name3, PatchedType(pose.residues[k], patch.name)) else pose.residues[k])
  }

  /** The residues `_apply_patch` patches, in order. */
  function Selection(pose: Pose, restriction: Option<string>, residues: seq<int>): seq<int> {
    if residues == [] then []
    else (if Selected(pose, restriction, residues[0]) then [residues[0]] else []) + Selection(pose, restriction, residues[1..])
  }

  /** The residues `_apply_patch` patches before it reaches a missing
      one: all it patches, whether or not it raises. */
  function Reached(pose: Pose, restriction: Option<string>, residues: seq<int>): seq<int> {
    if residues == [] then []
    else if residues[0] != 0 && residues[0] !in pose.residues then []
    else (if Selected(pose, restriction, residues[0]) then [residues[0]] else []) + Reached(pose, restriction, residues[1..])
  }

  /** A nonzero residue the pose does not have. */
  predicate Missing(pose: Pose, residues: seq<int>) {
    exists k :: 0 <= k < |residues| && residues[k] != 0 && residues[k] !in pose.residues
  }

  lemma PatchedNothing(pose: Pose, patch: Patch)
    ensures Patched(pose, patch, []) == pose
  {
    assert Patched(pose, patch, []).residues == pose.residues;
  }

  lemma PatchedOneMore(pose: Pose, patch: Patch, valids: seq<int>, r: int)
    requires r in pose.residues
    ensures var p := Patched(pose, patch, valids);
      Patched(pose, patch, valids + [r])
        == p.(residues := p.residues[r := Residue(p.residues[r].name3, PatchedType(p.residues[r], patch.name))])
  {
    var p := Patched(pose, patch, valids);
    var q := p.(residues := p.residues[r := Residue(p.residues[r].name3, PatchedType(p.residues[r], patch.name))]);
    assert Patched(pose, patch, valids + [r]).residues == q.residues by {
      forall k | k in pose.residues
        ensures Patched(pose, patch, valids + [r]).residues[k] == q.residues[k]
      {
        assert k in valids + [r] <==> k in valids || k == r;
      }
    }
  }

  /** A missing residue is the first one or one of the rest. */
  lemma MissingCons(pose: Pose, residues: seq<int>)
    requires residues != []
    ensures Missing(pose, residues) <==> (residues[0] != 0 && residues[0] !in pose.residues) || Missing(pose, residues[1..])
  {
    if Missing(pose, residues) {
      var k :| 0 <= k < |residues| && residues[k] != 0 && residues[k] !in pose.residues;
      if k > 0 {
        assert residues[1..][k - 1] == residues[k];
      }
    }
    if Missing(pose, residues[1..]) {
      var k :| 0 <= k < |residues[1..]| && residues[1..][k] != 0 && residues[1..][k] !in pose.residues;
      assert residues[k + 1] == residues[1..][k];
    }
  }

  /** Patching keeps the residue numbers and names, so the selection. */
  lemma PatchedKeepsSelection(pose: Pose, patch: Patch, valids: seq<int>, x: int)
    ensures Patched(pose, patch, valids).residues.Keys == pose.residues.Keys
    ensures Selected(Patched(pose, patch, valids), patch.restriction, x) <==> Selected(pose, patch.restriction, x)
  {
  }

  /** The loop of `_apply_patch` from a pose already patched at `valids`. */
  lemma PatchFromSpec(pose: Pose, patch: Patch, valids: seq<int>, residues: seq<int>)
    requires forall k :: 0 <= k < |valids| ==> Selected(pose, patch.restriction, valids[k])
    ensures var r := PatchFrom(Patching(Patched(pose, patch, valids), valids, Returned), patch, residues);
      && r.pose == Patched(pose, patch, r.valids)
      && (forall k :: 0 <= k < |r.valids| ==> Selected(pose, patch.restriction, r.valids[k]))
      && (r.outcome.Raised? <==> Missing(pose, residues))
      && (r.outcome.Raised? ==> r.outcome.exception == ResidueError)
      && (r.outcome.Returned? ==> r.valids == valids + Selection(pose, patch.restriction, residues))
  {
    PatchFromPose(pose, patch, valids, residues);
    PatchFromOutcome(pose, patch, valids, residues);
  }

  /** The loop patches the pose at exactly the residues it lists, all
      selected. */
  lemma {:induction false} PatchFromPose(pose: Pose, patch: Patch, valids: seq<int>, residues: seq<int>)
    requires forall k :: 0 <= k < |valids| ==> Selected(pose, patch.restriction, valids[k])
    ensures var r := PatchFrom(Patching(Patched(pose, patch, valids), valids, Returned), patch, residues);
      && r.pose == Patched(pose, patch, r.valids)
      && (forall k :: 0 <= k < |r.valids| ==> Selected(pose, patch.restriction, r.valids[k]))
    decreases |residues|
  {
    if residues != [] {
      var state := Patching(Patched(pose, patch, valids), valids, Returned);
      var x := residues[0];
      PatchedKeepsSelection(pose, patch, valids, x);
      assert PatchFrom(state, patch, residues) == PatchFrom(PatchStep(state, patch, x), patch, residues[1..]);
      if x == 0 || !Selected(pose, patch.restriction, x) {
        if x == 0 || x in pose.residues {
          assert PatchStep(state, patch, x) == state;
          PatchFromPose(pose, patch, valids, residues[1..]);
        }
      } else {
        PatchedOneMore(pose, patch, valids, x);
        assert PatchStep(state, patch, x) == Patching(Patched(pose, patch, valids + [x]), valids + [x], Returned);
        PatchFromPose(pose, patch, valids + [x], residues[1..]);
      }
    }
  }

  /** The loop raises exactly at a missing residue, and otherwise lists the
      selected residues. */
  lemma {:induction false} PatchFromOutcome(pose: Pose, patch: Patch, valids: seq<int>, residues: seq<int>)
    ensures var r := PatchFrom(Patching(Patched(pose, patch, valids), valids, Returned), patch, residues);
      && (r.outcome.Raised? <==> Missing(pose, residues))
      && (r.outcome.Raised? ==> r.outcome.exception == ResidueError)
      && (r.outcome.Returned? ==> r.valids == valids + Selection(pose, patch.restriction, residues))
    decreases |residues|
  {
    if residues != [] {
      var state := Patching(Patched(pose, patch, valids), valids, Returned);
      var x := residues[0];
      PatchedKeepsSelection(pose, patch, valids, x);
      MissingCons(pose, residues);
      assert PatchFrom(state, patch, residues) == PatchFrom(PatchStep(state, patch, x), patch, residues[1..]);
      if x == 0 || !Selected(pose, patch.restriction, x) {
        if x == 0 || x in pose.residues {
          assert PatchStep(state, patch, x) == state;
          PatchFromOutcome(pose, patch, valids, residues[1..]);
        }
      } else {
        PatchedOneMore(pose, patch, valids, x);
        assert PatchStep(state, patch, x) == Patching(Patched(pose, patch, valids + [x]), valids + [x], Returned);
        PatchFromOutcome(pose, patch, valids + [x], residues[1..]);
        assert valids + [x] + Selection(pose, patch.restriction, residues[1..]) == valids + Selection(pose, patch.restriction, residues);
      }
    }
  }

  /** Raised or not, the loop lists the selected residues it reached. */
  lemma {:induction false} PatchFromReached(pose: Pose, patch: Patch, valids: seq<int>, residues: seq<int>)
    ensures PatchFrom(Patching(Patched(pose, patch, valids), valids, Returned), patch, residues).valids
      == valids + Reached(pose, patch.restriction, residues)
    decreases |residues|
  {
    if residues != [] {
      var state := Patching(Patched(pose, patch, valids), valids, Returned);
      var x := residues[0];
      PatchedKeepsSelection(pose, patch, valids, x);
      assert PatchFrom(state, patch, residues) == PatchFrom(PatchStep(state, patch, x), patch, residues[1..]);
      if x != 0 && x !in pose.residues {
        assert PatchStep(state, patch, x) == state.(outcome := Raised(ResidueError));
      } else if x == 0 || !Selected(pose, patch.restriction, x) {
        assert PatchStep(state, patch, x) == state;
        PatchFromReached(pose, patch, valids, residues[1..]);
      } else {
        PatchedOneMore(pose, patch, valids, x);
        assert PatchStep(state, patch, x) == Patching(Patched(pose, patch, valids + [x]), valids + [x], Returned);
        PatchFromReached(pose, patch, valids + [x], residues[1..]);
        assert valids + [x] + Reached(pose, patch.restriction, residues[1..]) == valids + Reached(pose, patch.restriction, residues);
      }
    }
  }

  /** With no residue missing, the loop reaches every selected residue. */
  lemma {:induction false} ReachedSelection(pose: Pose, restriction: Option<string>, residues: seq<int>)
    requires !Missing(pose, residues)
    ensures Reached(pose, restriction, residues) == Selection(pose, restriction, residues)
    decreases |residues|
  {
    if residues != [] {
      MissingCons(pose, residues);
      ReachedSelection(pose, restriction, residues[1..]);
    }
  }

  /** `_apply_patch` raises exactly when a nonzero residue is missing from
      the pose. Otherwise it patches, and lists, exactly the nonzero
      residues that pass the restriction, in input order. Either way every
      residue it patched passes the restriction, and nothing else of the
      pose changes. */
  lemma ApplyPatchSpec(pose: Pose, patch: Patch, residues: seq<int>)
    ensures var r := PatchFrom(Patching(pose, [], Returned), patch, residues);
      && r.pose == Patched(pose, patch, r.valids)
      && (forall k :: 0 <= k < |r.valids| ==> Selected(pose, patch.restriction, r.valids[k]))
      && (r.outcome.Raised? <==> Missing(pose, residues))
      && (r.outcome.Raised? ==> r.outcome.exception == ResidueError)
      && (r.outcome.Returned? ==> r.valids == Selection(pose, patch.restriction, residues))
  {
    PatchedNothing(pose, patch);
    assert Patching(Patched(pose, patch, []), [], Returned) == Patching(pose, [], Returned);
    PatchFromSpec(pose, patch, [], residues);
  }

  /** Raised or not, `_apply_patch` has patched the selected residues
      before the first missing one, and only those. */
  lemma ApplyPatchReached(pose: Pose, patch: Patch, residues: seq<int>)
    ensures var r := PatchFrom(Patching(pose, [], Returned), patch, residues);
      && r.valids == Reached(pose, patch.restriction, residues)
      && r.pose == Patched(pose, patch, Reached(pose, patch.restriction, residues))
  {
    PatchedNothing(pose, patch);
    assert Patching(Patched(pose, patch, []), [], Returned) == Patching(pose, [], Returned);
    PatchFromReached(pose, patch, [], residues);
    assert [] + Reached(pose, patch.restriction, residues) == Reached(pose, patch.restriction, residues);
    PatchFromPose(pose, patch, [], residues);
  }

  /** `Selected` and `Missing` see only residue numbers and names, which
      patching leaves alone. */
  predicate Similar(a: Pose, b: Pose) {
    a.residues.Keys == b.residues.Keys
    && (forall k :: k in a.residues ==> a.residues[k].name3 == b.residues[k].name3)
    && a.chains == b.chains && a.numbering == b.numbering && a.trace == b.trace
  }

  lemma SimilarSelection(a: Pose, b: Pose, restriction: Option<string>, residues: seq<int>)
    requires Similar(a, b)
    ensures Selection(a, restriction, residues) == Selection(b, restriction, residues)
    ensures Reached(a, restriction, residues) == Reached(b, restriction, residues)
    ensures Missing(a, residues) <==> Missing(b, residues)
  {
    if residues != [] {
      SimilarSelection(a, b, restriction, residues[1..]);
    }
  }

  // ------------------------------------------------------ all modifications

  /** The residues `_phospho_pose` patches for one kind. */
  function KindSelection(pose: Pose, kind: string, residues: seq<int>): seq<int> {
    match PatchFor(kind)
    case None => []
    case Some(patch) => Selection(pose, patch.restriction, residues)
  }

  /** The pose after one kind of modification: its patch applied to the
      residues reached, and nothing done for a kind without a patch. */
  function PatchKind(pose: Pose, kind: string, residues: seq<int>): Pose {
    match PatchFor(kind)
    case None => pose
    case Some(patch) => Patched(pose, patch, Reached(pose, patch.restriction, residues))
  }

  /** The pose after the modifications, kind by kind, up to and including
      the first kind that reaches a missing residue. */
  function PatchedAll(pose: Pose, modifications: Grouped): Pose
    decreases |modifications|
  {
    if modifications == [] then pose
    else
      var next := PatchKind(pose, modifications[0].0, modifications[0].1);
      if PatchFor(modifications[0].0).Some? && Missing(pose, modifications[0].1) then next
      else PatchedAll(next, modifications[1..])
  }

  /** The name of the patch of the last kind that selects residue `x`, if
      any kind does. */
  function LastPatch(pose: Pose, modifications: Grouped, x: int): Option<string>
    decreases |modifications|
  {
    if modifications == [] then None
    else match LastPatch(pose, modifications[1..], x)
      case Some(name) => Some(name)
      case None =>
        match PatchFor(modifications[0].0)
        case Some(patch) => if x in Selection(pose, patch.restriction, modifications[0].1) then Some(patch.name) else None
        case None => None
  }

  /** A residue with the patch `name` applied, if there is one. */
  function Labelled(residue: Residue, name: Option<string>): Residue {
    match name
    case None => residue
    case Some(n) => Residue(residue.name3, PatchedType(residue, n))
  }

  /** The residues `_phospho_pose` patches, kind by kind. */
  function Expected(pose: Pose, modifications: Grouped): seq<int> {
    if modifications == [] then []
    else KindSelection(pose, modifications[0].0, modifications[0].1) + Expected(pose, modifications[1..])
  }

  /** A kind with a patch lists a nonzero residue the pose does not have. */
  predicate MissingAny(pose: Pose, modifications: Grouped) {
    exists k :: 0 <= k < |modifications| && PatchFor(modifications[k].0).Some? && Missing(pose, modifications[k].1)
  }

  lemma MissingAnyFirst(pose: Pose, modifications: Grouped)
    requires modifications != []
    ensures MissingAny(pose, modifications)
      <==> (PatchFor(modifications[0].0).Some? && Missing(pose, modifications[0].1)) || MissingAny(pose, modifications[1..])
  {
    if MissingAny(pose, modifications) {
      var k :| 0 <= k < |modifications| && PatchFor(modifications[k].0).Some? && Missing(pose, modifications[k].1);
      if k > 0 {
        assert modifications[1..][k - 1] == modifications[k];
      }
    }
    if MissingAny(pose, modifications[1..]) {
      var k :| 0 <= k < |modifications[1..]| && PatchFor(modifications[1..][k].0).Some? && Missing(pose, modifications[1..][k].1);
      assert modifications[k + 1] == modifications[1..][k];
    }
  }

  /** One kind of modification. */
  lemma KindStepSpec(pose: Pose, state: Patching, kind: string, residues: seq<int>)
    requires state.outcome.Returned? && Similar(state.pose, pose)
    ensures var d := KindStep(state, kind, residues);
      && Similar(d.pose, pose)
      && (d.outcome.Raised? <==> PatchFor(kind).Some? && Missing(pose, residues))
      && (d.outcome.Raised? ==> d.outcome.exception == ResidueError)
      && (d.outcome.Returned? ==> d.valids == state.valids + KindSelection(pose, kind, residues))
      && (d.outcome.Returned? && KindSelection(pose, kind, residues) == [] ==> d.pose == state.pose)
      && d.pose == PatchKind(state.pose, kind, residues)
  {
    match PatchFor(kind)
    case None =>
    case Some(patch) =>
      ApplyPatchSpec(state.pose, patch, residues);
      ApplyPatchReached(state.pose, patch, residues);
      SimilarSelection(state.pose, pose, patch.restriction, residues);
      PatchedNothing(state.pose, patch);
  }

  lemma {:induction false} KindsFromSpec(pose: Pose, state: Patching, modifications: Grouped)
    requires state.outcome.Returned? && Similar(state.pose, pose)
    ensures var r := KindsFrom(state, modifications);
      && Similar(r.pose, pose)
      && (r.outcome.Raised? <==> MissingAny(pose, modifications))
      && (r.outcome.Raised? ==> r.outcome.exception == ResidueError)
      && (r.outcome.Returned? ==> r.valids == state.valids + Expected(pose, modifications))
      && (r.outcome.Returned? && Expected(pose, modifications) == [] ==> r.pose == state.pose)
    decreases |modifications|
  {
    if modifications != [] {
      var (kind, residues) := modifications[0];
      MissingAnyFirst(pose, modifications);
      KindStepSpec(pose, state, kind, residues);
      var next := KindStep(state, kind, residues);
      if next.outcome.Returned? {
        KindsFromSpec(pose, next, modifications[1..]);
      }
    }
  }

  /** The modification loop leaves the pose patched kind by kind, the kind
      that raises included. */
  lemma {:induction false} KindsFromPatches(state: Patching, modifications: Grouped)
    requires state.outcome.Returned?
    ensures KindsFrom(state, modifications).pose == PatchedAll(state.pose, modifications)
    decreases |modifications|
  {
    if modifications != [] {
      var (kind, residues) := modifications[0];
      KindStepSpec(state.pose, state, kind, residues);
      var next := KindStep(state, kind, residues);
      if next.outcome.Returned? {
        KindsFromPatches(next, modifications[1..]);
      }
    }
  }

  lemma PatchedSimilar(pose: Pose, patch: Patch, valids: seq<int>)
    ensures Similar(Patched(pose, patch, valids), pose)
  {
  }

  lemma {:induction false} SimilarLastPatch(a: Pose, b: Pose, modifications: Grouped, x: int)
    requires Similar(a, b)
    ensures LastPatch(a, modifications, x) == LastPatch(b, modifications, x)
    ensures MissingAny(a, modifications) <==> MissingAny(b, modifications)
    decreases |modifications|
  {
    if modifications != [] {
      SimilarLastPatch(a, b, modifications[1..], x);
      MissingAnyFirst(a, modifications);
      MissingAnyFirst(b, modifications);
      match PatchFor(modifications[0].0)
      case Some(patch) => SimilarSelection(a, b, patch.restriction, modifications[0].1);
      case None =>
    }
  }

  /** With no residue missing, every residue ends up carrying the patch of
      the last kind that selects it, applied to its own name, or is left as
      it was when no kind selects it; the residue numbers stay the same. */
  lemma {:induction false} PatchedAllTypes(pose: Pose, modifications: Grouped)
    requires !MissingAny(pose, modifications)
    ensures PatchedAll(pose, modifications).residues.Keys == pose.residues.Keys
    ensures forall x :: x in pose.residues ==>
      PatchedAll(pose, modifications).residues[x] == Labelled(pose.residues[x], LastPatch(pose, modifications, x))
    decreases |modifications|
  {
    if modifications != [] {
      var (kind, residues) := modifications[0];
      var next := PatchKind(pose, kind, residues);
      var rest := modifications[1..];
      MissingAnyFirst(pose, modifications);
      match PatchFor(kind) {
        case Some(patch) =>
          PatchedSimilar(pose, patch, Reached(pose, patch.restriction, residues));
          ReachedSelection(pose, patch.restriction, residues);
        case None =>
      }
      assert Similar(next, pose);
      forall x | true
        ensures LastPatch(next, rest, x) == LastPatch(pose, rest, x)
        ensures MissingAny(next, rest) <==> MissingAny(pose, rest)
      {
        SimilarLastPatch(next, pose, rest, x);
      }
      PatchedAllTypes(next, rest);
      assert PatchedAll(pose, modifications) == PatchedAll(next, rest);
    }
  }

  /** When `_phospho_pose` returns, each residue carries the patch of the
      last kind that selects it, or is as it was. */
  lemma PhosphoTypes(pose: Pose, scorefxn: ScoreFunction, cycles: int, modifications: Grouped)
    ensures var r := PhosphoEffect(pose, scorefxn, cycles, modifications);
      r.outcome.Returned? ==> forall x :: x in pose.residues ==>
        x in r.pose.residues && r.pose.residues[x] == Labelled(pose.residues[x], LastPatch(pose, modifications, x))
  {
    PhosphoSpec(pose, scorefxn, cycles, modifications);
    if !MissingAny(pose, modifications) {
      PatchedAllTypes(pose, modifications);
    }
  }

  /** `_phospho_pose` raises exactly when a kind it knows lists a nonzero
      residue missing from the pose. Otherwise it patches exactly the
      residues each known kind selects, in order, ignoring `ub` and unknown
      kinds; it refines once, around the patched residues, when there are
      any, and leaves the pose as it was when there are none. Residue
      numbers and names never change. */
  lemma PhosphoSpec(pose: Pose, scorefxn: ScoreFunction, cycles: int, modifications: Grouped)
    ensures var r := PhosphoEffect(pose, scorefxn, cycles, modifications);
      && r.pose.residues.Keys == pose.residues.Keys
      && (forall k :: k in r.pose.residues ==> r.pose.residues[k].name3 == pose.residues[k].name3)
      && (r.outcome.Raised? <==> MissingAny(pose, modifications))
      && (r.outcome.Raised? ==> r.outcome.exception == ResidueError)
      && (r.outcome.Returned? ==> r.valids == Expected(pose, modifications))
      && (r.outcome.Returned? && r.valids == [] ==> r.pose == pose)
      && (r.outcome.Returned? && r.valids != [] ==>
            r.pose.trace == pose.trace + [FastRelax(scorefxn, cycles, NeighbourhoodMoves(r.valids))])
      && r.pose.residues == PatchedAll(pose, modifications).residues
  {
    var start := Patching(pose, [], Returned);
    KindsFromSpec(pose, start, modifications);
    KindsFromPatches(start, modifications);
    var patched := KindsFrom(start, modifications);
    assert Similar(patched.pose, pose);
    assert [] + Expected(pose, modifications) == Expected(pose, modifications);
    if patched.outcome.Returned? && patched.valids != [] {
      var refined := Refined(patched.pose, FastRelax(scorefxn, cycles, NeighbourhoodMoves(patched.valids)));
      assert PhosphoEffect(pose, scorefxn, cycles, modifications) == patched.(pose := refined);
      assert refined.residues == patched.pose.residues;
    } else {
      assert PhosphoEffect(pose, scorefxn, cycles, modifications) == patched;
    }
  }
}
