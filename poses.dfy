/** The structure engine as the analyser sees it. A pose is a value with the
    residue map the bookkeeping reads, its chain count, its PDB-to-pose
    numbering, and the list of physics operations applied to it so far:
    refinement and constraint derivation are foreign calls, recorded here by
    name and arguments instead of being computed. */
module Poses {
  import opened Common

  /** A residue: its three-letter name and the name of its residue type
      (`"SER:phosphorylated"` after a patch). */
  datatype Residue = Residue(name3: string, typeName: string)

  /** Which residues a move map lets move. */
  datatype Mask =
    | Nothing
    | Everything
    | Around(focus: seq<int>, radius: nat, includeFocus: bool)  // a neighbourhood selector

  /** `pyrosetta.MoveMap`; a fresh one lets nothing move. */
  datatype MoveMap = MoveMap(backbone: Mask, sidechains: Mask, jumps: bool)

  /** `get_fa_scorefxn()` with the weight it was given for `atom_pair_constraint`. */
  datatype ScoreFunction = FullAtom(constraintWeight: int)

  /** A predicted aligned error matrix, indexed by pose residue. */
  datatype Matrix = Matrix(values: seq<seq<real>>)

  /** A foreign operation that changes a pose. */
  datatype Physics =
    | FastRelax(scorefxn: ScoreFunction, cycles: int, movemap: MoveMap)
    | PaeConstraints(pae: Matrix, options: seq<(string, real)>)  // add_pae_constraints with its keyword arguments
    | InterchainPaeConstraints(pae: Matrix, cutoff: int)         // add_interchain_pae_constraints

  datatype Pose = Pose(
    residues: map<int, Residue>,
    chains: nat,
    numbering: map<(string, int), int>,  // (chain, PDB number) to pose number
    trace: seq<Physics>)

  /** A foreign operation applied to the pose in place. Residue identities,
      chains and numbering are left as they were. */
  function Refined(pose: Pose, step: Physics): Pose {
    pose.(trace := pose.trace + [step])
  }

  /** `pdb_info().pdb2pose(res=number, chain=chain)`: 0 when the pose has no
      such residue. */
  function PdbToPose(pose: Pose, chain: string, number: int): int {
    if (chain, number) in pose.numbering then pose.numbering[(chain, number)] else 0
  }

  /** A value read off a pose by a foreign call. */
  datatype Measure =
    | Energy(pose: Pose, scorefxn: ScoreFunction)          // scorefxn(pose)
    | Contacts(pose: Pose, chain: int, threshold: real)    // get_interactions
    | MedianPLDDT(pose: Pose, first: Measure, second: Measure)
    | InterfaceAnalysis(pose: Pose, interface: string)     // InterfaceAnalyzerMover(interface).apply(pose)
}
