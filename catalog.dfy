/** The catalog of predicted models (`make_AF2_dataframe`) and its join with
    the per-rank scores of `settings.txt` (`_add_settings`), in
    pyrosetta_help/alphafold/multimodel.py. The directory listing and the
    settings file arrive already tokenised: the regular expressions and the
    file reads are not part of the model. The catalog is the sequence of its
    rows, in row order. */
module Catalog {
  import opened Common
  import opened Text

  /** What the two filename patterns make of one directory entry. */
  datatype Parse =
    | Unranked      // no match for `rank_\d+.*\.pdb`: the entry is skipped
    | Unstructured  // a match for that, but none for the detailed pattern
    | Fields(name: string, seed: nat, state: string, rank: nat, model: nat)

  /** One entry of `os.listdir(folder)`, with what the patterns found in it. */
  datatype Listing = Listing(filename: string, parse: Parse)

  /** One catalog row: the `data` dictionary of the loop. */
  datatype Entry = Entry(name: string, path: string, rank: nat, model: nat, seed: nat, relaxed: bool)

  /** `os.path.join(folder, filename)` for a relative `filename`. */
  function PathJoin(folder: string, filename: string): string {
    if folder == [] || folder[|folder| - 1] == '/' then folder + filename else folder + "/" + filename
  }

  /** The row a structured filename gives. */
  function ToEntry(folder: string, listing: Listing): Entry
    requires listing.parse.Fields?
  {
    var f := listing.parse;
    Entry(listing.filename, PathJoin(folder, listing.filename), f.rank, f.model, f.seed, !Contains(f.state, "unrelaxed"))
  }

  /** One turn of the loop over the listing. */
  function Visit(folder: string, sofar: Result<seq<Entry>>, listing: Listing): Result<seq<Entry>> {
    match sofar
    case Raise(e) => Raise(e)
    case Ok(es) =>
      match listing.parse
      case Unranked => Ok(es)
      case Unstructured => Raise(AttributeError)
      case Fields(_, _, _, _, _) => Ok(es + [ToEntry(folder, listing)])
  }

  /** The rows the listing yields, in listing order, before ranks are merged;
      `rex.group` on a failed match raises `AttributeError`. */
  function Records(folder: string, listing: seq<Listing>): (r: Result<seq<Entry>>)
    ensures r.Raise? <==> exists k :: 0 <= k < |listing| && listing[k].parse.Unstructured?
    ensures r.Raise? ==> r.exception == AttributeError
  {
    if listing == [] then Ok([])
    else Visit(folder, Records(folder, listing[..|listing| - 1]), listing[|listing| - 1])
  }

  /** The listing with every entry the first pattern rejects taken out. */
  function Ranked(listing: seq<Listing>): seq<Listing> {
    if listing == [] then []
    else
      var n := |listing| - 1;
      Ranked(listing[..n]) + (if listing[n].parse.Unranked? then [] else [listing[n]])
  }

  function Ranks(cat: seq<Entry>): seq<nat> {
    seq(|cat|, k requires 0 <= k < |cat| => cat[k].rank)
  }

  /** The row holding `rank`, if there is one. */
  function RankPosition(cat: seq<Entry>, rank: nat): (r: Option<nat>)
    ensures r.Some? ==> r.value < |cat| && cat[r.value].rank == rank
    ensures r.None? ==> forall k :: 0 <= k < |cat| ==> cat[k].rank != rank
  {
    if cat == [] then None
    else if cat[0].rank == rank then Some(0)
    else
      match RankPosition(cat[1..], rank)
      case None => None
      case Some(k) => Some(k + 1)
  }

  /** One turn of the loop: `ranked_filenames[rank] = data`, unless the row
      already stored for the rank is relaxed. A dictionary keeps the
      position of a key it already has. */
  function Store(cat: seq<Entry>, e: Entry): seq<Entry> {
    match RankPosition(cat, e.rank)
    case None => cat + [e]
    case Some(k) => if cat[k].relaxed then cat else cat[k := e]
  }

  /** `list(ranked_filenames.values())` after the loop over `es`. */
  function Merge(es: seq<Entry>): seq<Entry> {
    if es == [] then []
    else
      var n := |es| - 1;
      Store(Merge(es[..n]), es[n])
  }

  /** `make_AF2_dataframe`. */
  function MakeCatalog(folder: string, listing: seq<Listing>): Result<seq<Entry>> {
    match Records(folder, listing)
    case Raise(e) => Raise(e)
    case Ok(es) => Ok(Merge(es))
  }

  /** The rows of `es` for one rank, in order. */
  function Candidates(es: seq<Entry>, rank: nat): seq<Entry> {
    if es == [] then []
    else
      var n := |es| - 1;
      Candidates(es[..n], rank) + (if es[n].rank == rank then [es[n]] else [])
  }

  /** The first relaxed row of `cs`, if any. */
  function FirstRelaxed(cs: seq<Entry>): (r: Option<Entry>)
    ensures r.Some? ==> r.value in cs && r.value.relaxed
    ensures r.None? ==> forall k :: 0 <= k < |cs| ==> !cs[k].relaxed
  {
    if cs == [] then None
    else if cs[0].relaxed then Some(cs[0])
    else FirstRelaxed(cs[1..])
  }

  /** The row a rank keeps: its first relaxed candidate if there is one,
      else its last candidate. */
  function Chosen(cs: seq<Entry>): Entry
    requires cs != []
  {
    match FirstRelaxed(cs)
    case Some(e) => e
    case None => cs[|cs| - 1]
  }

  /** One match of `rank_(\d+).*pLDDT\:(\d+\.\d+)\ pTMscore:(\d+\.\d+)` in
      `settings.txt`, its numbers already converted. */
  datatype Setting = Setting(rank: nat, pLDDT: real, pTMscore: real)

  /** A catalog row with its two settings columns (`None` stands for NaN). */
  datatype Scored = Scored(entry: Entry, pLDDT: Option<real>, pTMscore: Option<real>)

  /** The dictionaries `pLDDTs` and `pTMscores` after the loop over the
      matches: a later match for a rank overwrites an earlier one. */
  function Tables(settings: seq<Setting>): (map<nat, real>, map<nat, real>) {
    if settings == [] then (map[], map[])
    else
      var n := |settings| - 1;
      var (plddts, ptms) := Tables(settings[..n]);
      var s := settings[n];
      (plddts[s.rank := s.pLDDT], ptms[s.rank := s.pTMscore])
  }

  /** `Series.map(table)` on one rank. */
  function Get(table: map<nat, real>, rank: nat): Option<real> {
    if rank in table then Some(table[rank]) else None
  }

  /** `_add_settings`, where `settings` is `None` when the file is missing.
      A catalog with no rows has no `rank` column, so reading it raises
      `KeyError`; the warning branch for a missing file falls through to the
      unconditional `open`, which raises. */
  function AddSettings(cat: seq<Entry>, settings: Option<seq<Setting>>): (r: Result<seq<Scored>>)
    ensures r.Raise? <==> cat == [] || settings.None?
    ensures r.Raise? ==> r.exception == (if cat == [] then KeyError else FileNotFoundError)
    ensures r.Ok? ==> |r.value| == |cat| && forall k :: 0 <= k < |cat| ==> r.value[k].entry == cat[k]
  {
    if cat == [] then Raise(KeyError)
    else
      match settings
      case None => Raise(FileNotFoundError)
      case Some(matches) =>
        var (plddts, ptms) := Tables(matches);
        Ok(seq(|cat|, k requires 0 <= k < |cat| => Scored(cat[k], Get(plddts, cat[k].rank), Get(ptms, cat[k].rank))))
  }
}
