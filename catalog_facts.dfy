/** What the catalog builder and the settings join guarantee. */
module CatalogFacts {
  import opened Common
  import opened Text
  import opened Catalog

  lemma RecordsAppend(folder: string, listing: seq<Listing>, last: Listing)
    ensures Records(folder, listing + [last]) == Visit(folder, Records(folder, listing), last)
  {
    assert (listing + [last])[..|listing|] == listing;
  }

  /** Entries the first filename pattern rejects play no part in the
      result: neither in its rows nor in whether it raises. */
  lemma {:induction false} RecordsIgnoreUnranked(folder: string, listing: seq<Listing>)
    ensures Records(folder, listing) == Records(folder, Ranked(listing))
  {
    if listing != [] {
      var n := |listing| - 1;
      RecordsIgnoreUnranked(folder, listing[..n]);
      if !listing[n].parse.Unranked? {
        RecordsAppend(folder, Ranked(listing[..n]), listing[n]);
      } else {
        assert Ranked(listing) == Ranked(listing[..n]);
        assert Records(folder, listing) == Visit(folder, Records(folder, listing[..n]), listing[n]);
      }
    }
  }

  lemma RanksPrefix(es: seq<Entry>, n: nat)
    requires n <= |es|
    ensures Ranks(es[..n]) == Ranks(es)[..n]
  {
  }

  /** A stored row keeps the place of its rank, or a new rank is appended. */
  lemma StoreRanks(cat: seq<Entry>, e: Entry)
    ensures Ranks(Store(cat, e)) == if e.rank in Ranks(cat) then Ranks(cat) else Ranks(cat) + [e.rank]
  {
    match RankPosition(cat, e.rank)
    case None =>
      assert e.rank !in Ranks(cat);
    case Some(k) =>
      assert Ranks(cat)[k] == e.rank;
  }

  /** The catalog's ranks are the listing's ranks, each once, in the order
      in which each was first met: the catalog follows the directory's
      enumeration order, not rank order. */
  lemma {:induction false} MergeRanks(es: seq<Entry>)
    ensures Ranks(Merge(es)) == FirstSeen(Ranks(es))
  {
    if es != [] {
      var n := |es| - 1;
      MergeRanks(es[..n]);
      StoreRanks(Merge(es[..n]), es[n]);
      RanksPrefix(es, n);
    }
  }

  /** Ranks are unique in the catalog, and a rank has a row exactly when
      some structured filename carries it. */
  lemma RanksUnique(es: seq<Entry>)
    ensures Distinct(Ranks(Merge(es)))
    ensures forall r :: r in Ranks(Merge(es)) <==> r in Ranks(es)
  {
    MergeRanks(es);
    var f := FirstSeen(Ranks(es));
    forall r
      ensures r in f <==> r in Ranks(es)
    {
      if r in f {
        var k :| 0 <= k < |f| && f[k] == r;
      }
      if r in Ranks(es) {
        var k :| 0 <= k < |Ranks(es)| && Ranks(es)[k] == r;
      }
    }
  }

  /** A rank has candidates exactly when it occurs. */
  lemma {:induction false} CandidatesEmpty(es: seq<Entry>, rank: nat)
    ensures Candidates(es, rank) == [] <==> rank !in Ranks(es)
  {
    if es != [] {
      var n := |es| - 1;
      CandidatesEmpty(es[..n], rank);
      RanksPrefix(es, n);
      assert Ranks(es) == Ranks(es[..n]) + [es[n].rank];
    }
  }

  lemma {:induction false} FirstRelaxedAppend(cs: seq<Entry>, e: Entry)
    ensures FirstRelaxed(cs + [e]) == if FirstRelaxed(cs).Some? then FirstRelaxed(cs) else if e.relaxed then Some(e) else None
  {
    if cs != [] {
      FirstRelaxedAppend(cs[1..], e);
      assert (cs + [e])[1..] == cs[1..] + [e];
    }
  }

  /** A new candidate displaces the chosen row unless that row is relaxed. */
  lemma ChosenAppend(cs: seq<Entry>, e: Entry)
    ensures Chosen(cs + [e]) == if cs != [] && Chosen(cs).relaxed then Chosen(cs) else e
  {
    FirstRelaxedAppend(cs, e);
  }

  /** Every row of the catalog is the one its rank's candidates choose: the
      first relaxed one if there is one, otherwise the last one listed. */
  lemma {:induction false} MergeKeepsChosen(es: seq<Entry>)
    ensures forall k :: 0 <= k < |Merge(es)| ==>
      Candidates(es, Merge(es)[k].rank) != [] && Merge(es)[k] == Chosen(Candidates(es, Merge(es)[k].rank))
  {
    if es != [] {
      var n := |es| - 1;
      var e := es[n];
      var cat := Merge(es[..n]);
      MergeKeepsChosen(es[..n]);
      RanksUnique(es[..n]);
      forall k | 0 <= k < |Merge(es)|
        ensures Candidates(es, Merge(es)[k].rank) != [] && Merge(es)[k] == Chosen(Candidates(es, Merge(es)[k].rank))
      {
        var x := Merge(es)[k];
        var before := Candidates(es[..n], x.rank);
        if x.rank != e.rank {
          assert Candidates(es, x.rank) == before;
          assert k < |cat| && x == cat[k];
        } else {
          assert Candidates(es, x.rank) == before + [e];
          ChosenAppend(before, e);
          match RankPosition(cat, e.rank)
          case None =>
            assert Ranks(cat)[..|cat|] == Ranks(cat);
            assert e.rank !in Ranks(cat);
            CandidatesEmpty(es[..n], e.rank);
            assert k == |cat|;
          case Some(j) =>
            assert Ranks(cat)[k] == Ranks(cat)[j];
            assert k == j;
        }
      }
    }
  }

  /** Of two files for one rank, one relaxed and one not, the catalog keeps
      the relaxed one whichever the directory lists first. */
  lemma RelaxedWinsEitherOrder(relaxed: Entry, unrelaxed: Entry)
    requires relaxed.rank == unrelaxed.rank && relaxed.relaxed && !unrelaxed.relaxed
    ensures Merge([relaxed, unrelaxed]) == [relaxed]
    ensures Merge([unrelaxed, relaxed]) == [relaxed]
  {
    assert [relaxed][..0] == [] && [unrelaxed][..0] == [];
    assert Merge([relaxed]) == [relaxed];
    assert Merge([unrelaxed]) == [unrelaxed];
    assert [relaxed, unrelaxed][..1] == [relaxed];
    assert [unrelaxed, relaxed][..1] == [unrelaxed];
  }

  /** A later match for a rank in the settings file overwrites an earlier
      one: a table holds a rank exactly when some match names it, and then
      both tables hold the numbers of the last such match. */
  lemma {:induction false} TablesHoldLastMatch(settings: seq<Setting>, rank: nat)
    ensures rank in Tables(settings).0 <==> exists k :: 0 <= k < |settings| && settings[k].rank == rank
    ensures rank in Tables(settings).1 <==> rank in Tables(settings).0
    ensures rank in Tables(settings).0 ==>
      exists k :: 0 <= k < |settings| && settings[k].rank == rank
        && Tables(settings).0[rank] == settings[k].pLDDT
        && Tables(settings).1[rank] == settings[k].pTMscore
        && forall j :: k < j < |settings| ==> settings[j].rank != rank
  {
    if settings != [] {
      var n := |settings| - 1;
      TablesHoldLastMatch(settings[..n], rank);
      if settings[n].rank == rank {
        assert Tables(settings).0[rank] == settings[n].pLDDT;
      } else if rank in Tables(settings).0 {
        var k :| 0 <= k < n && settings[..n][k].rank == rank
          && Tables(settings[..n]).0[rank] == settings[..n][k].pLDDT
          && Tables(settings[..n]).1[rank] == settings[..n][k].pTMscore
          && forall j :: k < j < n ==> settings[..n][j].rank != rank;
        assert settings[k].rank == rank;
      } else {
        forall k | 0 <= k < |settings|
          ensures settings[k].rank != rank
        {
          if k < n {
            assert settings[k] == settings[..n][k];
          }
        }
      }
    }
  }

  /** The join: every catalog row keeps its place, and its two scores come
      from the last settings match for its rank, or are missing when no
      match names the rank. */
  lemma JoinedScores(cat: seq<Entry>, settings: seq<Setting>, k: nat)
    requires cat != [] && k < |cat|
    ensures AddSettings(cat, Some(settings)).Ok?
    ensures var row := AddSettings(cat, Some(settings)).value[k];
      && row.entry == cat[k]
      && (row.pLDDT.None? <==> forall j :: 0 <= j < |settings| ==> settings[j].rank != cat[k].rank)
      && row.pTMscore.None? == row.pLDDT.None?
      && (row.pLDDT.Some? ==>
        exists j :: 0 <= j < |settings| && settings[j].rank == cat[k].rank
          && row.pLDDT.value == settings[j].pLDDT && row.pTMscore.value == settings[j].pTMscore
          && forall i :: j < i < |settings| ==> settings[i].rank != cat[k].rank)
  {
    TablesHoldLastMatch(settings, cat[k].rank);
  }

  /** A listing of structured filenames gives one row per file, in listing
      order. */
  lemma {:induction false} RecordsOfFields(folder: string, listing: seq<Listing>)
    requires forall k :: 0 <= k < |listing| ==> listing[k].parse.Fields?
    ensures Records(folder, listing).Ok?
    ensures |Records(folder, listing).value| == |listing|
    ensures forall k :: 0 <= k < |listing| ==> Records(folder, listing).value[k] == ToEntry(folder, listing[k])
  {
    if listing != [] {
      var n := |listing| - 1;
      var prefix := listing[..n];
      RecordsOfFields(folder, prefix);
      assert Records(folder, listing) == Visit(folder, Records(folder, prefix), listing[n]);
    }
  }

  /** A directory with ranks 1 to 3, rank 2 first relaxed then unrelaxed,
      and a settings file among them: three rows in listing order, rank 2
      keeping its relaxed file. */
  lemma ThreeRanksCatalog(folder: string, one: Listing, two: Listing, skip: Listing, again: Listing, three: Listing)
    requires one.parse.Fields? && one.parse.rank == 1
    requires two.parse.Fields? && two.parse.rank == 2 && !Contains(two.parse.state, "unrelaxed")
    requires skip.parse.Unranked?
    requires again.parse.Fields? && again.parse.rank == 2
    requires three.parse.Fields? && three.parse.rank == 3
    ensures MakeCatalog(folder, [one, two, skip, again, three])
      == Ok([ToEntry(folder, one), ToEntry(folder, two), ToEntry(folder, three)])
  {
    var listing := [one, two, skip, again, three];
    RecordsIgnoreUnranked(folder, listing);
    RankedSkipsOne(one, two, skip, again, three);
    RecordsOfFields(folder, [one, two, again, three]);
    var e1, e2, e2u, e3 := ToEntry(folder, one), ToEntry(folder, two), ToEntry(folder, again), ToEntry(folder, three);
    assert Records(folder, listing).value == [e1, e2, e2u, e3];
    MergeKeepsRelaxedTwo(e1, e2, e2u, e3);
  }

  lemma RankedSkipsOne(one: Listing, two: Listing, skip: Listing, again: Listing, three: Listing)
    requires !one.parse.Unranked? && !two.parse.Unranked? && skip.parse.Unranked?
    requires !again.parse.Unranked? && !three.parse.Unranked?
    ensures Ranked([one, two, skip, again, three]) == [one, two, again, three]
  {
    var listing := [one, two, skip, again, three];
    assert Ranked([one]) == [one] by { assert [one][..0] == []; }
    assert Ranked([one, two]) == [one, two] by { assert [one, two][..1] == [one]; }
    assert Ranked([one, two, skip]) == [one, two] by { assert [one, two, skip][..2] == [one, two]; }
    assert Ranked([one, two, skip, again]) == [one, two, again] by { assert [one, two, skip, again][..3] == [one, two, skip]; }
    assert listing[..4] == [one, two, skip, again];
  }

  lemma MergeKeepsRelaxedTwo(e1: Entry, e2: Entry, e2u: Entry, e3: Entry)
    requires e1.rank == 1 && e2.rank == 2 && e2.relaxed && e2u.rank == 2 && e3.rank == 3
    ensures Merge([e1, e2, e2u, e3]) == [e1, e2, e3]
  {
    var es := [e1, e2, e2u, e3];
    assert es[..3] == [e1, e2, e2u] && es[..3][..2] == [e1, e2] && es[..3][..2][..1] == [e1];
    assert Merge([e1]) == [e1];
    assert Merge([e1, e2]) == [e1, e2];
    assert Merge([e1, e2, e2u]) == [e1, e2];
  }

  /** Settings for ranks 1 and 2 only: their rows get the scores, the rank 3
      row gets none. */
  lemma SettingsMissRank(cat: seq<Entry>)
    requires Ranks(cat) == [1, 2, 3]
    ensures var joined := AddSettings(cat, Some([Setting(1, 91.5, 0.75), Setting(2, 88.0, 0.5)]));
      && joined.Ok?
      && joined.value[0].pLDDT == Some(91.5) && joined.value[1].pTMscore == Some(0.5)
      && joined.value[2].pLDDT.None? && joined.value[2].pTMscore.None?
  {
    assert Ranks(cat)[0] == 1 && Ranks(cat)[1] == 2 && Ranks(cat)[2] == 3;
    var settings := [Setting(1, 91.5, 0.75), Setting(2, 88.0, 0.5)];
    assert settings[..1] == [Setting(1, 91.5, 0.75)] && settings[..1][..0] == [];
    assert Tables(settings).0 == map[1 := 91.5, 2 := 88.0];
    assert Tables(settings).1 == map[1 := 0.75, 2 := 0.5];
  }
}
