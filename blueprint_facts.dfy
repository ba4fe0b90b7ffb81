/** What the blueprint editor promises, proved about the functions that
    specify its methods (module Blueprint). */
module BlueprintFacts {
  import opened Common
  import opened Text
  import opened Blueprint

  /** Iteration keeps stored order: it distributes over concatenation. */
  lemma {:induction false} LiveConcat(a: seq<Row>, b: seq<Row>)
    ensures Live(a + b) == Live(a) + Live(b)
  {
    if b == [] {
      assert a + b == a;
    } else {
      var n := |b| - 1;
      LiveConcat(a, b[..n]);
      assert (a + b)[..|a + b| - 1] == a + b[..n];
      assert (a + b)[|a + b| - 1] == b[n];
    }
  }

  /** Iteration visits exactly the live rows. */
  lemma {:induction false} LiveMembers(rows: seq<Row>)
    ensures forall x :: x in Live(rows) <==> x in rows && x.Line?
  {
    if rows != [] {
      var n := |rows| - 1;
      LiveMembers(rows[..n]);
      assert rows == rows[..n] + [rows[n]];
    }
  }

  /** A row emptied by `del` keeps its place in the list, and iteration
      visits every other row as before. */
  lemma DeletedRowNotIterated(rows: seq<Row>, p: nat)
    requires p < |rows|
    ensures |rows[p := Deleted]| == |rows|
    ensures Live(rows[p := Deleted]) == Live(rows[..p]) + Live(rows[p + 1..])
    ensures Live(rows) == Live(rows[..p]) + (if rows[p].Line? then [rows[p]] else []) + Live(rows[p + 1..])
  {
    assert rows[p := Deleted] == rows[..p] + [Deleted] + rows[p + 1..];
    LiveConcat(rows[..p] + [Deleted], rows[p + 1..]);
    LiveConcat(rows[..p], [Deleted]);
    assert [Deleted][..0] == [];
    assert rows == rows[..p] + [rows[p]] + rows[p + 1..];
    LiveConcat(rows[..p] + [rows[p]], rows[p + 1..]);
    LiveConcat(rows[..p], [rows[p]]);
    assert [rows[p]][..0] == [];
  }

  /** A soft-deleted row never shows in `str(self)`. */
  lemma RenderIgnoresDeleted(rows: seq<Row>, k: nat)
    requires k <= |rows|
    ensures Render(rows[..k] + [Deleted] + rows[k..]) == Render(rows)
  {
    LiveConcat(rows[..k] + [Deleted], rows[k..]);
    LiveConcat(rows[..k], [Deleted]);
    assert [Deleted][..0] == [];
    assert Live([Deleted]) == [];
    LiveConcat(rows[..k], rows[k..]);
    assert rows[..k] + rows[k..] == rows;
    assert Live(rows[..k] + [Deleted] + rows[k..]) == Live(rows);
  }

  /** Two row lists that agree on which positions carry index `i` agree on
      the lookup of `i`. */
  lemma FindDependsOnMatches(a: seq<Row>, b: seq<Row>, i: int)
    requires |a| == |b|
    requires forall k :: 0 <= k < |a| ==> (Matches(a[k], i) <==> Matches(b[k], i))
    ensures Find(a, i) == Find(b, i)
  {
    match Find(a, i)
    case None =>
    case Some(p) =>
      if Find(b, i).Some? {
        var q := Find(b, i).value;
        assert !(q < p) && !(p < q);
      }
  }

  /** Rewriting a live row without changing its index changes no lookup. */
  lemma FindKeepsRewrittenRow(rows: seq<Row>, p: nat, row: Row, i: int)
    requires p < |rows| && rows[p].Line? && row.Line? && row.index == rows[p].index
    ensures Find(rows[p := row], i) == Find(rows, i)
  {
    FindDependsOnMatches(rows[p := row], rows, i);
  }

  /** The first live row carrying `i` is the one lookup finds. */
  lemma FindFirst(rows: seq<Row>, i: int, p: nat)
    requires p < |rows| && Matches(rows[p], i)
    requires forall k :: 0 <= k < p ==> !Matches(rows[k], i)
    ensures Find(rows, i) == Some(p)
  {
    if Find(rows, i).Some? {
      var q := Find(rows, i).value;
      assert !(q < p) && !(p < q);
    }
  }

  /** After `del self[i]`, `self[i]` finds the next live row carrying `i`, if
      there is one, and raises `ValueError` otherwise. */
  lemma FindAfterDelete(rows: seq<Row>, i: int, p: nat)
    requires Find(rows, i) == Some(p)
    ensures Find(rows[p := Deleted], i) ==
            match Find(rows[p + 1..], i)
            case Some(q) => Some(p + 1 + q)
            case None => None
  {
    match Find(rows[p + 1..], i)
    case None => FindAfterDeleteNone(rows, i, p);
    case Some(q) => FindAfterDeleteNext(rows, i, p, q);
  }

  lemma FindAfterDeleteNone(rows: seq<Row>, i: int, p: nat)
    requires Find(rows, i) == Some(p) && Find(rows[p + 1..], i).None?
    ensures Find(rows[p := Deleted], i).None?
  {
    var d := rows[p := Deleted];
    forall k | 0 <= k < |d|
      ensures !Matches(d[k], i)
    {
      if k > p {
        assert d[k] == rows[p + 1..][k - p - 1];
      }
    }
  }

  lemma FindAfterDeleteNext(rows: seq<Row>, i: int, p: nat, q: nat)
    requires Find(rows, i) == Some(p) && Find(rows[p + 1..], i) == Some(q)
    ensures Find(rows[p := Deleted], i) == Some(p + 1 + q)
  {
    var d := rows[p := Deleted];
    forall k | 0 <= k < p + 1 + q
      ensures !Matches(d[k], i)
    {
      if k > p {
        assert d[k] == rows[p + 1..][k - p - 1];
      }
    }
    assert d[p + 1 + q] == rows[p + 1..][q];
    FindFirst(d, i, p + 1 + q);
  }

  /** `max()` lists exactly the indices that `self[i]` can find. */
  lemma MaxListsFindableIndices(rows: seq<Row>, i: int)
    ensures i in Indices(rows) <==> Find(rows, i).Some?
  {
    var live := Live(rows);
    LiveMembers(rows);
    if i in Indices(rows) {
      var k :| 0 <= k < |live| && Indices(rows)[k] == i;
      assert live[k] in rows;
      var q :| 0 <= q < |rows| && rows[q] == live[k];
      assert Matches(rows[q], i);
    }
    if Find(rows, i).Some? {
      var p := Find(rows, i).value;
      assert rows[p] in live;
      var k :| 0 <= k < |live| && live[k] == rows[p];
      assert Indices(rows)[k] == i;
    }
  }

  /** A slice without its start raises exactly when iteration visits a
      row at all; one without its stop raises exactly when `max()` lists an
      index at or above its start. */
  lemma OpenSpanFails(rows: seq<Row>, from: Option<int>)
    ensures from.None? ==> (OpenFails(rows, from) <==> Live(rows) != [])
    ensures from.Some? ==> (OpenFails(rows, from) <==> exists i :: i in Indices(rows) && from.value <= i)
  {
    var live := Live(rows);
    LiveMembers(rows);
    if OpenFails(rows, from) {
      var k :| 0 <= k < |rows| && ComparesWithNone(rows[k], from);
      assert rows[k] in live;
      var j :| 0 <= j < |live| && live[j] == rows[k];
      assert Indices(rows)[j] == rows[k].index;
      assert rows[k].index in Indices(rows);
    }
    if from.None? && live != [] {
      assert live[0] in rows;
    }
    if from.Some? && exists i :: i in Indices(rows) && from.value <= i {
      var i :| i in Indices(rows) && from.value <= i;
      var j :| 0 <= j < |live| && Indices(rows)[j] == i;
      assert live[j] in rows;
      var k :| 0 <= k < |rows| && rows[k] == live[j];
      assert ComparesWithNone(rows[k], from);
    }
  }

  lemma {:induction false} JoinAvoids(sep: string, xs: seq<string>, c: char)
    requires c !in sep
    requires forall k :: 0 <= k < |xs| ==> c !in xs[k]
    ensures c !in Join(sep, xs)
  {
    if |xs| > 1 {
      JoinAvoids(sep, xs[1..], c);
    }
  }

  /** `str(self)` holds one line per live row, in stored order, each the
      row's fields joined by spaces, when no field contains a newline. */
  lemma RenderLines(rows: seq<Row>)
    requires |Live(rows)| >= 1
    requires forall k :: 0 <= k < |rows| && rows[k].Line? ==>
               forall f :: 0 <= f < |rows[k].fields| ==> '\n' !in rows[k].fields[f]
    ensures Split(Render(rows), '\n') == RowTexts(Live(rows))
  {
    var live := Live(rows);
    LiveMembers(rows);
    forall k | 0 <= k < |live|
      ensures '\n' !in RowText(live[k])
    {
      var q :| 0 <= q < |rows| && rows[q] == live[k];
      var parts := [Decimal(live[k].index)] + live[k].fields;
      assert forall f :: 0 <= f < |parts| ==> '\n' !in parts[f];
      JoinAvoids(" ", parts, '\n');
    }
    SplitJoin(RowTexts(live), '\n');
  }

  /** How many live rows precede a position all of whose predecessors are live. */
  lemma {:induction false} LiveOfLivePrefix(rows: seq<Row>, p: nat)
    requires p <= |rows|
    requires forall q :: 0 <= q < p ==> rows[q].Line?
    ensures |Live(rows[..p])| == p
  {
    if p > 0 {
      LiveOfLivePrefix(rows, p - 1);
      assert rows[..p][..p - 1] == rows[..p - 1];
    }
  }

  /** A wobble step that succeeds changes no lookup, and leaves the row it
      found with a design column. */
  lemma WobbleKeepsLookups(rows: seq<Row>, i: int, ss: int -> string, t: int)
    requires WellFormed(rows) && WobbleAt(rows, i, ss).Ok?
    ensures Find(WobbleAt(rows, i, ss).value, t) == Find(rows, t)
    ensures var p := Find(rows, i).value;
            WobbleAt(rows, i, ss).value[p].Length() >= 4 &&
            forall k :: 0 <= k < |rows| && k != p ==> WobbleAt(rows, i, ss).value[k] == rows[k]
  {
    var p := Find(rows, i).value;
    if rows[p].Length() <= 3 {
      FindKeepsRewrittenRow(rows, p, Rewrite(rows[p], ss(i), "NATAA"), t);
    }
  }

  /** An insertion keeps every row lookup found; the rows it adds carry
      index 0, so lookups of any other index find a row afterwards only if
      they did before. */
  lemma SpliceKeepsLookups(rows: seq<Row>, at: nat, values: seq<string>, t: int)
    requires at <= |rows|
    ensures Find(rows, t).Some? ==> Find(Splice(rows, at, values), t).Some?
    ensures t != 0 && Find(rows, t).None? ==> Find(Splice(rows, at, values), t).None?
  {
    var s := Splice(rows, at, values);
    var n := |values|;
    if Find(rows, t).Some? {
      var p := Find(rows, t).value;
      if p < at {
        assert s[p] == rows[p];
      } else {
        assert s[p + n] == rows[p];
      }
    }
    if t != 0 && Find(s, t).Some? {
      var p := Find(s, t).value;
      if p < at {
        assert s[p] == rows[p];
      } else if p >= at + n {
        assert s[p] == rows[p - n];
      }
    }
  }

  /** `b` is `a` with some rows lacking a design column rewritten, every
      index kept. */
  ghost predicate Retouched(a: seq<Row>, b: seq<Row>) {
    |a| == |b| &&
    forall k :: 0 <= k < |a| ==>
      b[k] == a[k] || (a[k].Line? && a[k].Length() <= 3 && b[k].Line? && b[k].index == a[k].index)
  }

  /** The rows an `insert_before` leaves behind, whether the wobble step
      completes or raises, are the spliced rows retouched. */
  lemma InsertBeforeRetouches(rows: seq<Row>, idx: int, value: Value, ss: int -> string, p: nat)
    requires WellFormed(rows) && !value.OtherValue?
    requires Find(rows, idx) == Some(p)
    ensures Retouched(Splice(rows, |Live(rows[..p])|, Values(value)), InsertEffect(rows, idx, value, true, ss).1)
  {
    var spliced := Splice(rows, |Live(rows[..p])|, Values(value));
    var w1 := WobbleAt(spliced, idx, ss);
    if w1.Ok? {
      var w2 := WobbleAt(w1.value, idx - 1, ss);
      if w2.Ok? {
        assert Retouched(w1.value, w2.value);
      }
    }
  }

  /** `insert_before(idx, ...)`, when no emptied row precedes the row for
      `idx`: the new rows, in the given order, sit immediately before that
      row, whatever the wobble step then does. */
  lemma InsertBeforePlacesRows(rows: seq<Row>, idx: int, value: Value, ss: int -> string, p: nat)
    requires WellFormed(rows) && !value.OtherValue?
    requires Find(rows, idx) == Some(p)
    requires forall q :: 0 <= q < p ==> rows[q].Line?
    ensures var r := InsertEffect(rows, idx, value, true, ss).1;
            var n := |Values(value)|;
            |r| == |rows| + n &&
            (forall j :: 0 <= j < n ==> r[p + j] == NewRow(Values(value)[j])) &&
            Matches(r[p + n], idx)
  {
    LiveOfLivePrefix(rows, p);
    InsertBeforeRetouches(rows, idx, value, ss, p);
    var values := Values(value);
    var n := |values|;
    var spliced := Splice(rows, p, values);
    var r := InsertEffect(rows, idx, value, true, ss).1;
    forall j | 0 <= j < n
      ensures r[p + j] == NewRow(values[j])
    {
      SpliceAt(rows, p, values, j);
      RetouchedAt(spliced, r, p + j);
    }
    SpliceAt(rows, p, values, n);
    RetouchedAt(spliced, r, p + n);
  }

  /** Position `at + j` of a splice: the `j`-th new row, or the row that
      was at `at` once every new row is counted. */
  lemma SpliceAt(rows: seq<Row>, at: nat, values: seq<string>, j: nat)
    requires at <= |rows| && j <= |values| && (j == |values| ==> at < |rows|)
    ensures at + j < |Splice(rows, at, values)|
    ensures j < |values| ==> Splice(rows, at, values)[at + j] == NewRow(values[j])
    ensures j == |values| ==> Splice(rows, at, values)[at + j] == rows[at]
  {
  }

  /** What retouching leaves of one row: a row with a design column is
      kept, and every live row keeps its index. */
  lemma RetouchedAt(a: seq<Row>, b: seq<Row>, k: nat)
    requires Retouched(a, b) && k < |a|
    ensures a[k].Line? && a[k].Length() > 3 ==> b[k] == a[k]
    ensures a[k].Line? ==> b[k].Line? && b[k].index == a[k].index
  {
  }

  /** `insert_after(idx, ...)` always raises `TypeError` once the row for
      `idx` exists, and only after the new rows are in place right after it
      (when no emptied row precedes it). */
  lemma InsertAfterRaisesOnceInserted(rows: seq<Row>, idx: int, value: Value, ss: int -> string, p: nat)
    requires WellFormed(rows) && !value.OtherValue?
    requires Find(rows, idx) == Some(p)
    requires forall q :: 0 <= q < p ==> rows[q].Line?
    ensures var (out, r) := InsertEffect(rows, idx, value, false, ss);
            var n := |Values(value)|;
            out == Raised(TypeError) && |r| == |rows| + n &&
            r[..p + 1] == rows[..p + 1] &&
            r[p + 1..p + 1 + n] == NewRows(Values(value)) &&
            r[p + 1 + n..] == rows[p + 1..]
  {
    LiveOfLivePrefix(rows, p);
  }

  /** A completed `insert_before(idx, ...)` leaves the rows that `self[idx]`
      and `self[idx - 1]` find with a design column. */
  lemma InsertBeforeWobblesNeighbours(rows: seq<Row>, idx: int, value: Value, ss: int -> string)
    requires WellFormed(rows)
    requires InsertEffect(rows, idx, value, true, ss).0 == Returned
    ensures var r := InsertEffect(rows, idx, value, true, ss).1;
            Find(r, idx).Some? && r[Find(r, idx).value].Length() >= 4 &&
            Find(r, idx - 1).Some? && r[Find(r, idx - 1).value].Length() >= 4
  {
    var p := Find(rows, idx).value;
    var spliced := Splice(rows, |Live(rows[..p])|, Values(value));
    var once := WobbleAt(spliced, idx, ss).value;
    var twice := WobbleAt(once, idx - 1, ss).value;
    WobbleKeepsLookups(spliced, idx, ss, idx);
    WobbleKeepsLookups(once, idx - 1, ss, idx);
    WobbleKeepsLookups(once, idx - 1, ss, idx - 1);
  }

  /** `insert_before(idx, ...)` where no row carries `idx - 1` (the first
      residue, say) raises `ValueError` from the wobble step, after the new
      rows are already in place. */
  lemma InsertBeforeFirstRaises(rows: seq<Row>, idx: int, value: Value, ss: int -> string)
    requires WellFormed(rows) && !value.OtherValue?
    requires Find(rows, idx).Some? && Find(rows, idx - 1).None? && idx != 1
    ensures var (out, r) := InsertEffect(rows, idx, value, true, ss);
            out == Raised(ValueError) && |r| == |rows| + |Values(value)|
  {
    var p := Find(rows, idx).value;
    var spliced := Splice(rows, |Live(rows[..p])|, Values(value));
    SpliceKeepsLookups(rows, |Live(rows[..p])|, Values(value), idx);
    SpliceKeepsLookups(rows, |Live(rows[..p])|, Values(value), idx - 1);
    WobbleKeepsLookups(spliced, idx, ss, idx - 1);
  }

  /** The insertion point counts live rows only: with an emptied row in
      front, `insert_before(2, 'V')` lands before residue 1, not residue 2. */
  lemma InsertBeforeShiftedByDeletedRow(ss: int -> string)
    ensures InsertEffect([Deleted, Line(1, ["A", "L"]), Line(2, ["G", "L"])], 2, Single("V"), true, ss)
            == (Returned, [Deleted, NewRow("V"), Line(1, ["A", ss(1), "NATAA"]), Line(2, ["G", ss(2), "NATAA"])])
  {
    ShiftedSplice();
    ShiftedWobbleIdx(ss);
    ShiftedWobblePrevious(ss);
  }

  /** In that example the row for 2 is at position 2, one live row precedes
      it, and the new row goes in at position 1. */
  lemma ShiftedSplice()
    ensures var rows := [Deleted, Line(1, ["A", "L"]), Line(2, ["G", "L"])];
      && Find(rows, 2) == Some(2)
      && |Live(rows[..2])| == 1
      && Splice(rows, 1, ["V"]) == [Deleted, NewRow("V"), Line(1, ["A", "L"]), Line(2, ["G", "L"])]
  {
    var rows := [Deleted, Line(1, ["A", "L"]), Line(2, ["G", "L"])];
    FindFirst(rows, 2, 2);
    assert rows[..2] == [Deleted, Line(1, ["A", "L"])];
    assert rows[..2][..1] == [Deleted];
    assert [Deleted][..0] == [];
  }

  /** The first wobble step of that example rewrites residue 2. */
  lemma ShiftedWobbleIdx(ss: int -> string)
    ensures WobbleAt([Deleted, NewRow("V"), Line(1, ["A", "L"]), Line(2, ["G", "L"])], 2, ss)
            == Ok([Deleted, NewRow("V"), Line(1, ["A", "L"]), Line(2, ["G", ss(2), "NATAA"])])
  {
    var rows := [Deleted, NewRow("V"), Line(1, ["A", "L"]), Line(2, ["G", "L"])];
    FindFirst(rows, 2, 3);
    assert rows[3].Length() == 3;
    assert rows[3 := Rewrite(rows[3], ss(2), "NATAA")] == [Deleted, NewRow("V"), Line(1, ["A", "L"]), Line(2, ["G", ss(2), "NATAA"])];
  }

  /** The second wobble step of that example rewrites residue 1. */
  lemma ShiftedWobblePrevious(ss: int -> string)
    ensures WobbleAt([Deleted, NewRow("V"), Line(1, ["A", "L"]), Line(2, ["G", ss(2), "NATAA"])], 1, ss)
            == Ok([Deleted, NewRow("V"), Line(1, ["A", ss(1), "NATAA"]), Line(2, ["G", ss(2), "NATAA"])])
  {
    var rows := [Deleted, NewRow("V"), Line(1, ["A", "L"]), Line(2, ["G", ss(2), "NATAA"])];
    FindFirst(rows, 1, 2);
    assert rows[2].Length() == 3;
    assert rows[2 := Rewrite(rows[2], ss(1), "NATAA")] == [Deleted, NewRow("V"), Line(1, ["A", ss(1), "NATAA"]), Line(2, ["G", ss(2), "NATAA"])];
  }
}
