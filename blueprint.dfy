/** The blueprint editor `BlueprinterSubscripted`: a list of rows edited in
    place and addressed by the residue index held in column 0 of each row
    (blueprint_maker/_subscripted.py). Rows are Python lists that lookups
    return by reference and the editing operations then change; the model
    returns the POSITION of a row in `rows` instead and changes `rows` at that
    position. */
module Blueprint {
  import opened Common
  import opened Text

  /** One row, as a Python list: emptied by a soft deletion (`[]`), or a
      residue index (column 0) followed by the text columns (amino acid,
      secondary structure and, once set, the design value). */
  datatype Row = Deleted | Line(index: int, fields: seq<string>)
  {
    /** `len(row)`. */
    function Length(): nat {
      if Deleted? then 0 else 1 + |fields|
    }
  }

  /** The subscript of `self[key]`: an int, a slice with both bounds, a
      slice with a bound left out, or anything else. An open slice is known
      by its start: `OpenSpan(None)` lacks its start (`[:9]`, `[:]`), and
      `OpenSpan(Some(5))` has a start but no stop (`[5:]`). */
  datatype Key = At(i: int) | Span(start: int, stop: int) | OpenSpan(from: Option<int>) | OtherKey

  /** The value given to `insert`: a `str`, a `list` of them, or anything else. */
  datatype Value = Single(s: string) | Several(xs: seq<string>) | OtherValue

  /** What `self[key]` returns: one row, or the list of rows of a slice. */
  datatype Selection = One(position: nat) | Many(positions: seq<nat>)

  /** Every live row has its amino-acid column (column 1). */
  predicate WellFormed(rows: seq<Row>) {
    forall k :: 0 <= k < |rows| ==> rows[k].Line? ==> |rows[k].fields| >= 1
  }

  /** A live row carrying residue index `i`. */
  predicate Matches(row: Row, i: int) {
    row.Line? && row.index == i
  }

  /** A live row inside the inclusive slice `start..stop`. */
  predicate InSpan(row: Row, start: int, stop: int) {
    row.Line? && start <= row.index <= stop
  }

  /** `filter(len, rows)`: the rows that iteration visits, in stored order. */
  function Live(rows: seq<Row>): (live: seq<Row>)
    ensures |live| <= |rows|
    ensures forall k :: 0 <= k < |live| ==> live[k].Line?
  {
    if rows == [] then []
    else
      var n := |rows| - 1;
      Live(rows[..n]) + (if rows[n].Line? then [rows[n]] else [])
  }

  /** The position of the first live row with index `i`: the row `self[i]`
      returns. */
  function Find(rows: seq<Row>, i: int): (r: Option<nat>)
    ensures r.Some? ==> r.value < |rows| && Matches(rows[r.value], i)
    ensures r.Some? ==> forall k :: 0 <= k < r.value ==> !Matches(rows[k], i)
    ensures r.None? ==> forall k :: 0 <= k < |rows| ==> !Matches(rows[k], i)
  {
    if rows == [] then None
    else if Matches(rows[0], i) then Some(0)
    else
      match Find(rows[1..], i)
      case None => None
      case Some(p) => Some(p + 1)
  }

  /** What `self[i]` gives back: the row's position, or `ValueError`. */
  function Found(rows: seq<Row>, i: int): Result<nat> {
    match Find(rows, i)
    case Some(p) => Ok(p)
    case None => Raise(ValueError)
  }

  /** The positions of the live rows whose index lies in `start..stop`, both
      ends included, in stored order: the rows `self[start:stop]` returns. */
  function SpanPositions(rows: seq<Row>, start: int, stop: int): (ps: seq<nat>)
    ensures forall j :: 0 <= j < |ps| ==> ps[j] < |rows| && InSpan(rows[ps[j]], start, stop)
    ensures forall k :: 0 <= k < |rows| && InSpan(rows[k], start, stop) ==> k in ps
    ensures forall j, j' :: 0 <= j < j' < |ps| ==> ps[j] < ps[j']
  {
    if rows == [] then []
    else
      var n := |rows| - 1;
      SpanPositions(rows[..n], start, stop) + (if InSpan(rows[n], start, stop) then [n] else [])
  }

  /** Whether the slice test of an open slice reaches a missing bound on
      `row`: the comparison with a missing start comes first, and one with
      a missing stop is made only once `index >= start` holds. */
  predicate ComparesWithNone(row: Row, from: Option<int>) {
    row.Line? && (from.None? || from.value <= row.index)
  }

  /** The open slice raises `TypeError` (an int compared with `None`) on
      some row. */
  predicate OpenFails(rows: seq<Row>, from: Option<int>) {
    exists k :: 0 <= k < |rows| && ComparesWithNone(rows[k], from)
  }

  /** `_setrow(row, design)`: keep columns 0 and 1, then the secondary
      structure `ss` of the row's index and the design value. */
  function Rewrite(row: Row, ss: string, design: string): Row
    requires row.Line? && |row.fields| >= 1
  {
    Line(row.index, [row.fields[0], ss, design])
  }

  /** The design value a slice assignment gives one row: each `*` in `value`
      stands for the row's own amino acid (column 1). */
  function Design(row: Row, value: string): (r: string)
    requires row.Line? && |row.fields| >= 1
    ensures r == Join(row.fields[0], Split(value, '*'))
    ensures '*' !in value ==> r == value
  {
    if '*' in value then ReplaceChar(value, '*', row.fields[0])
    else
      SplitPiece(value, '*', "");
      value
  }

  /** One row of a slice assignment, rewritten. */
  function Rewritten(row: Row, value: string, ss: int -> string): Row
    requires row.Line? && |row.fields| >= 1
  {
    Rewrite(row, ss(row.index), Design(row, value))
  }

  /** The rows after `self[start:stop] = value`. */
  function RewriteSpan(rows: seq<Row>, start: int, stop: int, value: string, ss: int -> string): seq<Row>
    requires WellFormed(rows)
  {
    seq(|rows|, k requires 0 <= k < |rows| =>
      if InSpan(rows[k], start, stop) then Rewritten(rows[k], value, ss) else rows[k])
  }

  /** The rows at positions `ps[..j]` already hold their `target` value,
      the others their value `before`. */
  ghost predicate UpdatedUpTo(before: seq<Row>, rows: seq<Row>, target: seq<Row>, ps: seq<nat>, j: nat)
    requires |target| == |before| && j <= |ps|
  {
    |rows| == |before| &&
    forall k :: 0 <= k < |rows| ==> rows[k] == if k in ps[..j] then target[k] else before[k]
  }

  /** One more turn of a loop that writes the target value at each
      position of `ps`, which are increasing. */
  lemma UpdateNext(before: seq<Row>, rows: seq<Row>, target: seq<Row>, ps: seq<nat>, j: nat)
    requires |target| == |before| && j < |ps| && ps[j] < |before|
    requires forall a, b :: 0 <= a < b < |ps| ==> ps[a] < ps[b]
    requires UpdatedUpTo(before, rows, target, ps, j)
    ensures rows[ps[j]] == before[ps[j]]
    ensures UpdatedUpTo(before, rows[ps[j] := target[ps[j]]], target, ps, j + 1)
  {
    var p := ps[j];
    assert p !in ps[..j];
    assert ps[..j + 1] == ps[..j] + [p];
  }

  /** The slice-assignment loop, once every position of the slice is done. */
  lemma RewriteDone(before: seq<Row>, rows: seq<Row>, start: int, stop: int, value: string, ss: int -> string)
    requires WellFormed(before)
    requires var ps := SpanPositions(before, start, stop);
      UpdatedUpTo(before, rows, RewriteSpan(before, start, stop, value, ss), ps, |ps|)
    ensures rows == RewriteSpan(before, start, stop, value, ss)
  {
    var ps := SpanPositions(before, start, stop);
    assert ps[..|ps|] == ps;
  }

  /** The rows after `del self[start:stop]`. */
  function DeleteSpan(rows: seq<Row>, start: int, stop: int): seq<Row> {
    seq(|rows|, k requires 0 <= k < |rows| => if InSpan(rows[k], start, stop) then Deleted else rows[k])
  }

  /** `[int(row[0]) for row in self]`: what `max()` returns. */
  function Indices(rows: seq<Row>): seq<int> {
    var live := Live(rows);
    seq(|live|, k requires 0 <= k < |live| => live[k].index)
  }

  /** The row `insert` adds for one value: `[0, 'X', 'D', val]`. */
  function NewRow(val: string): Row {
    Line(0, ["X", "D", val])
  }

  function NewRows(values: seq<string>): seq<Row> {
    seq(|values|, j requires 0 <= j < |values| => NewRow(values[j]))
  }

  /** `rows` with one new row per value inserted, in order, at position `at`. */
  function Splice(rows: seq<Row>, at: nat, values: seq<string>): (r: seq<Row>)
    requires at <= |rows|
    ensures |r| == |rows| + |values|
    ensures WellFormed(rows) ==> WellFormed(r)
  {
    rows[..at] + NewRows(values) + rows[at..]
  }

  /** `if len(self[i]) <= 3: self[i] = 'NATAA'`. */
  function WobbleAt(rows: seq<Row>, i: int, ss: int -> string): (r: Result<seq<Row>>)
    requires WellFormed(rows)
    ensures r.Ok? ==> |r.value| == |rows| && WellFormed(r.value)
    ensures r.Ok? ==> forall k :: 0 <= k < |rows| ==>
              r.value[k] == rows[k] ||
              (rows[k].Line? && rows[k].Length() <= 3 && r.value[k] == Rewrite(rows[k], ss(rows[k].index), "NATAA"))
    ensures r.Raise? <==> Find(rows, i).None?
  {
    match Find(rows, i)
    case None => Raise(ValueError)
    case Some(p) =>
      if rows[p].Length() <= 3 then Ok(rows[p := Rewrite(rows[p], ss(i), "NATAA")]) else Ok(rows)
  }

  /** The values `insert` homogenises its argument to. */
  function Values(value: Value): seq<string>
    requires !value.OtherValue?
  {
    if value.Single? then [value.s] else value.xs
  }

  /** How `insert(idx, value, before)` ends and the rows it leaves behind. */
  function InsertEffect(rows: seq<Row>, idx: int, value: Value, before: bool, ss: int -> string): (Outcome, seq<Row>)
    requires WellFormed(rows)
  {
    if value.OtherValue? then (Raised(TypeError), rows)
    else
      match Find(rows, idx)
      case None => (Raised(ValueError), rows)
      case Some(p) =>
        // `enumerate(self)` counts live rows only, but the new rows go into
        // the full list at that count
        var i := |Live(rows[..p])|;
        if !before then
          // `self.max() >= idx + 1` compares a list with an int
          (Raised(TypeError), Splice(rows, i + 1, Values(value)))
        else
          var spliced := Splice(rows, i, Values(value));
          match WobbleAt(spliced, idx, ss)
          case Raise(e) => (Raised(e), spliced)
          case Ok(once) =>
            match WobbleAt(once, idx - 1, ss)
            case Raise(e) => (Raised(e), once)
            case Ok(twice) => (Returned, twice)
  }

  /** The text of one row: its fields joined with spaces. */
  function RowText(row: Row): string
    requires row.Line?
  {
    Join(" ", [Decimal(row.index)] + row.fields)
  }

  function RowTexts(live: seq<Row>): seq<string>
    requires forall k :: 0 <= k < |live| ==> live[k].Line?
  {
    seq(|live|, k requires 0 <= k < |live| => RowText(live[k]))
  }

  /** `str(self)`: the live rows, one per line. */
  function Render(rows: seq<Row>): string {
    Join("\n", RowTexts(Live(rows)))
  }

  /** `BlueprinterSubscripted`: the rows and the `get_ss` it relies on. */
  class Blueprinter {
    var rows: seq<Row>
    /** `get_ss`: the secondary structure of a residue index, defined
        outside this class. */
    const getSs: int -> string

    ghost predicate Valid()
      reads this
    {
      WellFormed(rows)
    }

    constructor (rows: seq<Row>, getSs: int -> string)
      requires WellFormed(rows)
      ensures Valid() && this.rows == rows && this.getSs == getSs
    {
      this.rows := rows;
      this.getSs := getSs;
    }

    /** `self[i]` for an int `i`: a linear scan of the live rows. */
    method Lookup(i: int) returns (r: Result<nat>)
      ensures r == Found(rows, i)
    {
      var k := 0;
      while k < |rows|
        invariant 0 <= k <= |rows|
        invariant forall q :: 0 <= q < k ==> !Matches(rows[q], i)
      {
        if rows[k].Line? && rows[k].index == i {
          return Ok(k);
        }
        k := k + 1;
      }
      return Raise(ValueError);
    }

    /** `self[start:stop]`: the live rows with `start <= index <= stop`. */
    method LookupSpan(start: int, stop: int) returns (ps: seq<nat>)
      ensures ps == SpanPositions(rows, start, stop)
    {
      ps := [];
      var k := 0;
      while k < |rows|
        invariant 0 <= k <= |rows|
        invariant ps == SpanPositions(rows[..k], start, stop)
      {
        assert rows[..k + 1][..k] == rows[..k];
        if rows[k].Line? && start <= rows[k].index && rows[k].index <= stop {
          ps := ps + [k];
        }
        k := k + 1;
      }
      assert rows[..k] == rows;
    }

    /** `self[start:]` or `self[:stop]`: the scan raises `TypeError` at the
        first row whose test compares with the missing bound; when none
        does, the slice is empty. */
    method LookupOpen(from: Option<int>) returns (r: Result<seq<nat>>)
      ensures r.Raise? <==> OpenFails(rows, from)
      ensures r.Raise? ==> r.exception == TypeError
      ensures r.Ok? ==> r.value == []
    {
      var k := 0;
      while k < |rows|
        invariant 0 <= k <= |rows|
        invariant forall q :: 0 <= q < k ==> !ComparesWithNone(rows[q], from)
      {
        if rows[k].Line? && (from.None? || rows[k].index >= from.value) {
          return Raise(TypeError);
        }
        k := k + 1;
      }
      return Ok([]);
    }

    /** `__getitem__`. */
    method GetItem(key: Key) returns (r: Result<Selection>)
      ensures key.At? ==> r == (match Find(rows, key.i) case Some(p) => Ok(One(p)) case None => Raise(ValueError))
      ensures key.Span? ==> r == Ok(Many(SpanPositions(rows, key.start, key.stop)))
      ensures key.OpenSpan? ==> r == if OpenFails(rows, key.from) then Raise(TypeError) else Ok(Many([]))
      ensures key.OtherKey? ==> r == Raise(TypeError)
    {
      match key {
        case At(i) =>
          var found := Lookup(i);
          r := if found.Ok? then Ok(One(found.value)) else Raise(found.exception);
        case Span(start, stop) =>
          var ps := LookupSpan(start, stop);
          r := Ok(Many(ps));
        case OpenSpan(from) =>
          var open := LookupOpen(from);
          r := if open.Ok? then Ok(Many(open.value)) else Raise(open.exception);
        case OtherKey =>
          r := Raise(TypeError);
      }
    }

    /** `_setrow`: rewrite the row at position `p` in place. */
    method SetRow(p: nat, design: string)
      requires Valid() && p < |rows| && rows[p].Line?
      modifies this
      ensures Valid()
      ensures rows == old(rows)[p := Rewrite(old(rows)[p], getSs(old(rows)[p].index), design)]
    {
      var row := rows[p];
      rows := rows[p := Line(row.index, [row.fields[0], getSs(row.index), design])];
    }

    /** `self[start:stop] = value`: rewrite every row of the slice. */
    method SetSpan(start: int, stop: int, value: string)
      requires Valid()
      modifies this
      ensures Valid()
      ensures rows == RewriteSpan(old(rows), start, stop, value, getSs)
    {
      var ps := LookupSpan(start, stop);
      ghost var before := rows;
      ghost var target := RewriteSpan(before, start, stop, value, getSs);
      var j := 0;
      while j < |ps|
        invariant 0 <= j <= |ps| && ps == SpanPositions(before, start, stop)
        invariant Valid() && UpdatedUpTo(before, rows, target, ps, j)
      {
        var p := ps[j];
        UpdateNext(before, rows, target, ps, j);
        var row := rows[p];
        var design := if '*' in value then ReplaceChar(value, '*', row.fields[0]) else value;
        assert design == Design(before[p], value);
        SetRow(p, design);
        j := j + 1;
      }
      RewriteDone(before, rows, start, stop, value, getSs);
    }

    /** `__setitem__`. */
    method SetItem(key: Key, value: string) returns (out: Outcome)
      requires Valid()
      modifies this
      ensures Valid()
      ensures key.At? ==> match Find(old(rows), key.i)
                          case None => out == Raised(ValueError) && rows == old(rows)
                          case Some(p) => out == Returned && rows == old(rows)[p := Rewrite(old(rows)[p], getSs(key.i), value)]
      ensures key.Span? ==> out == Returned && rows == RewriteSpan(old(rows), key.start, key.stop, value, getSs)
      ensures key.OpenSpan? ==> rows == old(rows) && out == if OpenFails(old(rows), key.from) then Raised(TypeError) else Returned
      ensures key.OtherKey? ==> out == Raised(TypeError) && rows == old(rows)
    {
      match key {
        case At(i) =>
          var found := Lookup(i);
          if found.Raise? {
            return Raised(found.exception);
          }
          SetRow(found.value, value);
          out := Returned;
        case Span(start, stop) =>
          SetSpan(start, stop, value);
          out := Returned;
        case OpenSpan(from) =>
          var open := LookupOpen(from);
          out := if open.Raise? then Raised(open.exception) else Returned;
        case OtherKey =>
          out := Raised(TypeError);
      }
    }

    /** `del self[start:stop]`: empty every row of the slice. */
    method DelSpan(start: int, stop: int)
      requires Valid()
      modifies this
      ensures Valid()
      ensures rows == DeleteSpan(old(rows), start, stop)
    {
      var ps := LookupSpan(start, stop);
      ghost var before := rows;
      ghost var target := DeleteSpan(before, start, stop);
      var j := 0;
      while j < |ps|
        invariant 0 <= j <= |ps| && ps == SpanPositions(before, start, stop)
        invariant Valid() && UpdatedUpTo(before, rows, target, ps, j)
      {
        UpdateNext(before, rows, target, ps, j);
        rows := rows[ps[j] := Deleted];
        j := j + 1;
      }
      assert ps[..j] == ps;
    }

    /** `__delitem__`: empty the selected rows, keeping them in the list. */
    method DelItem(key: Key) returns (out: Outcome)
      requires Valid()
      modifies this
      ensures Valid() && |rows| == |old(rows)|
      ensures key.At? ==> match Find(old(rows), key.i)
                          case None => out == Raised(ValueError) && rows == old(rows)
                          case Some(p) => out == Returned && rows == old(rows)[p := Deleted]
      ensures key.Span? ==> out == Returned && rows == DeleteSpan(old(rows), key.start, key.stop)
      ensures key.OpenSpan? ==> rows == old(rows) && out == if OpenFails(old(rows), key.from) then Raised(TypeError) else Returned
      ensures key.OtherKey? ==> out == Raised(TypeError) && rows == old(rows)
    {
      match key {
        case At(i) =>
          var found := Lookup(i);
          if found.Raise? {
            return Raised(found.exception);
          }
          rows := rows[found.value := Deleted];
          out := Returned;
        case Span(start, stop) =>
          DelSpan(start, stop);
          out := Returned;
        case OpenSpan(from) =>
          var open := LookupOpen(from);
          out := if open.Raise? then Raised(open.exception) else Returned;
        case OtherKey =>
          out := Raised(TypeError);
      }
    }

    /** `max()`: despite its name, the list of the live rows' indices. */
    function Max(): seq<int>
      reads this
    {
      Indices(rows)
    }

    /** The wobble step of `insert` for one index `i`. */
    method Wobble(i: int) returns (out: Outcome)
      requires Valid()
      modifies this
      ensures Valid()
      ensures match WobbleAt(old(rows), i, getSs)
              case Raise(e) => out == Raised(e) && rows == old(rows)
              case Ok(r) => out == Returned && rows == r
    {
      var found := Lookup(i);
      if found.Raise? {
        return Raised(found.exception);
      }
      if rows[found.value].Length() <= 3 {
        out := SetItem(At(i), "NATAA");
      } else {
        out := Returned;
      }
    }

    /** The search loop of `insert`: `enumerate(self)` numbers the live rows
        only, and the number of the row with index `idx` is returned. */
    method Enumerate(idx: int) returns (r: Result<nat>)
      ensures match Find(rows, idx)
              case None => r == Raise(ValueError)
              case Some(p) => r == Ok(|Live(rows[..p])|) && r.value <= p
    {
      var i, k := 0, 0;
      while k < |rows| && !(rows[k].Line? && rows[k].index == idx)
        invariant 0 <= k <= |rows|
        invariant i == |Live(rows[..k])|
        invariant forall q :: 0 <= q < k ==> !Matches(rows[q], idx)
      {
        assert rows[..k + 1][..k] == rows[..k];
        if rows[k].Line? {
          i := i + 1;
        }
        k := k + 1;
      }
      if k == |rows| {
        return Raise(ValueError);
      }
      assert Find(rows, idx) == Some(k);
      return Ok(i);
    }

    /** The inner loop of `insert`: `self.rows.insert(at + j, [0, 'X', 'D', val])`
        for each value in turn. */
    method InsertRows(at: nat, values: seq<string>)
      requires Valid() && at <= |rows|
      modifies this
      ensures Valid()
      ensures rows == Splice(old(rows), at, values)
    {
      ghost var start := rows;
      var j := 0;
      while j < |values|
        invariant 0 <= j <= |values|
        invariant rows == Splice(start, at, values[..j])
        invariant Valid()
      {
        SpliceStep(start, at, values, j);
        rows := rows[..at + j] + [NewRow(values[j])] + rows[at + j..];
        j := j + 1;
      }
      assert values[..j] == values;
    }

    /** `insert(idx, value, before)`. */
    method Insert(idx: int, value: Value, before: bool) returns (out: Outcome)
      requires Valid()
      modifies this
      ensures Valid()
      ensures (out, rows) == InsertEffect(old(rows), idx, value, before, getSs)
    {
      var values: seq<string>;
      match value {
        case Single(s) => values := [s];
        case Several(xs) => values := xs;
        case OtherValue => return Raised(TypeError);
      }
      var found := Enumerate(idx);
      if found.Raise? {
        return Raised(found.exception);
      }
      var at := if before then found.value else found.value + 1;
      InsertRows(at, values);
      if !before {
        // `self.max() >= idx + 1` compares a list with an int
        return Raised(TypeError);
      }
      out := Wobble(idx);
      if out.Raised? {
        return;
      }
      out := Wobble(idx - 1);
    }

    /** `insert_before`. */
    method InsertBefore(idx: int, value: Value) returns (out: Outcome)
      requires Valid()
      modifies this
      ensures Valid()
      ensures (out, rows) == InsertEffect(old(rows), idx, value, true, getSs)
    {
      out := Insert(idx, value, true);
    }

    /** `insert_after`. */
    method InsertAfter(idx: int, value: Value) returns (out: Outcome)
      requires Valid()
      modifies this
      ensures Valid()
      ensures (out, rows) == InsertEffect(old(rows), idx, value, false, getSs)
    {
      out := Insert(idx, value, false);
    }

    /** `__str__`. */
    function ToString(): string
      reads this
    {
      Render(rows)
    }
  }

  /** One more `list.insert` extends the splice by the next value. */
  lemma SpliceStep(rows: seq<Row>, at: nat, values: seq<string>, j: nat)
    requires at <= |rows| && j < |values|
    ensures var s := Splice(rows, at, values[..j]);
            at + j <= |s| &&
            Splice(rows, at, values[..j + 1]) == s[..at + j] + [NewRow(values[j])] + s[at + j..]
  {
    var s := Splice(rows, at, values[..j]);
    assert NewRows(values[..j + 1]) == NewRows(values[..j]) + [NewRow(values[j])];
    assert s[..at + j] == rows[..at] + NewRows(values[..j]);
    assert s[at + j..] == rows[at..];
  }
}
