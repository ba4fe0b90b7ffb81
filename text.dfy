/** The few Python string operations the modelled code uses, on `string`
    (a sequence of characters; only ASCII case mapping is modelled). */
module Text {

  /** `sub in s`. */
  predicate Contains(s: string, sub: string)
    decreases |s|
  {
    |sub| <= |s| && (s[..|sub|] == sub || Contains(s[1..], sub))
  }

  /** Python's `str.upper` on one character, for ASCII letters. */
  function UpperChar(c: char): char {
    if 'a' <= c <= 'z' then (c as int - 'a' as int + 'A' as int) as char else c
  }

  /** `s.upper()`. */
  function Upper(s: string): string {
    seq(|s|, i requires 0 <= i < |s| => UpperChar(s[i]))
  }

  /** `s.replace(c, with)` for a one-character pattern `c`: the pieces
      between the occurrences of `c`, joined with `with` in their place. */
  function ReplaceChar(s: string, c: char, with: string): (r: string)
    ensures r == Join(with, Split(s, c))
    ensures c !in s ==> r == s
    ensures c !in with ==> c !in r
  {
    if s == [] then []
    else
      JoinSplitCons(with, s, c);
      (if s[0] == c then with else [s[0]]) + ReplaceChar(s[1..], c, with)
  }

  /** How `Join(sep, Split(s, c))` starts: `sep` for a leading `c`, the
      first character otherwise. */
  lemma JoinSplitCons(sep: string, s: string, c: char)
    requires s != []
    ensures Join(sep, Split(s, c)) == (if s[0] == c then sep else [s[0]]) + Join(sep, Split(s[1..], c))
  {
    var rest := Split(s[1..], c);
    if s[0] != c && |rest| > 1 {
      assert ([[s[0]] + rest[0]] + rest[1..])[1..] == rest[1..];
    }
  }

  /** `sep.join(xs)`. */
  function Join(sep: string, xs: seq<string>): string {
    if |xs| == 0 then ""
    else if |xs| == 1 then xs[0]
    else xs[0] + sep + Join(sep, xs[1..])
  }

  /** `s.split(c)` for a one-character separator `c`. */
  function Split(s: string, c: char): (r: seq<string>)
    ensures |r| >= 1
  {
    if s == [] then [""]
    else if s[0] == c then [""] + Split(s[1..], c)
    else
      var rest := Split(s[1..], c);
      [[s[0]] + rest[0]] + rest[1..]
  }

  /** A piece without the separator is split off whole. */
  lemma {:induction false} SplitPiece(x: string, c: char, rest: string)
    requires c !in x
    ensures Split(x, c) == [x]
    ensures Split(x + [c] + rest, c) == [x] + Split(rest, c)
  {
    if x != [] {
      SplitPiece(x[1..], c, rest);
      assert [x[0]] + x[1..] == x;
      assert (x + [c] + rest)[1..] == x[1..] + [c] + rest;
    }
  }

  /** Splitting a join on its separator gives the pieces back, provided no
      piece contains the separator. */
  lemma {:induction false} SplitJoin(xs: seq<string>, c: char)
    requires |xs| >= 1
    requires forall k :: 0 <= k < |xs| ==> c !in xs[k]
    ensures Split(Join([c], xs), c) == xs
  {
    if |xs| == 1 {
      SplitPiece(xs[0], c, "");
    } else {
      SplitJoin(xs[1..], c);
      SplitPiece(xs[0], c, Join([c], xs[1..]));
      assert [xs[0]] + xs[1..] == xs;
    }
  }

  function DigitChar(d: int): char
    requires 0 <= d < 10
  {
    ('0' as int + d) as char
  }

  /** The decimal digits of a natural number. */
  function Digits(n: nat): (r: string)
    ensures |r| >= 1
    ensures forall k :: 0 <= k < |r| ==> '0' <= r[k] <= '9'
  {
    if n < 10 then [DigitChar(n)] else Digits(n / 10) + [DigitChar(n % 10)]
  }

  /** `str(n)` for an integer. */
  function Decimal(n: int): (r: string)
    ensures |r| >= 1
    ensures forall k :: 0 <= k < |r| ==> r[k] == '-' || '0' <= r[k] <= '9'
  {
    if n < 0 then "-" + Digits(-n) else Digits(n)
  }
}
