/** The text the State class works with: the `-`-separated encoding read by
    the string constructor (String.split and Integer.valueOf), the decimal
    strings of the cells (String.valueOf) and the Java String.hashCode of
    their row-major concatenation, which State.hashCode returns. */
module Strings {
  import opened Wrappers
  import opened Grids

  const MinInt32: int := -0x8000_0000
  const MaxInt32: int := 0x7fff_ffff
  const TwoTo32: int := 0x1_0000_0000

  /** x fits in a Java int. */
  predicate IsInt32(x: int) {
    MinInt32 <= x <= MaxInt32
  }

  /** The Java int congruent to x modulo 2^32: what int arithmetic yields. */
  function Wrap32(x: int): (r: int)
    ensures IsInt32(r) && (r - x) % TwoTo32 == 0
  {
    var u := x % TwoTo32;
    if u <= MaxInt32 then u else u - TwoTo32
  }

  // ---------------------------------------------------------------------------
  // Decimal strings

  predicate IsDigit(c: char) {
    '0' <= c <= '9'
  }

  predicate AllDigits(s: string) {
    forall k :: 0 <= k < |s| ==> IsDigit(s[k])
  }

  function DigitChar(d: int): char
    requires 0 <= d < 10
  {
    ('0' as int + d) as char
  }

  /** The decimal digits of x, most significant first, without leading zeros. */
  function NatString(x: nat): string
    decreases x
  {
    if x < 10 then [DigitChar(x)] else NatString(x / 10) + [DigitChar(x % 10)]
  }

  /** String.valueOf(int): a minus sign before the digits of a negative value. */
  function IntString(x: int): string {
    if x < 0 then "-" + NatString(-x) else NatString(x)
  }

  /** The value of a digit string read from left to right. */
  function DigitsValue(s: string): nat
    requires AllDigits(s)
  {
    if s == [] then 0
    else
      assert IsDigit(s[|s| - 1]) && s[|s| - 1] as int >= '0' as int;
      10 * DigitsValue(s[..|s| - 1]) + (s[|s| - 1] as int - '0' as int)
  }

  /** Integer.valueOf on one token: an optional sign, then one or more
      decimal digits, and the value must fit in an int; anything else is a
      NumberFormatException (None). */
  function ParseToken(t: string): Option<int> {
    if |t| >= 2 && (t[0] == '-' || t[0] == '+') && AllDigits(t[1..]) then
      var d: int := DigitsValue(t[1..]);
      var v := if t[0] == '-' then -d else d;
      if IsInt32(v) then Some(v) else None
    else if |t| >= 1 && AllDigits(t) && IsInt32(DigitsValue(t)) then Some(DigitsValue(t))
    else None
  }

  /** The digits of x are one or more decimal digits, and reading them
      back gives x. */
  lemma {:induction false} DigitsOfNat(x: nat)
    ensures |NatString(x)| >= 1 && AllDigits(NatString(x))
    ensures DigitsValue(NatString(x)) == x
    decreases x
  {
    if x >= 10 {
      DigitsOfNat(x / 10);
      var s := NatString(x);
      assert s[..|s| - 1] == NatString(x / 10);
      assert forall k :: 0 <= k < |s| - 1 ==> s[k] == NatString(x / 10)[k];
    }
  }

  /** Integer.valueOf inverts String.valueOf on every int. */
  lemma ParseIntString(x: int)
    requires IsInt32(x)
    ensures ParseToken(IntString(x)) == Some(x)
  {
    if x < 0 {
      DigitsOfNat(-x);
      assert IntString(x)[1..] == NatString(-x);
    } else {
      DigitsOfNat(x);
    }
  }

  /** Parse every token; fails when any token fails. */
  function ParseAll(ts: seq<string>): (r: Option<seq<int>>)
    ensures r.Some? ==> |r.value| == |ts|
  {
    if ts == [] then Some([])
    else if ParseToken(ts[0]).None? then None
    else
      var rest := ParseAll(ts[1..]);
      if rest.None? then None
      else Some([ParseToken(ts[0]).value] + rest.value)
  }

  /** ParseAll succeeds exactly when every token parses, and then lists the
      tokens' values in order. */
  lemma {:induction false} ParseAllSound(ts: seq<string>)
    ensures ParseAll(ts).Some? <==> forall k :: 0 <= k < |ts| ==> ParseToken(ts[k]).Some?
    ensures ParseAll(ts).Some? ==> forall k :: 0 <= k < |ts| ==> ParseAll(ts).value[k] == ParseToken(ts[k]).value
  {
    if ts != [] && ParseToken(ts[0]).Some? {
      ParseAllSound(ts[1..]);
      if ParseAll(ts[1..]).None? {
        var k :| 0 <= k < |ts[1..]| && ParseToken(ts[1..][k]).None?;
        assert ParseToken(ts[k + 1]).None?;
      } else {
        forall k | 1 <= k < |ts| ensures ParseAll(ts).value[k] == ParseToken(ts[k]).value {
          assert ts[k] == ts[1..][k - 1];
        }
      }
    }
  }

  /** The first i tokens all parse. */
  predicate PrefixParses(ts: seq<string>, i: nat)
    requires i <= |ts|
  {
    i == 0 || (PrefixParses(ts, i - 1) && ParseToken(ts[i - 1]).Some?)
  }

  lemma {:induction false} PrefixParsesAll(ts: seq<string>, i: nat)
    requires i <= |ts| && PrefixParses(ts, i)
    ensures forall k :: 0 <= k < i ==> ParseToken(ts[k]).Some?
  {
    if i > 0 {
      PrefixParsesAll(ts, i - 1);
    }
  }

  /** The string constructor's loop, one token at a time: token k's value is
      entry k of ParseAll, a token that fails makes ParseAll fail, and
      ParseAll succeeds once every token has parsed. */
  lemma ParseAllAt(ts: seq<string>, k: int)
    requires 0 <= k < |ts|
    ensures ParseToken(ts[k]).None? ==> ParseAll(ts).None?
    ensures ParseAll(ts).Some? ==> ParseAll(ts).value[k] == ParseToken(ts[k]).value
  {
    ParseAllSound(ts);
  }

  lemma ParseAllOfPrefix(ts: seq<string>)
    requires PrefixParses(ts, |ts|)
    ensures ParseAll(ts).Some?
  {
    PrefixParsesAll(ts, |ts|);
    ParseAllSound(ts);
  }

  // ---------------------------------------------------------------------------
  // String.split("-")

  /** The pieces of s between `-` characters, empty pieces included. */
  function Fields(s: string): (r: seq<string>)
    ensures |r| >= 1 && forall k :: 0 <= k < |r| ==> '-' !in r[k]
  {
    if s == [] then [""]
    else
      var rest := Fields(s[1..]);
      if s[0] == '-' then [""] + rest else [[s[0]] + rest[0]] + rest[1..]
  }

  /** The pieces joined back with `-` between them. */
  function Join(fs: seq<string>): string
    requires |fs| >= 1
  {
    if |fs| == 1 then fs[0] else fs[0] + "-" + Join(fs[1..])
  }

  /** Java drops the empty strings at the end of a split. */
  function DropTrailingEmpty(fs: seq<string>): seq<string> {
    if fs != [] && fs[|fs| - 1] == "" then DropTrailingEmpty(fs[..|fs| - 1]) else fs
  }

  /** String.split("-"): the fields with trailing empty fields dropped; an
      empty string, which contains no `-`, splits into itself. */
  function Split(s: string): seq<string> {
    if s == "" then [""] else DropTrailingEmpty(Fields(s))
  }

  /** Splitting and joining are inverse: no character of s is lost. */
  lemma {:induction false} JoinFields(s: string)
    ensures Join(Fields(s)) == s
  {
    if s != [] {
      JoinFields(s[1..]);
      var rest := Fields(s[1..]);
      if s[0] == '-' {
        assert Fields(s) == [""] + rest;
        assert Join(Fields(s)) == "" + "-" + Join(rest);
      } else if |rest| == 1 {
        assert Fields(s) == [[s[0]] + rest[0]];
      } else {
        assert Fields(s)[1..] == rest[1..];
        assert Join(rest) == rest[0] + "-" + Join(rest[1..]);
      }
    }
  }

  /** A `-`-free prefix becomes the start of the first field. */
  lemma {:induction false} FieldsOfPrefix(a: string, b: string)
    requires '-' !in a
    ensures Fields(a + b) == [a + Fields(b)[0]] + Fields(b)[1..]
    decreases |a|
  {
    if a != [] {
      assert (a + b)[0] == a[0] != '-';
      assert (a + b)[1..] == a[1..] + b;
      assert '-' !in a[1..];
      FieldsOfPrefix(a[1..], b);
      var rest := Fields(a[1..] + b);
      assert rest[0] == a[1..] + Fields(b)[0] && rest[1..] == Fields(b)[1..];
      assert [a[0]] + (a[1..] + Fields(b)[0]) == a + Fields(b)[0];
    } else {
      assert a + b == b;
      assert a + Fields(b)[0] == Fields(b)[0];
      assert Fields(b) == [Fields(b)[0]] + Fields(b)[1..];
    }
  }

  /** Splitting a join of `-`-free pieces gives the pieces back. */
  lemma {:induction false} FieldsOfJoin(fs: seq<string>)
    requires |fs| >= 1 && forall k :: 0 <= k < |fs| ==> '-' !in fs[k]
    ensures Fields(Join(fs)) == fs
    decreases |fs|
  {
    if |fs| == 1 {
      FieldsOfPrefix(fs[0], "");
      assert fs[0] + "" == fs[0];
    } else {
      FieldsOfJoin(fs[1..]);
      var b := "-" + Join(fs[1..]);
      FieldsOfPrefix(fs[0], b);
      assert b[1..] == Join(fs[1..]);
      assert Fields(b) == [""] + fs[1..];
      assert fs[0] + b == Join(fs);
      assert fs[0] + "" == fs[0];
    }
  }

  /** The `-`-separated text of a list of values, the format the string
      constructor reads ("1-2-3-4-0-5-6-7-8"). */
  function Encode(vals: seq<int>): string
    requires |vals| >= 1
  {
    Join(seq(|vals|, k requires 0 <= k < |vals| => IntString(vals[k])))
  }

  /** Splitting and parsing the encoding of non-negative ints gives them back. */
  lemma EncodeRoundTrip(vals: seq<int>)
    requires |vals| >= 1 && forall k :: 0 <= k < |vals| ==> 0 <= vals[k] <= MaxInt32
    ensures ParseAll(Split(Encode(vals))) == Some(vals)
  {
    var fs := seq(|vals|, k requires 0 <= k < |vals| => IntString(vals[k]));
    forall k | 0 <= k < |fs| ensures '-' !in fs[k] && fs[k] != "" {
      assert fs[k] == NatString(vals[k]);
      DigitsOfNat(vals[k]);
      assert forall c :: 0 <= c < |fs[k]| ==> IsDigit(fs[k][c]);
    }
    FieldsOfJoin(fs);
    assert Encode(vals) != "" by {
      JoinFields(Encode(vals));
    }
    assert Split(Encode(vals)) == fs;
    forall k | 0 <= k < |fs| ensures ParseToken(fs[k]) == Some(vals[k]) {
      ParseIntString(vals[k]);
    }
    ParseAllSound(fs);
    var r := ParseAll(fs);
    assert r.value == vals;
  }

  // ---------------------------------------------------------------------------
  // String.hashCode and the hash of a board

  /** String.hashCode computed modulo 2^32: h = 31*h + c over the characters. */
  function HashMod(s: string): (h: int)
    ensures 0 <= h < TwoTo32
  {
    if s == [] then 0 else (31 * HashMod(s[..|s| - 1]) + s[|s| - 1] as int) % TwoTo32
  }

  /** String.hashCode as the Java int it returns. */
  function StringHashCode(s: string): int {
    Wrap32(HashMod(s))
  }

  /** Taking the remainder once at the end agrees with Java's int overflow at
      every step: each character updates the hash as h := 31*h + c in int
      arithmetic, starting from 0. */
  lemma StringHashCodeStep(s: string, c: char)
    ensures StringHashCode([]) == 0
    ensures StringHashCode(s + [c]) == Wrap32(31 * StringHashCode(s) + c as int)
  {
    var u := HashMod(s);
    assert (s + [c])[..|s|] == s;
    var h := StringHashCode(s);
    assert h == u || h == u - TwoTo32;
    assert (31 * h + c as int) % TwoTo32 == (31 * u + c as int) % TwoTo32 by {
      if h != u {
        assert 31 * h + c as int == (31 * u + c as int) - 31 * TwoTo32;
      }
    }
  }

  /** Regrouping a concatenation, kept apart so that AppendCell's proof
      does not search the sequence axioms in its own larger context. */
  lemma Associative(a: string, b: string, c: string)
    ensures (a + b) + c == a + (b + c)
  {
  }

  /** Appending the next cell's string extends the string of the board so far. */
  lemma AppendCell(g: Grid, i: nat, j: nat, str: string)
    requires i < |g| && j < |g[i]| && str == GridString(g, i) + RowString(g[i], j)
    ensures str + IntString(g[i][j]) == GridString(g, i) + RowString(g[i], j + 1)
  {
    Associative(GridString(g, i), RowString(g[i], j), IntString(g[i][j]));
  }

  /** A finished row completes the string of the next row prefix. */
  lemma AppendRow(g: Grid, i: nat, str: string)
    requires i < |g| && str == GridString(g, i) + RowString(g[i], |g[i]|)
    ensures str == GridString(g, i + 1)
  {
  }

  /** The decimal strings of the first j cells of row, concatenated. */
  function RowString(row: seq<int>, j: nat): string
    requires j <= |row|
  {
    if j == 0 then "" else RowString(row, j - 1) + IntString(row[j - 1])
  }

  /** The decimal strings of every cell of the first i rows, row-major. */
  function GridString(g: Grid, i: nat): string
    requires i <= |g|
  {
    if i == 0 then "" else GridString(g, i - 1) + RowString(g[i - 1], |g[i - 1]|)
  }

  /** State.hashCode: the String.hashCode of the cells' decimal strings
      concatenated in row-major order. */
  function Hash(g: Grid): (h: int)
    ensures IsInt32(h)
  {
    StringHashCode(GridString(g, |g|))
  }

  /** Boards whose rows spell the same strings spell the same string. */
  lemma {:induction false} GridStringSameRows(g1: Grid, g2: Grid, i: nat)
    requires i <= |g1| && i <= |g2|
    requires forall r :: 0 <= r < i ==> RowString(g1[r], |g1[r]|) == RowString(g2[r], |g2[r]|)
    ensures GridString(g1, i) == GridString(g2, i)
  {
    if i > 0 {
      GridStringSameRows(g1, g2, i - 1);
    }
  }

  /** The rows 1, 12, 11, 2 and 11, 2, 1, 12 both spell "112112". */
  lemma RowsCollide()
    ensures RowString([1, 12, 11, 2], 4) == RowString([11, 2, 1, 12], 4)
  {
    assert IntString(12) == "12" && IntString(11) == "11";
  }

  /** The hash, and with it State.equals, is coarser than the board: a board
      whose first row is 1, 12, 11, 2 hashes like the different board with
      11, 2, 1, 12 there instead. */
  lemma HashCollision(g: Grid)
    requires |g| > 0 && g[0] == [1, 12, 11, 2]
    ensures g[0 := [11, 2, 1, 12]] != g && Hash(g[0 := [11, 2, 1, 12]]) == Hash(g)
  {
    var h := g[0 := [11, 2, 1, 12]];
    assert h[0][0] != g[0][0];
    RowsCollide();
    GridStringSameRows(g, h, |g|);
  }
}
