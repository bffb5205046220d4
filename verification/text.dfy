/**
 * String helpers of assets/js/app.js: `Array.prototype.join`, `String(n)` for
 * integers, `padStart`, `cap` (upper-case the first letter) and `idFmt`
 * (`#0025`). Strings are `seq<char>`.
 */
module Text {

  /** True when `prefix` is a prefix of `s` (`s.startsWith(prefix)`). */
  predicate StartsWith(s: string, prefix: string) {
    |prefix| <= |s| && s[..|prefix|] == prefix
  }

  // ---------------------------------------------------------------------------
  // Array.prototype.join
  // ---------------------------------------------------------------------------

  /** `parts.join(sep)`: the parts in order with `sep` between neighbours. */
  function Join(parts: seq<string>, sep: string): string
  {
    if |parts| == 0 then ""
    else if |parts| == 1 then parts[0]
    else parts[0] + sep + Join(parts[1..], sep)
  }

  /** A separator together with the position of a character in it that no part may contain. */
  predicate MarkerAt(sep: string, k: nat) {
    k < |sep| && sep[k] !in sep[..k]
  }

  predicate FreeOf(parts: seq<string>, c: char) {
    forall i :: 0 <= i < |parts| ==> c !in parts[i]
  }

  /** The first marker of `a + sep + r` sits right after `a`, so the split point is unique. */
  lemma SplitAtMarker(a: string, r: string, b: string, t: string, sep: string, k: nat)
    requires MarkerAt(sep, k)
    requires sep[k] !in a && sep[k] !in b
    requires a + sep + r == b + sep + t
    ensures a == b && r == t
  {
    var s := a + sep + r;
    assert s[|a| + k] == sep[k];
    assert s[|b| + k] == sep[k];
    if |a| < |b| {
      NoMarkerBefore(b, sep, t, k, |a| + k);
      assert false;
    } else if |b| < |a| {
      NoMarkerBefore(a, sep, r, k, |b| + k);
      assert false;
    }
    assert a == s[..|a|] == b;
    assert r == s[|a| + |sep|..] == t;
  }

  /** Before the marker of `sep`, `a + sep + r` holds no marker when `a` holds none. */
  lemma NoMarkerBefore(a: string, sep: string, r: string, k: nat, i: nat)
    requires MarkerAt(sep, k) && sep[k] !in a
    requires i < |a| + k
    ensures (a + sep + r)[i] != sep[k]
  {
    if i < |a| {
      assert (a + sep + r)[i] == a[i];
    } else {
      assert (a + sep + r)[i] == sep[..k][i - |a|];
    }
  }

  /** A join of two or more parts contains the marker; a single marker-free part does not. */
  lemma JoinHasMarker(parts: seq<string>, sep: string, k: nat)
    requires MarkerAt(sep, k) && |parts| >= 2
    ensures sep[k] in Join(parts, sep)
  {
    var s := Join(parts, sep);
    assert s == parts[0] + sep + Join(parts[1..], sep);
    assert s[|parts[0]| + k] == sep[k];
  }

  /**
   * Joining is injective on non-empty part lists whose parts avoid one
   * character of the separator: the joined string determines the parts.
   */
  lemma {:induction false} JoinInjective(xs: seq<string>, ys: seq<string>, sep: string, k: nat)
    requires MarkerAt(sep, k)
    requires |xs| > 0 && |ys| > 0
    requires FreeOf(xs, sep[k]) && FreeOf(ys, sep[k])
    requires Join(xs, sep) == Join(ys, sep)
    ensures xs == ys
    decreases |xs|
  {
    if |xs| == 1 && |ys| == 1 {
    } else if |xs| == 1 {
      JoinHasMarker(ys, sep, k);
      assert false;
    } else if |ys| == 1 {
      JoinHasMarker(xs, sep, k);
      assert false;
    } else {
      SplitAtMarker(xs[0], Join(xs[1..], sep), ys[0], Join(ys[1..], sep), sep, k);
      JoinInjective(xs[1..], ys[1..], sep, k);
      assert xs == [xs[0]] + xs[1..];
      assert ys == [ys[0]] + ys[1..];
    }
  }

  // ---------------------------------------------------------------------------
  // cap: upper-case the first character
  // ---------------------------------------------------------------------------

  /** `toUpperCase` of one character, for the ASCII letters. */
  function UpperChar(c: char): (u: char)
    ensures 'a' <= c <= 'z' ==> 'A' <= u <= 'Z' && u as int - c as int == 'A' as int - 'a' as int
    ensures !('a' <= c <= 'z') ==> u == c
  {
    if 'a' <= c <= 'z' then (c as int - 32) as char else c
  }

  /** `cap(s)`: the empty string is returned as is; otherwise only the first character is upper-cased. */
  function Cap(s: string): (r: string)
    ensures |r| == |s|
    ensures |s| > 0 ==> r[0] == UpperChar(s[0]) && r[1..] == s[1..]
  {
    if |s| == 0 then s else [UpperChar(s[0])] + s[1..]
  }

  /** Capitalising twice changes nothing more. */
  lemma CapIdempotent(s: string)
    ensures Cap(Cap(s)) == Cap(s)
  {
    if |s| > 0 {
      var u := UpperChar(s[0]);
      assert UpperChar(u) == u;
      assert Cap(s) == [u] + s[1..];
      assert Cap(Cap(s)) == [UpperChar(u)] + Cap(s)[1..];
    }
  }

  // ---------------------------------------------------------------------------
  // String(n) for integers, and its inverse
  // ---------------------------------------------------------------------------

  predicate IsDigit(c: char) {
    '0' <= c <= '9'
  }

  predicate AllDigits(s: string) {
    forall i :: 0 <= i < |s| ==> IsDigit(s[i])
  }

  function DigitChar(d: nat): (c: char)
    requires d < 10
    ensures IsDigit(c)
  {
    (48 + d) as char
  }

  function DigitValue(c: char): nat
    requires IsDigit(c)
  {
    c as int - 48
  }

  /** Decimal rendering of a natural number without leading zeros (`String(n)`). */
  function NatToString(n: nat): (s: string)
    ensures |s| > 0 && AllDigits(s)
    ensures |s| > 1 ==> s[0] != '0'
  {
    if n < 10 then [DigitChar(n)] else NatToString(n / 10) + [DigitChar(n % 10)]
  }

  /** `String(i)` for an integer: a minus sign before the digits of a negative value. */
  function IntToString(i: int): (s: string)
    ensures i >= 0 ==> s == NatToString(i)
    ensures i < 0 ==> s == "-" + NatToString(-i)
  {
    if i < 0 then "-" + NatToString(-i) else NatToString(i)
  }

  /** The value of a string of decimal digits (leading zeros allowed). */
  function ParseNat(s: string): nat
    requires AllDigits(s)
  {
    if |s| == 0 then 0 else ParseNat(s[..|s| - 1]) * 10 + DigitValue(s[|s| - 1])
  }

  /** Reading back the decimal rendering gives the number. */
  lemma {:induction false} ParseNatToString(n: nat)
    ensures ParseNat(NatToString(n)) == n
  {
    var s := NatToString(n);
    if n >= 10 {
      assert s[..|s| - 1] == NatToString(n / 10);
      ParseNatToString(n / 10);
    }
  }

  /** Leading zeros do not change the value of a digit string. */
  lemma {:induction false} ParseNatLeadingZeros(z: string, s: string)
    requires forall i :: 0 <= i < |z| ==> z[i] == '0'
    requires AllDigits(s)
    ensures AllDigits(z + s)
    ensures ParseNat(z + s) == ParseNat(s)
    decreases |z| + |s|
  {
    assert AllDigits(z + s) by {
      forall i | 0 <= i < |z + s| ensures IsDigit((z + s)[i]) {
        if i < |z| { assert (z + s)[i] == z[i]; } else { assert (z + s)[i] == s[i - |z|]; }
      }
    }
    if |s| > 0 {
      assert (z + s)[..|z + s| - 1] == z + s[..|s| - 1];
      ParseNatLeadingZeros(z, s[..|s| - 1]);
    } else if |z| > 0 {
      assert z + s == z;
      assert z[..|z| - 1] + [] == z[..|z| - 1];
      ParseNatLeadingZeros(z[..|z| - 1], []);
    }
  }

  // ---------------------------------------------------------------------------
  // padStart and idFmt
  // ---------------------------------------------------------------------------

  function Repeat(c: char, n: nat): (r: string)
    ensures |r| == n && forall i :: 0 <= i < n ==> r[i] == c
  {
    if n == 0 then [] else [c] + Repeat(c, n - 1)
  }

  /** `s.padStart(width, fill)` with a one-character fill. */
  function PadStart(s: string, width: nat, fill: char): (r: string)
    ensures |s| >= width ==> r == s
    ensures |s| < width ==> |r| == width
    ensures exists z :: r == z + s && |z| == |r| - |s| && forall i :: 0 <= i < |z| ==> z[i] == fill
  {
    var z := if |s| >= width then [] else Repeat(fill, width - |s|);
    assert z + s == (if |s| >= width then s else z + s);
    z + s
  }

  /** `idFmt(id)`: `#` followed by the id, zero-padded to four characters. */
  function IdFmt(id: int): (r: string)
    ensures |r| >= 5 && r[0] == '#'
    ensures r[1..] == PadStart(IntToString(id), 4, '0')
  {
    "#" + PadStart(IntToString(id), 4, '0')
  }

  /** The formatted id of a non-negative number reads back as that number, and ids below 10000 take exactly five characters. */
  lemma IdFmtRoundTrip(id: nat)
    ensures AllDigits(IdFmt(id)[1..]) && ParseNat(IdFmt(id)[1..]) == id
    ensures id < 10000 ==> |IdFmt(id)| == 5
  {
    var digits := NatToString(id);
    var padded := PadStart(digits, 4, '0');
    var z :| padded == z + digits && |z| == |padded| - |digits| && forall i :: 0 <= i < |z| ==> z[i] == '0';
    ParseNatLeadingZeros(z, digits);
    ParseNatToString(id);
    if id < 10000 {
      NatToStringShort(id);
    }
  }

  /** Numbers below 10000 render in at most four digits. */
  lemma {:induction false} NatToStringShort(n: nat)
    requires n < 10000
    ensures |NatToString(n)| <= 4
  {
    if n >= 10 {
      NatToStringBound(n / 10);
    }
  }

  lemma {:induction false} NatToStringBound(n: nat)
    requires n < 1000
    ensures |NatToString(n)| <= 3
  {
    if n >= 10 {
      assert |NatToString(n / 10)| <= 2 by {
        if n / 10 >= 10 {
          assert |NatToString(n / 100)| == 1;
        }
      }
    }
  }
}
