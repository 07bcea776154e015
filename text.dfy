/**
 * String helpers shared by the SQL fragment builders and the value
 * literaliser: `string.Join`, a single-character split used to state
 * round trips, decimal rendering with zero padding, and lower-case hex digits.
 */
module Text {

  /** `string.Join(sep, parts)`: the parts in order, one separator between
      neighbours, no leading or trailing separator. */
  function Join(sep: string, parts: seq<string>): string
    decreases |parts|
  {
    if |parts| == 0 then ""
    else if |parts| == 1 then parts[0]
    else parts[0] + sep + Join(sep, parts[1..])
  }

  /** Appending one more part to a join adds one separator and the part. */
  lemma {:induction false} JoinSnoc(sep: string, parts: seq<string>, x: string)
    ensures Join(sep, parts + [x]) == if parts == [] then x else Join(sep, parts) + sep + x
    decreases |parts|
  {
    if |parts| == 0 {
      assert parts + [x] == [x];
    } else if |parts| == 1 {
      assert (parts + [x])[1..] == [x];
    } else {
      assert (parts + [x])[1..] == parts[1..] + [x];
      JoinSnoc(sep, parts[1..], x);
    }
  }


  /** A builder loop's step: the separator goes before the new part exactly
      when some part is already joined. */
  lemma JoinStep(sep: string, parts: seq<string>, x: string, s: string, needSep: bool)
    requires s == Join(sep, parts)
    requires needSep <==> parts != []
    ensures (if needSep then s + sep else s) + x == Join(sep, parts + [x])
  {
    JoinSnoc(sep, parts, x);
    if !needSep {
      assert "" + x == x;
    }
  }

  /** Every part occurs in the join, at the offset returned. */
  lemma {:induction false} JoinOffset(sep: string, parts: seq<string>, i: nat) returns (k: nat)
    requires i < |parts|
    ensures k + |parts[i]| <= |Join(sep, parts)|
    ensures Join(sep, parts)[k..k + |parts[i]|] == parts[i]
    decreases |parts|
  {
    if |parts| == 1 {
      k := 0;
    } else if i == 0 {
      k := 0;
      var j := Join(sep, parts);
      assert j == parts[0] + (sep + Join(sep, parts[1..]));
      assert j[..|parts[0]|] == parts[0];
    } else {
      var k' := JoinOffset(sep, parts[1..], i - 1);
      var head := parts[0] + sep;
      var rest := Join(sep, parts[1..]);
      assert Join(sep, parts) == head + rest;
      k := |head| + k';
      assert (head + rest)[k..k + |parts[i]|] == rest[k'..k' + |parts[i]|];
    }
  }

  /** A slice of the middle piece of a three-piece concatenation. */
  lemma Framed(pre: string, body: string, post: string, j: nat, n: nat)
    requires j + n <= |body|
    ensures |pre| + j + n <= |pre + body + post|
    ensures (pre + body + post)[|pre| + j..|pre| + j + n] == body[j..j + n]
  {
    var s := pre + body + post;
    assert s[|pre|..|pre| + |body|] == body;
    assert s[|pre| + j..|pre| + j + n] == s[|pre|..|pre| + |body|][j..j + n];
  }

  /** `s.Split(c)`: the maximal pieces of `s` between occurrences of `c`. */
  function Split(s: string, c: char): (r: seq<string>)
    ensures |r| >= 1
    decreases |s|
  {
    if |s| == 0 then [""]
    else
      var rest := Split(s[1..], c);
      if s[0] == c then [""] + rest else [[s[0]] + rest[0]] + rest[1..]
  }

  lemma {:induction false} SplitNoSeparator(p: string, c: char)
    requires c !in p
    ensures Split(p, c) == [p]
    decreases |p|
  {
    if |p| > 0 {
      SplitNoSeparator(p[1..], c);
      assert [p[0]] + p[1..] == p;
    }
  }

  lemma {:induction false} SplitThrough(p: string, c: char, rest: string)
    requires c !in p
    ensures Split(p + [c] + rest, c) == [p] + Split(rest, c)
    decreases |p|
  {
    var s := p + [c] + rest;
    if |p| == 0 {
      assert s[1..] == rest;
    } else {
      assert s[1..] == p[1..] + [c] + rest;
      SplitThrough(p[1..], c, rest);
      assert [p[0]] + p[1..] == p;
    }
  }

  /** Splitting a join on its one-character separator gives the parts back,
      provided no part contains the separator. */
  lemma {:induction false} SplitJoin(parts: seq<string>, c: char)
    requires |parts| >= 1
    requires forall i :: 0 <= i < |parts| ==> c !in parts[i]
    ensures Split(Join([c], parts), c) == parts
    decreases |parts|
  {
    if |parts| == 1 {
      SplitNoSeparator(parts[0], c);
    } else {
      SplitJoin(parts[1..], c);
      SplitThrough(parts[0], c, Join([c], parts[1..]));
      assert [parts[0]] + parts[1..] == parts;
    }
  }

  /** The number of occurrences of `c` in `s`. */
  function Count(s: string, c: char): nat
    decreases |s|
  {
    if |s| == 0 then 0 else (if s[0] == c then 1 else 0) + Count(s[1..], c)
  }

  lemma {:induction false} CountAppend(a: string, b: string, c: char)
    ensures Count(a + b, c) == Count(a, c) + Count(b, c)
    decreases |a|
  {
    if |a| == 0 {
      assert a + b == b;
    } else {
      assert (a + b)[0] == a[0];
      assert (a + b)[1..] == a[1..] + b;
      CountAppend(a[1..], b, c);
    }
  }

  // Decimal digits.

  predicate IsDigits(s: string) {
    forall i :: 0 <= i < |s| ==> '0' <= s[i] <= '9'
  }

  function DigitChar(d: nat): (ch: char)
    requires d < 10
  {
    (d + '0' as int) as char
  }

  function DigitValue(ch: char): nat
    requires '0' <= ch <= '9'
  {
    ch as int - '0' as int
  }

  /** The invariant-culture decimal text of a natural number, without leading zeros. */
  function NatToString(n: nat): (r: string)
    ensures |r| >= 1 && IsDigits(r)
    decreases n
  {
    if n < 10 then [DigitChar(n)] else NatToString(n / 10) + [DigitChar(n % 10)]
  }

  /** Reads a string of decimal digits as a number (leading zeros allowed). */
  function ParseNat(s: string): nat
    requires IsDigits(s)
    decreases |s|
  {
    if |s| == 0 then 0 else 10 * ParseNat(s[..|s| - 1]) + DigitValue(s[|s| - 1])
  }

  lemma {:induction false} ParseNatToString(n: nat)
    ensures ParseNat(NatToString(n)) == n
    decreases n
  {
    if n >= 10 {
      var s := NatToString(n);
      assert s[..|s| - 1] == NatToString(n / 10);
      ParseNatToString(n / 10);
    }
  }

  function Pow10(w: nat): nat {
    if w == 0 then 1 else 10 * Pow10(w - 1)
  }

  /** A number below 10^w needs at most w digits. */
  lemma {:induction false} NatToStringWidth(n: nat, w: nat)
    requires 1 <= w && n < Pow10(w)
    ensures |NatToString(n)| <= w
    decreases n
  {
    if w > 1 && n >= 10 {
      assert n / 10 < Pow10(w - 1);
      NatToStringWidth(n / 10, w - 1);
    }
  }

  function Zeros(k: nat): (z: string)
    ensures |z| == k && IsDigits(z)
  {
    seq(k, _ => '0')
  }

  /** The decimal text of `n` left-padded with zeros to at least `width` characters
      (the custom format specifiers `yyyy`, `MM`, `dd`, `HH`, `mm`, `ss`). */
  function PadNat(n: nat, width: nat): (r: string)
    ensures IsDigits(r)
  {
    var d := NatToString(n);
    if |d| >= width then d else Zeros(width - |d|) + d
  }

  lemma {:induction false} ParseZeros(k: nat)
    ensures ParseNat(Zeros(k)) == 0
    decreases k
  {
    if k > 0 {
      assert Zeros(k)[..k - 1] == Zeros(k - 1);
      ParseZeros(k - 1);
    }
  }

  lemma {:induction false} ParseLeadingZeros(k: nat, s: string)
    requires IsDigits(s)
    ensures ParseNat(Zeros(k) + s) == ParseNat(s)
    decreases |s|
  {
    var t := Zeros(k) + s;
    if |s| == 0 {
      assert t == Zeros(k);
      ParseZeros(k);
    } else {
      assert t[..|t| - 1] == Zeros(k) + s[..|s| - 1];
      ParseLeadingZeros(k, s[..|s| - 1]);
    }
  }

  /** Zero padding loses nothing: the padded text reads back as the number,
      and a number below 10^w pads to exactly w characters. */
  lemma PadNatRoundTrip(n: nat, w: nat)
    requires 1 <= w && n < Pow10(w)
    ensures |PadNat(n, w)| == w
    ensures ParseNat(PadNat(n, w)) == n
  {
    var d := NatToString(n);
    NatToStringWidth(n, w);
    ParseNatToString(n);
    if |d| < w {
      ParseLeadingZeros(w - |d|, d);
    }
  }

  /** `int.ToString()` with an invariant culture: a leading `-` for negatives. */
  function IntToString(i: int): (r: string)
    ensures |r| >= 1
  {
    if i < 0 then "-" + NatToString(-i) else NatToString(i)
  }

  // Hexadecimal digits, lower case as `Guid.ToString()` prints them.

  function HexChar(d: nat): char
    requires d < 16
  {
    if d < 10 then DigitChar(d) else (d - 10 + 'a' as int) as char
  }

  lemma HexCharInjective(a: nat, b: nat)
    requires a < 16 && b < 16
    ensures HexChar(a) == HexChar(b) ==> a == b
  {
  }
}
