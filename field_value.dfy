/**
 * The untyped values stored in card fields and embedded in SQL text, as a
 * tagged union, and the enumeration types whose names select card sections,
 * fields and tables.
 */
module FieldValue {
  import opened Text

  /** A reference that may be `null`. */
  datatype Option<T> = None | Some(value: T)

  type Nibble = d: nat | d < 16

  /** The 32 hexadecimal digits of a `System.Guid`, in the order `ToString()` prints them. */
  type GuidDigits = s: seq<Nibble> | |s| == 32 witness seq(32, _ => 0)

  datatype Guid = Guid(digits: GuidDigits)

  /** `Guid.Empty`, all digits zero. */
  const EmptyGuid: Guid := Guid([0, 0, 0, 0, 0, 0, 0, 0, 0, 0, 0, 0, 0, 0, 0, 0, 0, 0, 0, 0, 0, 0, 0, 0, 0, 0, 0, 0, 0, 0, 0, 0])

  /** A `System.DateTime` by its calendar components; `fraction` is the part
      below one second (ticks), which the SQL literal does not show. */
  datatype DateTime = DateTime(year: nat, month: nat, day: nat,
                               hour: nat, minute: nat, second: nat, fraction: nat)

  /** The ranges `System.DateTime` enforces on its components. */
  predicate ValidDateTime(dt: DateTime) {
    && 1 <= dt.year <= 9999 && 1 <= dt.month <= 12 && 1 <= dt.day <= 31
    && dt.hour < 24 && dt.minute < 60 && dt.second < 60 && dt.fraction < 10_000_000
  }

  /** A field value: `null`, a string, an integer, a boolean, a Guid, a date,
      or any other object, which carries the text its `ToString()` returns. */
  datatype Value =
    | Null
    | Str(s: string)
    | Int(i: int)
    | Bool(b: bool)
    | GuidValue(g: Guid)
    | DateTimeValue(dt: DateTime)
    | Other(text: string)

  /** A member of an enumeration: `typeof(T).Name` and `ToString()`. */
  datatype EnumKey = EnumKey(typeName: string, name: string)

  /** An enumeration type: its name and the names `Enum.GetValues` lists, in order. */
  datatype EnumType = EnumType(name: string, members: seq<string>)

  function HexText(ds: seq<Nibble>): (r: string)
    ensures |r| == |ds|
    ensures forall i :: 0 <= i < |ds| ==> r[i] == HexChar(ds[i])
  {
    seq(|ds|, i requires 0 <= i < |ds| => HexChar(ds[i]))
  }

  /** `Guid.ToString()`: the "D" format, five dash-separated groups of 8-4-4-4-12 hex digits. */
  function GuidText(g: Guid): string {
    var d := g.digits;
    HexText(d[..8]) + "-" + HexText(d[8..12]) + "-" + HexText(d[12..16]) + "-"
      + HexText(d[16..20]) + "-" + HexText(d[20..])
  }

  lemma {:induction false} HexTextInjective(a: seq<Nibble>, b: seq<Nibble>)
    requires HexText(a) == HexText(b)
    ensures a == b
  {
    forall i | 0 <= i < |a|
      ensures a[i] == b[i]
    {
      HexCharInjective(a[i], b[i]);
    }
  }

  /** The printed form of a Guid has 36 characters with dashes at 8, 13, 18
      and 23, and different Guids print differently. */
  lemma GuidTextInjective(g: Guid, h: Guid)
    ensures |GuidText(g)| == 36
    ensures GuidText(g)[8] == '-' && GuidText(g)[13] == '-'
    ensures GuidText(g)[18] == '-' && GuidText(g)[23] == '-'
    ensures GuidText(g) == GuidText(h) <==> g == h
  {
    var a, b := g.digits, h.digits;
    GuidPieces(HexText(a[..8]), HexText(a[8..12]), HexText(a[12..16]), HexText(a[16..20]), HexText(a[20..]));
    GuidPieces(HexText(b[..8]), HexText(b[8..12]), HexText(b[12..16]), HexText(b[16..20]), HexText(b[20..]));
    if GuidText(g) == GuidText(h) {
      HexTextInjective(a[..8], b[..8]);
      HexTextInjective(a[8..12], b[8..12]);
      HexTextInjective(a[12..16], b[12..16]);
      HexTextInjective(a[16..20], b[16..20]);
      HexTextInjective(a[20..], b[20..]);
      assert a == a[..8] + a[8..12] + a[12..16] + a[16..20] + a[20..];
      assert b == b[..8] + b[8..12] + b[12..16] + b[16..20] + b[20..];
    }
  }

  /** Where the five digit groups sit in the printed form. */
  lemma GuidPieces(p1: string, p2: string, p3: string, p4: string, p5: string)
    requires |p1| == 8 && |p2| == 4 && |p3| == 4 && |p4| == 4 && |p5| == 12
    ensures var s := p1 + "-" + p2 + "-" + p3 + "-" + p4 + "-" + p5;
      && |s| == 36 && s[8] == '-' && s[13] == '-' && s[18] == '-' && s[23] == '-'
      && s[0..8] == p1 && s[9..13] == p2 && s[14..18] == p3 && s[19..23] == p4 && s[24..] == p5
  {
    var s := p1 + "-" + p2 + "-" + p3 + "-" + p4 + "-" + p5;
    assert s[0..8] == p1;
    assert s[9..13] == p2;
    assert s[14..18] == p3;
    assert s[19..23] == p4;
    assert s[24..] == p5;
  }
}
