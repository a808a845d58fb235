/**
 * The string form built by `uuid()` from 16 random bytes:
 * `fmt.Sprintf("%x-%x-%x-%x-%x", b[0:4], b[4:6], b[6:8], b[8:10], b[10:])`.
 * `%x` on a byte slice writes two lowercase hex digits per byte. The layout is
 * the 8-4-4-4-12 one of section 3 of RFC 4122, but no version or variant bits
 * (section 4.4 of RFC 4122) are set: every byte is printed as read.
 * Both revisions of the program define `uuid()` with the same body.
 */
module Uuid {
  import opened Base

  predicate IsLowerHex(c: char) {
    '0' <= c <= '9' || 'a' <= c <= 'f'
  }

  /** The lowercase hex digit for a value below 16. */
  function HexDigit(n: nat): (c: char)
    requires n < 16
    ensures IsLowerHex(c)
  {
    if n < 10 then ('0' as int + n) as char else ('a' as int + n - 10) as char
  }

  /** `%x` of a byte slice: two digits per byte, high nibble first. */
  function Hex(bs: seq<Byte>): (r: string)
    ensures |r| == 2 * |bs|
    ensures forall i :: 0 <= i < |r| ==> IsLowerHex(r[i])
  {
    if bs == [] then "" else [HexDigit(bs[0] as int / 16), HexDigit(bs[0] as int % 16)] + Hex(bs[1..])
  }

  /** The ID string for the 16 bytes read from the random source. */
  function Format(b: seq<Byte>): (r: string)
    requires |b| == 16
    ensures |r| == 36
    ensures r[8] == '-' && r[13] == '-' && r[18] == '-' && r[23] == '-'
    ensures forall i :: 0 <= i < 36 && i != 8 && i != 13 && i != 18 && i != 23 ==> IsLowerHex(r[i])
  {
    Hex(b[0..4]) + "-" + Hex(b[4..6]) + "-" + Hex(b[6..8]) + "-" + Hex(b[8..10]) + "-" + Hex(b[10..])
  }

  // ---- Decoding: the inverse of Format, used to show that distinct bytes give distinct IDs ----

  function DigitValue(c: char): (v: Option<nat>)
    ensures v.Some? ==> v.value < 16
  {
    if '0' <= c <= '9' then Some(c as int - '0' as int)
    else if 'a' <= c <= 'f' then Some(c as int - 'a' as int + 10)
    else None
  }

  /** Reads pairs of lowercase hex digits back into bytes. */
  function Unhex(s: string): (r: Option<seq<Byte>>)
    decreases |s|
  {
    if s == [] then Some([])
    else if |s| == 1 then None
    else match (DigitValue(s[0]), DigitValue(s[1]), Unhex(s[2..]))
      case (Some(hi), Some(lo), Some(rest)) => Some([(hi * 16 + lo) as Byte] + rest)
      case _ => None
  }

  predicate HasDashes(s: string) {
    |s| == 36 && s[8] == '-' && s[13] == '-' && s[18] == '-' && s[23] == '-'
  }

  /** The five digit groups of a 36-character ID, without the dashes between them. */
  function Ungrouped(s: string): string
    requires |s| == 36
  {
    s[..8] + s[9..13] + s[14..18] + s[19..23] + s[24..]
  }

  /** Accepts exactly the strings `Format` produces and returns their bytes. */
  function Parse(s: string): (r: Option<seq<Byte>>)
  {
    if HasDashes(s) then
      match Unhex(Ungrouped(s))
      case Some(b) => if |b| == 16 then Some(b) else None
      case None => None
    else None
  }

  lemma {:induction false} HexAppend(a: seq<Byte>, b: seq<Byte>)
    ensures Hex(a + b) == Hex(a) + Hex(b)
  {
    if a != [] {
      var d := [HexDigit(a[0] as int / 16), HexDigit(a[0] as int % 16)];
      assert (a + b)[0] == a[0];
      assert (a + b)[1..] == a[1..] + b;
      HexAppend(a[1..], b);
      calc {
        Hex(a + b);
        d + Hex(a[1..] + b);
        d + (Hex(a[1..]) + Hex(b));
        (d + Hex(a[1..])) + Hex(b);
        Hex(a) + Hex(b);
      }
    } else {
      assert a + b == b;
    }
  }

  lemma {:induction false} UnhexHex(bs: seq<Byte>)
    ensures Unhex(Hex(bs)) == Some(bs)
  {
    if bs != [] {
      var h := Hex(bs);
      var v := bs[0] as int;
      assert DigitValue(HexDigit(v / 16)) == Some(v / 16);
      assert DigitValue(HexDigit(v % 16)) == Some(v % 16);
      assert h[2..] == Hex(bs[1..]);
      UnhexHex(bs[1..]);
      assert ((v / 16) * 16 + v % 16) as Byte == bs[0];
      assert [bs[0]] + bs[1..] == bs;
    }
  }

  lemma {:induction false} HexUnhex(s: string, bs: seq<Byte>)
    requires Unhex(s) == Some(bs)
    ensures Hex(bs) == s
    decreases |s|
  {
    if s != [] {
      var hi, lo := DigitValue(s[0]).value, DigitValue(s[1]).value;
      var rest := Unhex(s[2..]).value;
      HexUnhex(s[2..], rest);
      var b := (hi * 16 + lo) as Byte;
      assert bs == [b] + rest;
      assert b as int / 16 == hi && b as int % 16 == lo;
      assert HexDigit(hi) == s[0] && HexDigit(lo) == s[1];
      assert bs[1..] == rest;
      assert s == [s[0], s[1]] + s[2..];
    }
  }

  /** The five groups of `Format(b)`, read back without their dashes, are `%x` of the whole of `b`. */
  lemma FormatGroups(b: seq<Byte>)
    requires |b| == 16
    ensures HasDashes(Format(b)) && Ungrouped(Format(b)) == Hex(b)
  {
    var r := Format(b);
    var g1, g2, g3, g4, g5 := Hex(b[0..4]), Hex(b[4..6]), Hex(b[6..8]), Hex(b[8..10]), Hex(b[10..]);
    assert r == g1 + "-" + g2 + "-" + g3 + "-" + g4 + "-" + g5;
    assert r[..8] == g1;
    assert r[9..13] == g2;
    assert r[14..18] == g3;
    assert r[19..23] == g4;
    assert r[24..] == g5;
    HexGroups(b);
  }

  /** `%x` of the five slices, side by side, is `%x` of the whole. */
  lemma HexGroups(b: seq<Byte>)
    requires |b| == 16
    ensures Hex(b[0..4]) + Hex(b[4..6]) + Hex(b[6..8]) + Hex(b[8..10]) + Hex(b[10..]) == Hex(b)
  {
    HexAppend(b[0..4], b[4..6]);
    assert b[0..4] + b[4..6] == b[0..6];
    HexAppend(b[0..6], b[6..8]);
    assert b[0..6] + b[6..8] == b[0..8];
    HexAppend(b[0..8], b[8..10]);
    assert b[0..8] + b[8..10] == b[0..10];
    HexAppend(b[0..10], b[10..]);
    assert b[0..10] + b[10..] == b;
  }

  /** Parsing an ID recovers the 16 bytes it was made from. */
  lemma ParseFormat(b: seq<Byte>)
    requires |b| == 16
    ensures Parse(Format(b)) == Some(b)
  {
    FormatGroups(b);
    UnhexHex(b);
  }

  /** Parse accepts only strings in the exact form Format produces. */
  lemma FormatParse(s: string, b: seq<Byte>)
    requires Parse(s) == Some(b)
    ensures |b| == 16 && Format(b) == s
  {
    HexUnhex(Ungrouped(s), b);
    FormatGroups(b);
    UngroupedInjective(Format(b), s);
  }

  /** Two dashed IDs with the same digits are the same string. */
  lemma UngroupedInjective(r: string, s: string)
    requires HasDashes(r) && HasDashes(s) && Ungrouped(r) == Ungrouped(s)
    ensures r == s
  {
    var u := Ungrouped(r);
    assert r[..8] == u[..8] == s[..8];
    assert r[9..13] == u[8..12] == s[9..13];
    assert r[14..18] == u[12..16] == s[14..18];
    assert r[19..23] == u[16..20] == s[19..23];
    assert r[24..] == u[20..] == s[24..];
    assert r == r[..8] + "-" + r[9..13] + "-" + r[14..18] + "-" + r[19..23] + "-" + r[24..];
    assert s == s[..8] + "-" + s[9..13] + "-" + s[14..18] + "-" + s[19..23] + "-" + s[24..];
  }

  /** Distinct random bytes always yield distinct IDs. */
  lemma FormatInjective(a: seq<Byte>, b: seq<Byte>)
    requires |a| == 16 && |b| == 16 && Format(a) == Format(b)
    ensures a == b
  {
    ParseFormat(a);
    ParseFormat(b);
  }
}
