/** Python's uuid.uuid4() and str(UUID): a random 128-bit value stamped with
    version 4 and the variant of RFC 4122 (section 4.4), printed as 32
    lower-case hexadecimal digits grouped 8-4-4-4-12. The sixteen random
    bytes (os.urandom(16)) are a parameter. */
module Uuid {
  import opened Common

  newtype Byte = b: int | 0 <= b < 256

  /** UUID(bytes=random, version=4): the high nibble of octet 6 becomes 4 and
      the two high bits of octet 8 become 10; every other bit is random. */
  function Uuid4(random: seq<Byte>): (u: seq<Byte>)
    requires |random| == 16
    ensures |u| == 16
    ensures u[6] / 16 == 4 && u[6] % 16 == random[6] % 16
    ensures u[8] / 64 == 2 && u[8] % 64 == random[8] % 64
    ensures forall k :: 0 <= k < 16 && k != 6 && k != 8 ==> u[k] == random[k]
  {
    random[6 := random[6] % 16 + 64][8 := random[8] % 64 + 128]
  }

  predicate IsLowerHex(c: char) {
    '0' <= c <= '9' || 'a' <= c <= 'f'
  }

  /** The digit of value n in '%x' formatting (lower case). */
  function HexDigit(n: int): (c: char)
    requires 0 <= n < 16
    ensures IsLowerHex(c)
  {
    if n < 10 then ('0' as int + n) as char else ('a' as int + n - 10) as char
  }

  function HexValue(c: char): (r: Option<int>)
    ensures r.Some? ==> 0 <= r.value < 16
  {
    if '0' <= c <= '9' then Some(c as int - '0' as int)
    else if 'a' <= c <= 'f' then Some(c as int - 'a' as int + 10)
    else None
  }

  lemma HexValueOfDigit(n: int)
    requires 0 <= n < 16
    ensures HexValue(HexDigit(n)) == Some(n)
  {
  }

  /** Two lower-case hex digits per byte, most significant first ('%032x'). */
  function Hex(bs: seq<Byte>): (s: string)
    ensures |s| == 2 * |bs|
  {
    if |bs| == 0 then []
    else [HexDigit(bs[0] as int / 16), HexDigit(bs[0] as int % 16)] + Hex(bs[1..])
  }

  lemma {:induction false} HexIsLowerHex(bs: seq<Byte>)
    ensures forall k :: 0 <= k < |Hex(bs)| ==> IsLowerHex(Hex(bs)[k])
  {
    if |bs| > 0 {
      HexIsLowerHex(bs[1..]);
      var s := Hex(bs);
      assert s == [HexDigit(bs[0] as int / 16), HexDigit(bs[0] as int % 16)] + Hex(bs[1..]);
      forall k | 2 <= k < |s| ensures IsLowerHex(s[k]) {
        assert s[k] == Hex(bs[1..])[k - 2];
      }
    }
  }

  function ParseHex(s: string): (r: Option<seq<Byte>>)
    ensures r.Some? ==> 2 * |r.value| == |s|
  {
    if |s| == 0 then Some([])
    else if |s| == 1 then None
    else
      var hi, lo, rest := HexValue(s[0]), HexValue(s[1]), ParseHex(s[2..]);
      if hi.Some? && lo.Some? && rest.Some? then Some([(hi.value * 16 + lo.value) as Byte] + rest.value)
      else None
  }

  lemma {:induction false} ParseHexOfHex(bs: seq<Byte>)
    ensures ParseHex(Hex(bs)) == Some(bs)
  {
    if |bs| > 0 {
      var b := bs[0] as int;
      var hi, lo := b / 16, b % 16;
      var s := Hex(bs);
      assert s == [HexDigit(hi), HexDigit(lo)] + Hex(bs[1..]);
      HexValueOfDigit(hi);
      HexValueOfDigit(lo);
      assert s[0] == HexDigit(hi) && s[1] == HexDigit(lo);
      assert s[2..] == Hex(bs[1..]);
      ParseHexOfHex(bs[1..]);
      assert hi * 16 + lo == b;
      assert [bs[0]] + bs[1..] == bs;
    }
  }

  /** str(UUID): groups of 8, 4, 4, 4 and 12 hex digits joined by '-'. */
  function Canonical(u: seq<Byte>): (s: string)
    requires |u| == 16
    ensures |s| == 36
    ensures s[8] == '-' && s[13] == '-' && s[18] == '-' && s[23] == '-'
  {
    Hex(u[..4]) + "-" + Hex(u[4..6]) + "-" + Hex(u[6..8]) + "-" + Hex(u[8..10]) + "-" + Hex(u[10..])
  }

  /** The inverse of Canonical: UUID(hex_string) restricted to the canonical form. */
  function ParseCanonical(s: string): (r: Option<seq<Byte>>)
    ensures r.Some? ==> |r.value| == 16
  {
    if |s| != 36 || s[8] != '-' || s[13] != '-' || s[18] != '-' || s[23] != '-' then None
    else
      var a, b, c := ParseHex(s[..8]), ParseHex(s[9..13]), ParseHex(s[14..18]);
      var d, e := ParseHex(s[19..23]), ParseHex(s[24..]);
      if a.Some? && b.Some? && c.Some? && d.Some? && e.Some? then
        Some(a.value + b.value + c.value + d.value + e.value)
      else None
  }

  lemma Middle(p: string, x: string, q: string)
    ensures (p + x + q)[|p|..|p| + |x|] == x
  {
    assert forall k :: 0 <= k < |x| ==> (p + x + q)[|p| + k] == x[k];
  }

  /** Where each group of hex digits sits in the canonical text. */
  lemma CanonicalGroups(u: seq<Byte>)
    requires |u| == 16
    ensures Canonical(u)[..8] == Hex(u[..4])
    ensures Canonical(u)[9..13] == Hex(u[4..6])
    ensures Canonical(u)[14..18] == Hex(u[6..8])
    ensures Canonical(u)[19..23] == Hex(u[8..10])
    ensures Canonical(u)[24..] == Hex(u[10..])
  {
    var a, b, c, d, e := Hex(u[..4]), Hex(u[4..6]), Hex(u[6..8]), Hex(u[8..10]), Hex(u[10..]);
    var p1 := a + "-";
    var p2 := p1 + b + "-";
    var p3 := p2 + c + "-";
    var p4 := p3 + d + "-";
    var s := p4 + e;
    assert Canonical(u) == s;
    Middle([], a, "-" + b + "-" + c + "-" + d + "-" + e);
    Middle(p1, b, "-" + c + "-" + d + "-" + e);
    Middle(p2, c, "-" + d + "-" + e);
    Middle(p3, d, "-" + e);
    Middle(p4, e, []);
  }

  /** The canonical text determines the UUID: printing then parsing is the identity. */
  lemma CanonicalRoundTrip(u: seq<Byte>)
    requires |u| == 16
    ensures ParseCanonical(Canonical(u)) == Some(u)
  {
    CanonicalGroups(u);
    ParseHexOfHex(u[..4]);
    ParseHexOfHex(u[4..6]);
    ParseHexOfHex(u[6..8]);
    ParseHexOfHex(u[8..10]);
    ParseHexOfHex(u[10..]);
    assert u[..4] + u[4..6] + u[6..8] + u[8..10] + u[10..] == u;
  }

  /** Every character of the canonical text other than the four hyphens is
      a lower-case hex digit. */
  lemma CanonicalIsLowerHex(u: seq<Byte>)
    requires |u| == 16
    ensures forall k :: 0 <= k < 36 && k != 8 && k != 13 && k != 18 && k != 23 ==> IsLowerHex(Canonical(u)[k])
  {
    var s := Canonical(u);
    CanonicalGroups(u);
    HexIsLowerHex(u[..4]);
    HexIsLowerHex(u[4..6]);
    HexIsLowerHex(u[6..8]);
    HexIsLowerHex(u[8..10]);
    HexIsLowerHex(u[10..]);
    forall k | 0 <= k < 36 && k != 8 && k != 13 && k != 18 && k != 23 ensures IsLowerHex(s[k]) {
      if k < 8 {
        assert s[k] == s[..8][k];
      } else if k < 13 {
        assert s[k] == s[9..13][k - 9];
      } else if k < 18 {
        assert s[k] == s[14..18][k - 14];
      } else if k < 23 {
        assert s[k] == s[19..23][k - 19];
      } else {
        assert s[k] == s[24..][k - 24];
      }
    }
  }

  /** The version digit is '4' and the variant digit is one of 8, 9, a, b. */
  lemma Uuid4Digits(random: seq<Byte>)
    requires |random| == 16
    ensures Canonical(Uuid4(random))[14] == '4'
    ensures Canonical(Uuid4(random))[19] in "89ab"
  {
    var u := Uuid4(random);
    var s := Canonical(u);
    assert s[14..18] == Hex(u[6..8]);
    assert s[14] == Hex(u[6..8])[0] == HexDigit(u[6] as int / 16);
    assert s[19..23] == Hex(u[8..10]);
    assert s[19] == Hex(u[8..10])[0] == HexDigit(u[8] as int / 16);
    assert 8 <= u[8] as int / 16 <= 11;
  }
}
