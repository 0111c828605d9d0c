/** The hex-text round trip the decoder reads its 16-bit fields with: each
    byte is rendered by `hex(b).split('0x')[1]`, the high byte's digits are
    written before the low byte's, and the text is read back by `int(t, 16)`.
    The azimuth pads each rendering to two digits; the distance does not. */
module HexText {
  import opened Bytes

  /** The value read from (lo, hi) when lo's hex digits are not padded: a
      single-digit lo shifts hi by 4 bits instead of 8. */
  function Unpadded16(lo: Byte, hi: Byte): (v: nat)
    ensures v < 0x1_0000
    ensures lo >= 16 ==> v == LE16(lo, hi)
    ensures lo < 16 ==> v < 16 * 256 && v % 16 == lo && v / 16 == hi
  {
    if lo < 16 then 16 * hi + lo else lo + 256 * hi
  }

  predicate IsHexDigit(c: char)
  {
    '0' <= c <= '9' || 'a' <= c <= 'f'
  }

  predicate IsHex(s: string)
  {
    forall i :: 0 <= i < |s| ==> IsHexDigit(s[i])
  }

  /** The value of one lower-case hex digit. */
  function HexValue(c: char): (d: nat)
    requires IsHexDigit(c)
    ensures d < 16
  {
    if c <= '9' then c as int - '0' as int else c as int - 'a' as int + 10
  }

  /** The lower-case hex digit of d. */
  function HexDigit(d: nat): (c: char)
    requires d < 16
    ensures IsHexDigit(c) && HexValue(c) == d
  {
    if d < 10 then ('0' as int + d) as char else ('a' as int + d - 10) as char
  }

  /** `hex(b).split('0x')[1]`: the digits of b with no leading zero, so one
      digit below 0x10 and two from 0x10 on. */
  function Hex(b: Byte): (s: string)
    ensures IsHex(s) && |s| == (if b < 16 then 1 else 2)
  {
    if b < 16 then [HexDigit(b)] else [HexDigit(b / 16), HexDigit(b % 16)]
  }

  /** `if len(a) == 1: a = '0' + a`. */
  function Pad(s: string): (t: string)
    requires IsHex(s)
    ensures IsHex(t)
  {
    if |s| == 1 then "0" + s else s
  }

  /** `int(s, 16)` on a non-empty run of lower-case hex digits. */
  function ParseHex(s: string): nat
    requires IsHex(s)
    decreases |s|
  {
    if s == [] then 0 else 16 * ParseHex(s[..|s| - 1]) + HexValue(s[|s| - 1])
  }

  function Pow16(n: nat): (p: nat)
    ensures p >= 1
  {
    if n == 0 then 1 else 16 * Pow16(n - 1)
  }

  lemma IsHexAppend(s: string, t: string)
    requires IsHex(s) && IsHex(t)
    ensures IsHex(s + t)
  {
    forall i | 0 <= i < |s + t|
      ensures IsHexDigit((s + t)[i])
    {
      if i < |s| {
        assert (s + t)[i] == s[i];
      } else {
        assert (s + t)[i] == t[i - |s|];
      }
    }
  }

  /** Reading a concatenation: the digits of t are the low |t| digits. */
  lemma {:induction false} ParseHexAppend(s: string, t: string)
    requires IsHex(s) && IsHex(t)
    ensures IsHex(s + t)
    ensures ParseHex(s + t) == ParseHex(s) * Pow16(|t|) + ParseHex(t)
    decreases |t|
  {
    IsHexAppend(s, t);
    if t == [] {
      assert s + t == s;
    } else {
      var u, d := t[..|t| - 1], t[|t| - 1];
      assert IsHex(u);
      ParseHexAppend(s, u);
      assert (s + t)[..|s + t| - 1] == s + u;
      assert (s + t)[|s + t| - 1] == d;
      var p, q, r, h := ParseHex(s), Pow16(|u|), ParseHex(u), HexValue(d);
      var pq, pt := p * q, p * Pow16(|t|);
      assert ParseHex(s + u) == pq + r;
      assert ParseHex(s + t) == 16 * (pq + r) + h;
      assert Pow16(|t|) == 16 * q;
      ShiftDigits(p, q);
      assert pt == 16 * pq;
      assert ParseHex(t) == 16 * r + h;
    }
  }

  lemma ShiftDigits(p: nat, q: nat)
    ensures 16 * (p * q) == p * (16 * q)
  {
  }

  /** The rendering of a byte reads back as the byte, padded or not. */
  lemma ParseHexOfHex(b: Byte)
    ensures ParseHex(Hex(b)) == b
    ensures ParseHex(Pad(Hex(b))) == b && |Pad(Hex(b))| == 2
  {
    var s := Hex(b);
    if b < 16 {
      assert s[..0] == [];
      assert ParseHex(s) == 16 * ParseHex([]) + HexValue(s[0]);
      ParseHexAppend("0", s);
      assert "0"[..0] == [];
      assert ParseHex("0") == 16 * ParseHex([]) + HexValue('0');
    } else {
      var hi := [HexDigit(b / 16)];
      assert s[..1] == hi && hi[..0] == [];
      assert ParseHex(hi) == 16 * ParseHex([]) + HexValue(hi[0]);
      assert ParseHex(s) == 16 * ParseHex(hi) + HexValue(s[1]);
    }
  }

  /** `int(b + a, 16)` with both renderings padded, as the azimuth is read:
      the little-endian 16-bit value of (lo, hi). */
  function PaddedHexPair(lo: Byte, hi: Byte): (v: nat)
    ensures v == LE16(lo, hi)
  {
    ParseHexOfHex(lo);
    ParseHexOfHex(hi);
    ParseHexAppend(Pad(Hex(hi)), Pad(Hex(lo)));
    ParseHex(Pad(Hex(hi)) + Pad(Hex(lo)))
  }

  /** `int(b + a, 16)` with neither rendering padded, as a distance is read:
      below 0x10 the low byte has one digit, so the high byte is worth 16
      rather than 256. */
  function HexPair(lo: Byte, hi: Byte): (v: nat)
    ensures v == Unpadded16(lo, hi)
  {
    ParseHexOfHex(lo);
    ParseHexOfHex(hi);
    ParseHexAppend(Hex(hi), Hex(lo));
    assert Pow16(1) == 16 && Pow16(2) == 256;
    ParseHex(Hex(hi) + Hex(lo))
  }

  /** Lines 39-43 of the decoder: render both header bytes, pad each to two
      digits, and read the high digits first. */
  method ReadAzimuth(lo: Byte, hi: Byte) returns (azimuth: nat)
    ensures azimuth == LE16(lo, hi)
  {
    var a := Hex(lo);
    if |a| == 1 { a := "0" + a; }
    var b := Hex(hi);
    if |b| == 1 { b := "0" + b; }
    assert a == Pad(Hex(lo)) && b == Pad(Hex(hi));
    azimuth := PaddedHexPair(lo, hi);
    assert azimuth == ParseHex(b + a);
  }

  /** Lines 66-70 of the decoder: render both distance bytes without padding
      and read the high digits first. */
  method ReadDistance(lo: Byte, hi: Byte) returns (dist: nat)
    ensures dist == Unpadded16(lo, hi)
  {
    var a := Hex(lo);
    var b := Hex(hi);
    dist := HexPair(lo, hi);
    assert dist == ParseHex(b + a);
  }

  /** The unpadded reading loses information: (0x00, 0x02) and (0x20, 0x00)
      read alike, although as little-endian values they are 512 and 32. */
  lemma UnpaddedReadingCollides()
    ensures HexPair(0x00, 0x02) == HexPair(0x20, 0x00) == 32
    ensures PaddedHexPair(0x00, 0x02) == 512 && PaddedHexPair(0x20, 0x00) == 32
  {
  }

  /** The padded reading is the one that keeps both bytes: distinct byte
      pairs read differently, and it agrees with the unpadded reading exactly
      when the low byte has two digits or the high byte is zero. */
  lemma PaddedReadingIsFaithful(lo1: Byte, hi1: Byte, lo2: Byte, hi2: Byte)
    ensures PaddedHexPair(lo1, hi1) == PaddedHexPair(lo2, hi2) <==> lo1 == lo2 && hi1 == hi2
    ensures HexPair(lo1, hi1) == PaddedHexPair(lo1, hi1) <==> lo1 >= 16 || hi1 == 0
  {
  }
}
