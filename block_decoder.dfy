/** Decoding of one HDL-32E firing block (the bytes between two block markers):
    a 16-bit azimuth followed by per-channel (distance, reflectivity) triples.

    Both 16-bit fields are read through hex text (see HexText). Azimuths are
    integer centidegrees (the padded, little-endian header value, degrees ×
    100). Distances are raw counts of 2 mm units, read without padding, so
    a low byte below 0x10 makes the high byte worth 16 rather than 256. The Cartesian point of a return is a
    fixed function of its raw distance, its channel (which selects the
    channel's vertical angle) and the block azimuth, so a record keeps those
    three values in place of x, y and z. */
module BlockDecoder {
  import opened Bytes
  import opened HexText

  /** Blocks whose channel count lies in [MinChannelCount, MaxChannelCount]
      are decoded; the last block of a 1206-byte packet carries the packet's
      6 trailing bytes and so counts 34 channels. */
  const MinChannelCount := 32
  const MaxChannelCount := 64
  /** Length of the HDL-32E vertical-angle table: the channels read per block. */
  const VerticalAngleCount := 32
  /** 1 m in units of 2 mm: shorter returns are dropped. */
  const MinRawDistance := 500

  /** One laser return: the source's row (x, y, z, intensity, azimuth,
      timestamp), with (x, y, z) given by its geometric inputs. */
  datatype Return = Return(rawDistance: nat, channel: nat, reflectivity: Byte,
                           azimuth: nat, timestamp: int)

  /** Result of decoding a block: the kept returns, the azimuth the caller
      carries forward, and the print-only "azimuth did not increase" warning. */
  datatype Decoded = Decoded(records: seq<Return>, azimuth: nat, regressed: bool)

  /** Both azimuth bytes zero: the block is reported as degenerate. */
  predicate ZeroHeader(block: seq<Byte>)
    requires |block| >= 2
  {
    block[0] == 0 && block[1] == 0
  }

  function ChannelCount(block: seq<Byte>): nat
    requires |block| >= 2
  {
    (|block| - 2) / 3
  }

  predicate SupportedLayout(block: seq<Byte>)
    requires |block| >= 2
  {
    MinChannelCount <= ChannelCount(block) <= MaxChannelCount
  }

  /** The azimuth a block hands back to its caller. */
  function BlockAzimuth(block: seq<Byte>): nat
    requires |block| >= 2
  {
    if ZeroHeader(block) then 0 else LE16(block[0], block[1])
  }

  /** Raw distance of channel k: bytes 2+3k (low) and 3+3k (high), their
      unpadded hex renderings concatenated and read back (HexText.HexPair). */
  function RawDistance(block: seq<Byte>, k: nat): nat
    requires 4 + 3 * k < |block|
  {
    Unpadded16(block[2 + 3 * k], block[3 + 3 * k])
  }

  /** Reflectivity of channel k: byte 4+3k. */
  function Reflectivity(block: seq<Byte>, k: nat): Byte
    requires 4 + 3 * k < |block|
  {
    block[4 + 3 * k]
  }

  /** A channel is kept iff its distance is at least one metre. */
  predicate Kept(block: seq<Byte>, k: nat)
    requires 4 + 3 * k < |block|
  {
    RawDistance(block, k) >= MinRawDistance
  }

  function ChannelReturn(timestamp: int, block: seq<Byte>, azimuth: nat, k: nat): Return
    requires 4 + 3 * k < |block|
  {
    Return(RawDistance(block, k), k, Reflectivity(block, k), azimuth, timestamp)
  }

  /** The kept returns of channels 0 .. n-1, in channel order. */
  function KeptReturns(timestamp: int, block: seq<Byte>, azimuth: nat, n: nat): (rs: seq<Return>)
    requires n <= VerticalAngleCount && |block| >= 2 + 3 * VerticalAngleCount
    ensures |rs| <= n
  {
    if n == 0 then []
    else
      KeptReturns(timestamp, block, azimuth, n - 1)
      + (if Kept(block, n - 1) then [ChannelReturn(timestamp, block, azimuth, n - 1)] else [])
  }

  /** The returns a block contributes. */
  function BlockRecords(timestamp: int, block: seq<Byte>): (rs: seq<Return>)
    requires |block| >= 2
    ensures |rs| <= VerticalAngleCount
  {
    if ZeroHeader(block) || !SupportedLayout(block) then []
    else KeptReturns(timestamp, block, BlockAzimuth(block), VerticalAngleCount)
  }

  /** Specification of the block decoder (reader_pcap_payload_block). */
  function Decode(timestamp: int, block: seq<Byte>, prevAzimuth: nat): (d: Decoded)
    requires |block| >= 2
    ensures d.azimuth < 0x1_0000 && |d.records| <= VerticalAngleCount
  {
    Decoded(BlockRecords(timestamp, block), BlockAzimuth(block),
            !ZeroHeader(block) && BlockAzimuth(block) <= prevAzimuth)
  }

  /** A zero header yields no returns and azimuth 0, whatever follows it. */
  lemma ZeroHeaderDecodesEmpty(timestamp: int, block: seq<Byte>, prevAzimuth: nat)
    requires |block| >= 2 && ZeroHeader(block)
    ensures Decode(timestamp, block, prevAzimuth) == Decoded([], 0, false)
  {
  }

  /** Otherwise the azimuth is the little-endian header (at most 655.35
      degrees), and a block whose channel count is outside [32, 64] yields no
      returns together with its own azimuth, not the previous one. */
  lemma HeaderAzimuth(timestamp: int, block: seq<Byte>, prevAzimuth: nat)
    requires |block| >= 2 && !ZeroHeader(block)
    ensures var d := Decode(timestamp, block, prevAzimuth);
      0 < d.azimuth == block[0] as int + 256 * block[1] as int <= 65535
      && (d.regressed <==> d.azimuth <= prevAzimuth)
      && (!SupportedLayout(block) ==> d.records == [])
  {
  }

  /** The carried azimuth and the returns do not depend on the previous
      azimuth; it only feeds the warning. */
  lemma DecodeIgnoresPrevious(timestamp: int, block: seq<Byte>, prev1: nat, prev2: nat)
    requires |block| >= 2
    ensures Decode(timestamp, block, prev1).records == Decode(timestamp, block, prev2).records
    ensures Decode(timestamp, block, prev1).azimuth == Decode(timestamp, block, prev2).azimuth
  {
  }

  /** The returns of channels below n extend those below n-1 by at most the
      return of channel n-1. */
  lemma KeptReturnsLast(timestamp: int, block: seq<Byte>, azimuth: nat, n: nat)
    requires 0 < n <= VerticalAngleCount && |block| >= 2 + 3 * VerticalAngleCount
    ensures var prefix := KeptReturns(timestamp, block, azimuth, n - 1);
      var rs := KeptReturns(timestamp, block, azimuth, n);
      rs[..|prefix|] == prefix
      && (forall i :: 0 <= i < |prefix| ==> rs[i] == prefix[i])
      && (Kept(block, n - 1) ==>
            |rs| == |prefix| + 1 && rs[|prefix|] == ChannelReturn(timestamp, block, azimuth, n - 1))
      && (!Kept(block, n - 1) ==> rs == prefix)
  {
  }

  /** Each kept return of a channel below n is that channel's own return, and
      its distance is at least 1 m. */
  lemma {:induction false} KeptReturnsSound(timestamp: int, block: seq<Byte>, azimuth: nat, n: nat)
    requires n <= VerticalAngleCount && |block| >= 2 + 3 * VerticalAngleCount
    ensures forall i :: 0 <= i < |KeptReturns(timestamp, block, azimuth, n)| ==>
      var r := KeptReturns(timestamp, block, azimuth, n)[i];
      r.channel < n && Kept(block, r.channel) && r == ChannelReturn(timestamp, block, azimuth, r.channel)
  {
    if n > 0 {
      KeptReturnsSound(timestamp, block, azimuth, n - 1);
      KeptReturnsLast(timestamp, block, azimuth, n);
    }
  }

  /** The kept returns are in strictly increasing channel order. */
  lemma {:induction false} KeptReturnsOrdered(timestamp: int, block: seq<Byte>, azimuth: nat, n: nat)
    requires n <= VerticalAngleCount && |block| >= 2 + 3 * VerticalAngleCount
    ensures forall i, j :: 0 <= i < j < |KeptReturns(timestamp, block, azimuth, n)| ==>
      KeptReturns(timestamp, block, azimuth, n)[i].channel < KeptReturns(timestamp, block, azimuth, n)[j].channel
  {
    if n > 0 {
      KeptReturnsOrdered(timestamp, block, azimuth, n - 1);
      KeptReturnsSound(timestamp, block, azimuth, n - 1);
      KeptReturnsLast(timestamp, block, azimuth, n);
    }
  }

  /** Every channel below n whose distance is at least 1 m has a return. */
  lemma {:induction false} KeptReturnsComplete(timestamp: int, block: seq<Byte>, azimuth: nat, n: nat)
    requires n <= VerticalAngleCount && |block| >= 2 + 3 * VerticalAngleCount
    ensures forall k :: 0 <= k < n && Kept(block, k) ==>
      exists i :: 0 <= i < |KeptReturns(timestamp, block, azimuth, n)|
        && KeptReturns(timestamp, block, azimuth, n)[i].channel == k
  {
    if n > 0 {
      KeptReturnsComplete(timestamp, block, azimuth, n - 1);
      KeptReturnsLast(timestamp, block, azimuth, n);
      var prefix := KeptReturns(timestamp, block, azimuth, n - 1);
      var rs := KeptReturns(timestamp, block, azimuth, n);
      forall k | 0 <= k < n && Kept(block, k)
        ensures exists i :: 0 <= i < |rs| && rs[i].channel == k
      {
        if k < n - 1 {
          var i :| 0 <= i < |prefix| && prefix[i].channel == k;
          assert rs[i] == prefix[i];
        } else {
          assert rs[|prefix|].channel == k;
        }
      }
    }
  }

  /** Every return of a decoded block, read from triples 0..31 only. */
  lemma DecodedBlockReturns(timestamp: int, block: seq<Byte>, prevAzimuth: nat)
    requires |block| >= 2 && !ZeroHeader(block) && SupportedLayout(block)
    ensures var d := Decode(timestamp, block, prevAzimuth);
      (forall i :: 0 <= i < |d.records| ==>
         d.records[i].channel < VerticalAngleCount
         && d.records[i].rawDistance >= MinRawDistance
         && d.records[i] == ChannelReturn(timestamp, block, d.azimuth, d.records[i].channel))
      && (forall i, j :: 0 <= i < j < |d.records| ==> d.records[i].channel < d.records[j].channel)
      && (forall k :: 0 <= k < VerticalAngleCount && Kept(block, k) ==>
            exists i :: 0 <= i < |d.records| && d.records[i].channel == k)
  {
    assert |block| >= 2 + 3 * VerticalAngleCount;
    KeptReturnsSound(timestamp, block, BlockAzimuth(block), VerticalAngleCount);
    KeptReturnsOrdered(timestamp, block, BlockAzimuth(block), VerticalAngleCount);
    KeptReturnsComplete(timestamp, block, BlockAzimuth(block), VerticalAngleCount);
    assert Decode(timestamp, block, prevAzimuth).records
        == KeptReturns(timestamp, block, BlockAzimuth(block), VerticalAngleCount);
  }

  /** A return is never shorter than one metre, so a zero distance is never
      emitted, whatever the reflectivity. */
  lemma {:induction false} NoShortReturns(timestamp: int, block: seq<Byte>, prevAzimuth: nat)
    requires |block| >= 2
    ensures forall r :: r in Decode(timestamp, block, prevAzimuth).records ==>
      r.rawDistance >= MinRawDistance && r.timestamp == timestamp
      && r.azimuth == BlockAzimuth(block)
  {
    if !ZeroHeader(block) && SupportedLayout(block) {
      DecodedBlockReturns(timestamp, block, prevAzimuth);
    }
  }

  /** A channel whose low distance byte is below 0x10 and whose high byte is
      2 to 30 lies at least 1.024 m away as a little-endian count, yet the
      unpadded reading makes it shorter than 1 m, so it is not emitted. */
  lemma ShortLowByteDropsFarReturn(timestamp: int, block: seq<Byte>, prevAzimuth: nat, k: nat)
    requires |block| >= 2 && !ZeroHeader(block) && SupportedLayout(block) && k < VerticalAngleCount
    requires block[2 + 3 * k] < 16 && 2 <= block[3 + 3 * k] <= 30
    ensures LE16(block[2 + 3 * k], block[3 + 3 * k]) >= MinRawDistance
    ensures forall r :: r in Decode(timestamp, block, prevAzimuth).records ==> r.channel != k
  {
    var lo, hi := block[2 + 3 * k], block[3 + 3 * k];
    assert RawDistance(block, k) == 16 * hi + lo < MinRawDistance;
    assert |block| >= 2 + 3 * VerticalAngleCount;
    var rs := KeptReturns(timestamp, block, BlockAzimuth(block), VerticalAngleCount);
    assert Decode(timestamp, block, prevAzimuth).records == rs;
    KeptReturnsSound(timestamp, block, BlockAzimuth(block), VerticalAngleCount);
    forall r | r in rs
      ensures r.channel != k
    {
      var i :| 0 <= i < |rs| && rs[i] == r;
      assert Kept(block, r.channel);
    }
  }

  /** A 98-byte block whose channel 0 holds (0x00, 0x02): 512 units, 1.024 m,
      as a little-endian count, and read as 32 units. */
  lemma FarReturnDroppedExample(timestamp: int)
    ensures var block := [1, 0] + [0x00, 0x02, 7] + seq(93, i => 0);
      |block| == 98 && LE16(block[2], block[3]) == 512
      && RawDistance(block, 0) == 32
      && forall r :: r in Decode(timestamp, block, 0).records ==> r.channel != 0
  {
    var block: seq<Byte> := [1, 0] + [0x00, 0x02, 7] + seq(93, i => 0);
    assert block[2] == 0 && block[3] == 2;
    ShortLowByteDropsFarReturn(timestamp, block, 0, 0);
  }

  /** reader_pcap_payload_block: reads the header, gates on the channel count
      and walks the 32 triples with a running byte index. */
  method DecodeBlock(timestamp: int, block: seq<Byte>, prevAzimuth: nat)
    returns (records: seq<Return>, azimuth: nat, regressed: bool)
    requires |block| >= 2
    ensures Decoded(records, azimuth, regressed) == Decode(timestamp, block, prevAzimuth)
  {
    if block[0] == 0 && block[1] == 0 {
      return [], 0, false;
    }
    azimuth := ReadAzimuth(block[0], block[1]);
    regressed := azimuth <= prevAzimuth;

    var channelCount := (|block| - 2) / 3;
    var verticalAngles := 0;
    var maxChannels := -1;
    if MinChannelCount <= channelCount <= MaxChannelCount {
      maxChannels := VerticalAngleCount;
      verticalAngles := VerticalAngleCount;
    }

    records := [];
    if maxChannels == verticalAngles {
      assert SupportedLayout(block) && |block| >= 2 + 3 * VerticalAngleCount;
      var idx := 2;
      for k := 0 to maxChannels
        invariant idx == 2 + 3 * k
        invariant records == KeptReturns(timestamp, block, azimuth, k)
      {
        var lo := block[idx];
        idx := idx + 1;
        var hi := block[idx];
        idx := idx + 1;
        var dist := ReadDistance(lo, hi);
        var reflectivity := block[idx];
        idx := idx + 1;
        assert Return(dist, k, reflectivity, azimuth, timestamp) == ChannelReturn(timestamp, block, azimuth, k);
        if dist >= MinRawDistance {
          records := records + [Return(dist, k, reflectivity, azimuth, timestamp)];
        }
      }
    } else {
      assert !SupportedLayout(block);
    }
  }
}
