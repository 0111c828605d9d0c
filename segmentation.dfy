/** The rotation segmenter of reader_pcap_file as a pure fold over the packets
    of a capture: every payload is split on the block marker, blocks of at
    least 98 bytes are decoded in order, their returns are accumulated, and a
    frame is emitted when a block's azimuth passes 359.70 degrees after more
    than ten packets since the last frame. The fold stops for good once the
    eleventh frame has been emitted. */
module Segmentation {
  import opened Bytes
  import opened BlockDecoder

  /** Pieces shorter than this are padding, not blocks. */
  const MinBlockLength := 98
  /** 359.70 degrees in centidegrees; the close test is strict. */
  const CloseAzimuth := 35970
  /** A frame closes only while more than this many packets have been read. */
  const MinPackets := 10
  /** Reading stops once the count of saved frames exceeds this. */
  const MaxFrameIndex := 10

  /** A captured packet: its integer timestamp and its UDP payload. */
  datatype Packet = Packet(timestamp: int, payload: seq<Byte>)

  /** An emitted frame (one CSV file): its index and its rows. */
  datatype Frame = Frame(index: nat, records: seq<Return>)

  /** The fold state: `res`, `prev_azimuth`, `pkts_read`, `save_file_count`
      and the frames written so far. */
  datatype State = State(acc: seq<Return>, prevAzimuth: nat, pktsRead: nat,
                         saved: nat, frames: seq<Frame>)

  const Initial: State := State([], 0, 0, 0, [])

  /** The part of the state a packet's blocks update, with `flag_stop`. */
  datatype Carry = Carry(acc: seq<Return>, prevAzimuth: nat, flagStop: bool)

  predicate Eligible(piece: seq<Byte>)
  {
    |piece| >= MinBlockLength
  }

  /** The inner loop over the pieces of one payload. */
  function FoldBlocks(timestamp: int, pieces: seq<seq<Byte>>, pktsRead: nat, c: Carry): Carry
    decreases |pieces|
  {
    if pieces == [] then c
    else if !Eligible(pieces[0]) then FoldBlocks(timestamp, pieces[1..], pktsRead, c)
    else
      var d := Decode(timestamp, pieces[0], c.prevAzimuth);
      FoldBlocks(timestamp, pieces[1..], pktsRead,
                 Carry(c.acc + d.records, d.azimuth,
                       c.flagStop || (d.azimuth > CloseAzimuth && pktsRead > MinPackets)))
  }

  function PacketCarry(s: State, p: Packet): Carry
  {
    FoldBlocks(p.timestamp, Split(p.payload), s.pktsRead, Carry(s.acc, s.prevAzimuth, false))
  }

  /** One iteration of the packet loop, without the `break`. */
  function Step(s: State, p: Packet): State
  {
    var c := PacketCarry(s, p);
    if c.flagStop then State([], 0, 0, s.saved + 1, s.frames + [Frame(s.saved, c.acc)])
    else State(c.acc, c.prevAzimuth, s.pktsRead + 1, s.saved, s.frames)
  }

  /** The packet p closes a frame after which the loop breaks. */
  predicate Stops(s: State, p: Packet)
  {
    PacketCarry(s, p).flagStop && s.saved + 1 > MaxFrameIndex
  }

  function Run(s: State, pkts: seq<Packet>): State
    decreases |pkts|
  {
    if pkts == [] then s
    else if Stops(s, pkts[0]) then Step(s, pkts[0])
    else Run(Step(s, pkts[0]), pkts[1..])
  }

  /** The frames reader_pcap_file writes for a capture. */
  function Frames(pkts: seq<Packet>): seq<Frame>
  {
    Run(Initial, pkts).frames
  }

  // Reference definitions, independent of the fold.

  /** The returns of the eligible pieces, in order. */
  function PieceRecords(timestamp: int, pieces: seq<seq<Byte>>): seq<Return>
    decreases |pieces|
  {
    if pieces == [] then []
    else (if Eligible(pieces[0]) then BlockRecords(timestamp, pieces[0]) else [])
         + PieceRecords(timestamp, pieces[1..])
  }

  function PacketRecords(p: Packet): seq<Return>
  {
    PieceRecords(p.timestamp, Split(p.payload))
  }

  /** All returns of a capture, in capture order. */
  function CaptureRecords(pkts: seq<Packet>): seq<Return>
    decreases |pkts|
  {
    if pkts == [] then [] else PacketRecords(pkts[0]) + CaptureRecords(pkts[1..])
  }

  /** The rows of the frames, in frame order. */
  function Flatten(frames: seq<Frame>): seq<Return>
    decreases |frames|
  {
    if frames == [] then []
    else Flatten(frames[..|frames| - 1]) + frames[|frames| - 1].records
  }

  /** Some eligible piece has an azimuth past the close threshold. */
  predicate PassesClose(pieces: seq<seq<Byte>>)
  {
    exists i :: 0 <= i < |pieces| && Eligible(pieces[i]) && BlockAzimuth(pieces[i]) > CloseAzimuth
  }

  predicate SweepEnds(p: Packet)
  {
    PassesClose(Split(p.payload))
  }

  /** Frames are numbered 0, 1, 2, ... and their count is `save_file_count`. */
  ghost predicate Numbered(s: State)
  {
    |s.frames| == s.saved && forall i :: 0 <= i < |s.frames| ==> s.frames[i].index == i
  }

  /** Some eligible piece passes the threshold iff the first one does or
      some later one does. */
  lemma PassesCloseCons(pieces: seq<seq<Byte>>)
    requires pieces != []
    ensures PassesClose(pieces) <==>
      (Eligible(pieces[0]) && BlockAzimuth(pieces[0]) > CloseAzimuth) || PassesClose(pieces[1..])
  {
    var rest := pieces[1..];
    if PassesClose(rest) {
      var i :| 0 <= i < |rest| && Eligible(rest[i]) && BlockAzimuth(rest[i]) > CloseAzimuth;
      assert pieces[i + 1] == rest[i];
    }
    if PassesClose(pieces) {
      var i :| 0 <= i < |pieces| && Eligible(pieces[i]) && BlockAzimuth(pieces[i]) > CloseAzimuth;
      if i > 0 { assert rest[i - 1] == pieces[i]; }
    }
  }

  /** The carry after the first piece of a non-empty list. */
  function FirstCarry(timestamp: int, pieces: seq<seq<Byte>>, pktsRead: nat, c: Carry): (c': Carry)
    requires pieces != []
    ensures FoldBlocks(timestamp, pieces, pktsRead, c) == FoldBlocks(timestamp, pieces[1..], pktsRead, c')
  {
    if !Eligible(pieces[0]) then c
    else
      var d := Decode(timestamp, pieces[0], c.prevAzimuth);
      Carry(c.acc + d.records, d.azimuth,
            c.flagStop || (d.azimuth > CloseAzimuth && pktsRead > MinPackets))
  }

  /** The block loop appends every eligible block's returns in order, and
      raises `flag_stop` iff some eligible block's azimuth exceeds 359.70
      degrees while more than ten packets have been read. */
  lemma {:induction false} FoldBlocksAccumulates(timestamp: int, pieces: seq<seq<Byte>>, pktsRead: nat, c: Carry)
    ensures var r := FoldBlocks(timestamp, pieces, pktsRead, c);
      r.acc == c.acc + PieceRecords(timestamp, pieces)
      && (r.flagStop <==> c.flagStop || (pktsRead > MinPackets && PassesClose(pieces)))
    decreases |pieces|
  {
    if pieces != [] {
      var c' := FirstCarry(timestamp, pieces, pktsRead, c);
      FoldBlocksAccumulates(timestamp, pieces[1..], pktsRead, c');
      PassesCloseCons(pieces);
      var head := if Eligible(pieces[0]) then BlockRecords(timestamp, pieces[0]) else [];
      assert PieceRecords(timestamp, pieces) == head + PieceRecords(timestamp, pieces[1..]);
      assert c'.acc == c.acc + head;
    }
  }

  /** `prev_azimuth` leaves the block loop as the azimuth of the last eligible
      piece (0 for a zero header), or unchanged when there is none. */
  lemma {:induction false} FoldBlocksCarriesAzimuth(timestamp: int, pieces: seq<seq<Byte>>, pktsRead: nat, c: Carry)
    ensures var r := FoldBlocks(timestamp, pieces, pktsRead, c);
      ((forall i :: 0 <= i < |pieces| ==> !Eligible(pieces[i])) ==> r.prevAzimuth == c.prevAzimuth)
      && (forall i :: 0 <= i < |pieces| && Eligible(pieces[i])
            && (forall j :: i < j < |pieces| ==> !Eligible(pieces[j]))
            ==> r.prevAzimuth == BlockAzimuth(pieces[i]))
    decreases |pieces|
  {
    if pieces != [] {
      var rest := pieces[1..];
      var c' := FirstCarry(timestamp, pieces, pktsRead, c);
      FoldBlocksCarriesAzimuth(timestamp, rest, pktsRead, c');
      var r := FoldBlocks(timestamp, pieces, pktsRead, c);
      assert r == FoldBlocks(timestamp, rest, pktsRead, c');
      if forall i :: 0 <= i < |pieces| ==> !Eligible(pieces[i]) {
        assert forall i :: 0 <= i < |rest| ==> !Eligible(rest[i]) by {
          forall i | 0 <= i < |rest| ensures !Eligible(rest[i]) {
            assert rest[i] == pieces[i + 1];
          }
        }
      }
      forall i | 0 <= i < |pieces| && Eligible(pieces[i])
          && (forall j :: i < j < |pieces| ==> !Eligible(pieces[j]))
        ensures r.prevAzimuth == BlockAzimuth(pieces[i])
      {
        if i == 0 {
          forall j | 0 <= j < |rest| ensures !Eligible(rest[j]) {
            assert rest[j] == pieces[j + 1];
          }
        } else {
          assert rest[i - 1] == pieces[i];
          forall j | i - 1 < j < |rest| ensures !Eligible(rest[j]) {
            assert rest[j] == pieces[j + 1];
          }
        }
      }
    }
  }

  /** One packet: a frame of the accumulated returns plus this packet's is
      emitted, and the state reset, iff more than ten packets had been read
      and some block of the packet passes 359.70 degrees; otherwise the
      packet's returns are appended and the packet is counted. */
  lemma StepSpec(s: State, p: Packet)
    ensures PacketCarry(s, p).flagStop <==> s.pktsRead > MinPackets && SweepEnds(p)
    ensures var r := Step(s, p);
      (s.pktsRead > MinPackets && SweepEnds(p) ==>
         r == State([], 0, 0, s.saved + 1,
                    s.frames + [Frame(s.saved, s.acc + PacketRecords(p))]))
      && (!(s.pktsRead > MinPackets && SweepEnds(p)) ==>
         r.acc == s.acc + PacketRecords(p) && r.pktsRead == s.pktsRead + 1
         && r.saved == s.saved && r.frames == s.frames)
  {
    FoldBlocksAccumulates(p.timestamp, Split(p.payload), s.pktsRead, Carry(s.acc, s.prevAzimuth, false));
  }

  /** A step keeps the frames numbered without gaps. */
  lemma StepNumbers(s: State, p: Packet)
    requires Numbered(s)
    ensures Numbered(Step(s, p))
    ensures Step(s, p).saved <= s.saved + 1
  {
    var r := Step(s, p);
    if PacketCarry(s, p).flagStop {
      assert r.frames == s.frames + [Frame(s.saved, PacketCarry(s, p).acc)];
      assert r.frames[|s.frames|].index == s.saved;
    }
  }

  /** From a numbered state with at most ten frames, the fold ends numbered
      and with at most eleven frames. */
  lemma {:induction false} RunNumbers(s: State, pkts: seq<Packet>)
    requires Numbered(s) && s.saved <= MaxFrameIndex
    ensures Numbered(Run(s, pkts)) && Run(s, pkts).saved <= MaxFrameIndex + 1
    decreases |pkts|
  {
    if pkts != [] {
      StepNumbers(s, pkts[0]);
      if !Stops(s, pkts[0]) {
        RunNumbers(Step(s, pkts[0]), pkts[1..]);
      }
    }
  }

  /** A capture yields at most eleven frames, with indices 0, 1, 2, ... */
  lemma FramesNumbered(pkts: seq<Packet>)
    ensures |Frames(pkts)| <= MaxFrameIndex + 1
    ensures forall i :: 0 <= i < |Frames(pkts)| ==> Frames(pkts)[i].index == i
  {
    RunNumbers(Initial, pkts);
  }

  /** While no more than eleven packets have been read since the last frame,
      nothing closes: the returns are accumulated and the packets counted. */
  lemma {:induction false} QuietRun(s: State, pkts: seq<Packet>)
    requires s.pktsRead + |pkts| <= MinPackets + 1
    ensures var r := Run(s, pkts);
      r.acc == s.acc + CaptureRecords(pkts) && r.pktsRead == s.pktsRead + |pkts|
      && r.saved == s.saved && r.frames == s.frames
    decreases |pkts|
  {
    if pkts != [] {
      StepSpec(s, pkts[0]);
      QuietRun(Step(s, pkts[0]), pkts[1..]);
    }
  }

  /** Such a quiet stretch can be folded on its own. */
  lemma {:induction false} RunAppendQuiet(s: State, a: seq<Packet>, b: seq<Packet>)
    requires s.pktsRead + |a| <= MinPackets + 1
    ensures Run(s, a + b) == Run(Run(s, a), b)
    decreases |a|
  {
    if a == [] {
      assert a + b == b;
    } else {
      StepSpec(s, a[0]);
      assert (a + b)[0] == a[0];
      assert (a + b)[1..] == a[1..] + b;
      RunAppendQuiet(Step(s, a[0]), a[1..], b);
    }
  }

  /** No frame is written from a capture of eleven packets or fewer. */
  lemma NoFrameWithinElevenPackets(pkts: seq<Packet>)
    requires |pkts| <= MinPackets + 1
    ensures Frames(pkts) == []
  {
    QuietRun(Initial, pkts);
  }

  lemma {:induction false} CaptureRecordsAppend(a: seq<Packet>, b: seq<Packet>)
    ensures CaptureRecords(a + b) == CaptureRecords(a) + CaptureRecords(b)
    decreases |a|
  {
    if a == [] {
      assert a + b == b;
    } else {
      assert (a + b)[0] == a[0];
      assert (a + b)[1..] == a[1..] + b;
      CaptureRecordsAppend(a[1..], b);
      calc {
        CaptureRecords(a + b);
        PacketRecords(a[0]) + CaptureRecords(a[1..] + b);
        PacketRecords(a[0]) + (CaptureRecords(a[1..]) + CaptureRecords(b));
      }
    }
  }

  /** The twelfth packet is the earliest that can close a frame: with twelve
      packets, one frame holding every return of all twelve is written iff a
      block of the last one passes 359.70 degrees. */
  lemma FirstSweep(pkts: seq<Packet>)
    requires |pkts| == MinPackets + 2
    ensures SweepEnds(pkts[MinPackets + 1]) ==> Frames(pkts) == [Frame(0, CaptureRecords(pkts))]
    ensures !SweepEnds(pkts[MinPackets + 1]) ==> Frames(pkts) == []
  {
    SweepFrom(Initial, pkts);
  }

  /** The twelfth packet after a fresh start closes frame 0, holding every
      return of the twelve, iff one of its blocks passes 359.70 degrees. */
  lemma SweepFrom(s: State, pkts: seq<Packet>)
    requires s.pktsRead == 0 && s.saved == 0 && s.frames == [] && s.acc == []
    requires |pkts| == MinPackets + 2
    ensures SweepEnds(pkts[MinPackets + 1]) ==> Run(s, pkts).frames == [Frame(0, CaptureRecords(pkts))]
    ensures !SweepEnds(pkts[MinPackets + 1]) ==> Run(s, pkts).frames == []
  {
    var a, p := pkts[..MinPackets + 1], pkts[MinPackets + 1];
    assert pkts == a + [p];
    RunAppendQuiet(s, a, [p]);
    QuietRun(s, a);
    var q := Run(s, a);
    assert q.acc == CaptureRecords(a) && q.pktsRead == MinPackets + 1 && q.saved == 0 && q.frames == [];
    RunSingle(q, p);
    CloseAfterQuiet(q, p);
    if SweepEnds(p) {
      CaptureRecordsSnoc(a, p);
    }
  }

  /** A packet read after eleven quiet packets and no frame closes frame 0
      iff one of its blocks passes 359.70 degrees. */
  lemma CloseAfterQuiet(q: State, p: Packet)
    requires q.pktsRead == MinPackets + 1 && q.saved == 0 && q.frames == []
    ensures SweepEnds(p) ==> Step(q, p).frames == [Frame(0, q.acc + PacketRecords(p))]
    ensures !SweepEnds(p) ==> Step(q, p).frames == []
  {
    StepSpec(q, p);
  }

  lemma CaptureRecordsSnoc(a: seq<Packet>, p: Packet)
    ensures CaptureRecords(a + [p]) == CaptureRecords(a) + PacketRecords(p)
  {
    CaptureRecordsAppend(a, [p]);
    assert CaptureRecords([p]) == PacketRecords(p) + CaptureRecords([]);
  }

  /** A one-packet fold is one step. */
  lemma RunSingle(s: State, p: Packet)
    ensures Run(s, [p]) == Step(s, p)
  {
    assert [p][1..] == [];
  }

  /** Flattening the frames is a homomorphism over appending one frame. */
  lemma FlattenSnoc(frames: seq<Frame>, f: Frame)
    ensures Flatten(frames + [f]) == Flatten(frames) + f.records
  {
    assert (frames + [f])[..|frames|] == frames;
  }

  /** A packet moves its returns into the accumulator, and a close moves the
      accumulator into the last frame: nothing is lost or reordered. */
  lemma StepConserves(s: State, p: Packet)
    ensures Flatten(Step(s, p).frames) + Step(s, p).acc == Flatten(s.frames) + s.acc + PacketRecords(p)
  {
    StepSpec(s, p);
    if s.pktsRead > MinPackets && SweepEnds(p) {
      FlattenSnoc(s.frames, Frame(s.saved, s.acc + PacketRecords(p)));
    }
  }

  /** The fold reads some prefix of the capture, all of it unless it stopped
      at the eleventh frame, and every return of that prefix is in exactly
      one frame or still accumulated, in capture order. */
  lemma {:induction false} RunConserves(s: State, pkts: seq<Packet>)
    ensures var r := Run(s, pkts);
      exists n :: 0 <= n <= |pkts|
        && (n < |pkts| ==> r.saved > MaxFrameIndex)
        && Flatten(r.frames) + r.acc == Flatten(s.frames) + s.acc + CaptureRecords(pkts[..n])
    decreases |pkts|
  {
    var r := Run(s, pkts);
    if pkts == [] {
      assert pkts[..0] == [];
      assert Flatten(r.frames) + r.acc == Flatten(s.frames) + s.acc + CaptureRecords(pkts[..0]);
    } else {
      var p := pkts[0];
      StepConserves(s, p);
      if Stops(s, p) {
        assert pkts[..1] == [p];
        assert CaptureRecords([p]) == PacketRecords(p) + CaptureRecords([]);
        assert Flatten(r.frames) + r.acc == Flatten(s.frames) + s.acc + CaptureRecords(pkts[..1]);
      } else {
        var t := Step(s, p);
        RunConserves(t, pkts[1..]);
        var m :| 0 <= m <= |pkts[1..]|
          && (m < |pkts[1..]| ==> r.saved > MaxFrameIndex)
          && Flatten(r.frames) + r.acc == Flatten(t.frames) + t.acc + CaptureRecords(pkts[1..][..m]);
        assert pkts[..m + 1] == [p] + pkts[1..][..m];
        assert CaptureRecords(pkts[..m + 1]) == PacketRecords(p) + CaptureRecords(pkts[1..][..m]);
        assert Flatten(r.frames) + r.acc == Flatten(s.frames) + s.acc + CaptureRecords(pkts[..m + 1]);
      }
    }
  }

  /** The rows written for a capture are, in order, a prefix of all its
      returns: the trailing partial accumulation is never written. */
  lemma FramesArePrefix(pkts: seq<Packet>)
    ensures Flatten(Frames(pkts)) <= CaptureRecords(pkts)
  {
    RunFromEmptyIsPrefix(Initial, pkts);
  }

  /** From a state with nothing written or accumulated, the rows written are
      a prefix of the capture's returns. */
  lemma RunFromEmptyIsPrefix(s: State, pkts: seq<Packet>)
    requires s.frames == [] && s.acc == []
    ensures Flatten(Run(s, pkts).frames) <= CaptureRecords(pkts)
  {
    RunConserves(s, pkts);
    var r := Run(s, pkts);
    var n :| 0 <= n <= |pkts|
      && (n < |pkts| ==> r.saved > MaxFrameIndex)
      && Flatten(r.frames) + r.acc == Flatten(s.frames) + s.acc + CaptureRecords(pkts[..n]);
    assert Flatten(s.frames) + s.acc == [];
    CaptureRecordsAppend(pkts[..n], pkts[n..]);
    assert pkts[..n] + pkts[n..] == pkts;
    PrefixOfSplit(Flatten(r.frames), r.acc, CaptureRecords(pkts[..n]), CaptureRecords(pkts[n..]));
  }

  /** What precedes a prefix's tail is a prefix of any extension. */
  lemma PrefixOfSplit<T>(f: seq<T>, acc: seq<T>, done: seq<T>, rest: seq<T>)
    requires f + acc == [] + done
    ensures f <= done + rest
  {
    assert done == f + acc;
    assert done + rest == f + (acc + rest);
    assert (f + (acc + rest))[..|f|] == f;
  }

}
