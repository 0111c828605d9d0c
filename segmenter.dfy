/** reader_pcap_file as the source runs it: a state object updated packet by
    packet, and the packet loop with its `break` after the eleventh frame. */
module Segmenter {
  import opened Bytes
  import opened BlockDecoder
  import opened Segmentation
  import opened FileNames

  class RotationSegmenter {
    /** `res`: the returns accumulated since the last frame. */
    var res: seq<Return>
    var prevAzimuth: nat
    var pktsRead: nat
    var saveFileCount: nat
    /** The frames written so far, in place of the CSV files. */
    var frames: seq<Frame>

    function Model(): State
      reads this
    {
      State(res, prevAzimuth, pktsRead, saveFileCount, frames)
    }

    constructor ()
      ensures Model() == Initial
    {
      res := [];
      prevAzimuth := 0;
      pktsRead := 0;
      saveFileCount := 0;
      frames := [];
    }

    /** One pass of the packet loop: decode the payload's blocks, count the
        packet, and write and reset on `flag_stop`, which is returned. */
    method ProcessPacket(pkt: Packet) returns (flagStop: bool)
      modifies this
      ensures flagStop == PacketCarry(old(Model()), pkt).flagStop
      ensures Model() == Step(old(Model()), pkt)
    {
      var payloadBlocks := Split(pkt.payload);
      flagStop := false;
      for i := 0 to |payloadBlocks|
        invariant FoldBlocks(pkt.timestamp, payloadBlocks[i..], pktsRead, Carry(res, prevAzimuth, flagStop))
               == PacketCarry(old(Model()), pkt)
        invariant pktsRead == old(pktsRead) && saveFileCount == old(saveFileCount)
        invariant frames == old(frames)
      {
        var payloadBlock := payloadBlocks[i];
        assert payloadBlocks[i..][1..] == payloadBlocks[i + 1..];
        if |payloadBlock| >= MinBlockLength {
          var tmpRes, azimuth, regressed := DecodeBlock(pkt.timestamp, payloadBlock, prevAzimuth);
          prevAzimuth := azimuth;
          res := res + tmpRes;
          if prevAzimuth > CloseAzimuth && pktsRead > MinPackets {
            flagStop := true;
          }
        }
      }

      pktsRead := pktsRead + 1;

      if flagStop {
        frames := frames + [Frame(saveFileCount, res)];
        prevAzimuth := 0;
        pktsRead := 0;
        res := [];
        saveFileCount := saveFileCount + 1;
      }
    }
  }

  /** A written CSV file: its name and its rows. */
  datatype CsvFile = CsvFile(name: string, rows: seq<Return>)

  /** The CSV files of numbered frames: the k-th is named `<stem>_<k>.csv`
      and holds the k-th frame's returns, so no two share a name. */
  function FrameFiles(stem: string, frames: seq<Frame>): (files: seq<CsvFile>)
    requires forall k :: 0 <= k < |frames| ==> frames[k].index == k
    ensures |files| == |frames|
    ensures forall k :: 0 <= k < |files| ==> files[k] == CsvFile(FrameFileName(stem, k), frames[k].records)
    ensures forall k, m :: 0 <= k < m < |files| ==> files[k].name != files[m].name
  {
    FrameFileNamesAllDistinct(stem, |frames|);
    seq(|frames|, k requires 0 <= k < |frames| => CsvFile(FrameFileName(stem, frames[k].index), frames[k].records))
  }

  /** What reader_pcap_file leaves behind: the CSV files it wrote, or the
      IndexError raised before any packet is decoded. */
  datatype ReadOutcome = Written(files: seq<CsvFile>) | IndexError

  /** With `verbose` set, the first packet's second piece is printed, which
      fails when its payload holds no block marker. */
  predicate VerboseProbeFails(verbose: bool, packets: seq<Packet>)
  {
    verbose && |packets| > 0 && |Split(packets[0].payload)| < 2
  }

  /** reader_pcap_file over an in-memory capture. It fails iff the verbose
      probe of the first packet does. Otherwise the k-th file holds the k-th
      frame and is named `<stem>_<k>.csv`, where the stem is the capture path
      before its first `.pcap`; there are at most eleven, no two share a name,
      and their rows are, in order, a prefix of all the capture's returns. */
  method ReaderPcapFile(urlPcap: string, packets: seq<Packet>, verbose: bool) returns (outcome: ReadOutcome)
    ensures outcome.IndexError? <==> VerboseProbeFails(verbose, packets)
    ensures outcome.Written? ==> |outcome.files| == |Frames(packets)| <= MaxFrameIndex + 1
    ensures outcome.Written? ==> forall k :: 0 <= k < |outcome.files| ==>
      outcome.files[k] == CsvFile(FrameFileName(Stem(urlPcap), k), Frames(packets)[k].records)
    ensures outcome.Written? ==> forall k, m :: 0 <= k < m < |outcome.files| ==>
      outcome.files[k].name != outcome.files[m].name
    ensures outcome.Written? ==> Flatten(Frames(packets)) <= CaptureRecords(packets)
  {
    var urlPcapFilename := Stem(urlPcap);
    var segmenter := new RotationSegmenter();
    var i := 0;
    while i < |packets|
      invariant 0 <= i <= |packets|
      invariant Run(segmenter.Model(), packets[i..]) == Run(Initial, packets)
      invariant i > 0 ==> !VerboseProbeFails(verbose, packets)
    {
      if verbose && i == 0 && |Split(packets[i].payload)| < 2 {
        return IndexError;
      }
      assert packets[i..][1..] == packets[i + 1..];
      var flagStop := segmenter.ProcessPacket(packets[i]);
      if flagStop && segmenter.saveFileCount > MaxFrameIndex {
        break;
      }
      i := i + 1;
    }
    assert !VerboseProbeFails(verbose, packets);
    var frames := segmenter.frames;
    assert frames == Frames(packets);
    FramesNumbered(packets);
    FramesArePrefix(packets);
    outcome := Written(FrameFiles(urlPcapFilename, frames));
  }
}
