/** The LidarScan object: the capture file name it is built with, and
    analyze_pcap, which runs the segmenter over that capture. */
module Scan {
  import opened Segmentation
  import opened FileNames
  import opened Segmenter

  class LidarScan {
    var dataDir: Option<string>
    /** The capture path, always containing `.pcap`. */
    var fname: string

    /** `.pcap` is appended to the file name unless it already occurs in it,
        and the data directory, when given, is joined in front. */
    constructor (filename: string, dataDir: Option<string>)
      ensures this.dataDir == dataDir
      ensures dataDir.None? ==> fname == Normalised(filename)
      ensures dataDir.Some? ==> fname == PosixJoin(dataDir.value, Normalised(filename))
      ensures Contains(fname, PcapExtension)
    {
      this.dataDir := dataDir;
      var name := if !Contains(filename, PcapExtension) then filename + PcapExtension else filename;
      NormalisedHasExtension(filename);
      if dataDir.Some? {
        JoinKeepsExtension(dataDir.value, name);
        name := PosixJoin(dataDir.value, name);
      }
      fname := name;
    }

    /** analyze_pcap over the packets read from `fname`; `verbose` is on by
        default in the source. */
    method AnalyzePcap(packets: seq<Packet>, verbose: bool) returns (outcome: ReadOutcome)
      ensures outcome.IndexError? <==> VerboseProbeFails(verbose, packets)
      ensures outcome.Written? ==> |outcome.files| == |Frames(packets)|
      ensures outcome.Written? ==> forall k :: 0 <= k < |outcome.files| ==>
        outcome.files[k] == CsvFile(FrameFileName(Stem(fname), k), Frames(packets)[k].records)
    {
      outcome := ReaderPcapFile(fname, packets, verbose);
    }
  }
}
