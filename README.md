# Velodyne HDL-32E capture decoder and frame segmenter

A Dafny model of the core of `LidarScan.py` from the Beach-Lidar field
scripts. This code turns a capture of Velodyne HDL-32E UDP packets into
CSV "frames", with one frame for each sweep of the sensor head. It has
two parts:

- **Block decoder** (`reader_pcap_payload_block`). One firing block is
  the bytes between two `0xFF 0xEE` markers of a packet.
  - The decoder reads the block's little-endian azimuth, in hundredths of
    a degree.
  - It checks the channel count: a block with 32 to 64 channels is
    decoded, and any other block yields nothing.
  - It reads 32 triples. Each triple is a distance in 2 mm units (low
    byte, then high byte) followed by a reflectivity byte. The distance is
    read through unpadded hex text, not as a plain little-endian value
    (see "## Findings").
  - It keeps the returns of at least 1 m and hands the azimuth back to
    the caller.
- **Segmenter** (`reader_pcap_file`). It walks the packets in order.
  - It splits each payload on the marker and decodes every piece of at
    least 98 bytes.
  - It carries `prev_azimuth` from block to block and accumulates the
    returns.
  - It writes a frame once some block's azimuth passes 359.70 degrees
    after more than ten packets, and then resets its state.
  - It stops after the eleventh frame.
- **`LidarScan` constructor.** It appends `.pcap` to the file name and
  joins the data directory in front. The output file names are built
  from that path.

Integer encodings used throughout:

- Both 16-bit fields are read as the code reads them: each byte is
  rendered by `hex(b)` without its `0x`, the high byte's digits come
  first, and the text is parsed back with `int(..., 16)`.
- An azimuth is its header value in centidegrees. Both renderings are
  padded to two digits, so this is the little-endian value.
- A distance is its count of 2 mm units. Its renderings are not padded, so
  when the low byte is below 0x10 the value is `16*hi + lo`.
- So the source's `int(abs(raw * 2.0 / 1000.0)) != 0` is `raw >= 500`.
- And its `azimuth > 359.7` is `raw > 35970`.

A return keeps the three inputs of the source's spherical-to-Cartesian
conversion: the raw distance, the channel (which selects the vertical
angle) and the block azimuth. It also keeps the reflectivity and the
packet's integer timestamp.

Modules:

- `Bytes` (`bytes.dfy`): the byte type, little-endian fields, and
  `bytes.split` on the marker together with its inverse `Join`.
- `HexText` (`hex.dfy`): `hex(b)`, the two-digit padding, `int(s, 16)`, and
  the padded and unpadded readings of a byte pair.
- `BlockDecoder` (`block_decoder.dfy`): the decoder as a specification
  function `Decode`, with lemmas about it. `DecodeBlock` is the loop
  implementation, proved equal to `Decode`.
- `Segmentation` (`segmentation.dfy`): the segmenter as a pure fold
  (`Step`, `Run`, `Frames`). Its properties are stated against reference
  definitions that do not use the fold: `CaptureRecords`, `PassesClose`
  and `Flatten`.
- `Segmenter` (`segmenter.dfy`): `RotationSegmenter` is a class whose
  fields are the loop's variables. `ProcessPacket` does one pass of the
  packet loop. `ReaderPcapFile` is the loop with its `break`, proved to
  write the files of `Frames`.
- `FileNames` (`file_names.dfy`): the `.pcap` normalisation, the output
  path's stem, `os.path.join`, `str(int)` and the `<stem>_<k>.csv`
  names.
- `Scan` (`lidar_scan.dfy`): the `LidarScan` class.

Details of the code that the model keeps:

- A block whose channel count is not in [32, 64] returns its own decoded
  azimuth, not the previous one.
- Any count from 32 to 64 is accepted. The last block of a 1206-byte
  packet carries the 6 trailing bytes, so it counts 34 channels. Only
  triples 0..31 are read.
- The azimuth is not limited to [0, 360). It can reach 655.35 degrees.
- The close test is strict (`> 359.7`).
- The returns accumulated after the last frame are never written.
- The check for a non-increasing azimuth only prints. It is modelled as
  the flag `regressed`, which nothing reads.
- A distance's low byte below 0x10 shortens the distance (see
  "## Findings"). The model decodes distances that way.
- With `verbose` set (the default of `analyze_pcap`), the first packet's
  second piece is printed. A first payload with no block marker therefore
  raises `IndexError` before anything is written. The model returns
  `IndexError` in exactly that case.

## Model

| member | source | states |
|---|---|---|
| `Bytes.LE16` | LidarScan.py:39-43 | the azimuth's two header bytes form a 16-bit little-endian value below 65536, and the low and high bytes can be read back from it |
| `Bytes.Split` | LidarScan.py:116 | splitting a payload on `0xFF 0xEE` yields at least one piece, and the first piece is a prefix of the payload |
| `Bytes.JoinSplit` | LidarScan.py:116 | joining the pieces with the marker gives back the payload, so no byte is lost |
| `Bytes.SplitPiecesMarkerFree` | LidarScan.py:116 | no piece contains the marker |
| `Bytes.SplitJoin` | LidarScan.py:116 | marker-free pieces are recovered from their join, so the split is the only cut of a payload into marker-free pieces |
| `Bytes.MarkerEndsFirstPiece` | LidarScan.py:116 | a marker anywhere in the payload, data bytes included, ends the first piece at or before that point |
| `HexText.ParseHexAppend` | LidarScan.py:43 | `int(b + a, 16)` is the value of `b` shifted left by the digits of `a`, plus the value of `a` |
| `HexText.ParseHexOfHex` | LidarScan.py:39-42 | a byte's `hex` digits, padded to two or not, read back as the byte; padding always yields two digits |
| `HexText.PaddedHexPair` | LidarScan.py:39-43 | the azimuth reading, with both renderings padded, is the little-endian value of (low, high) |
| `HexText.HexPair` | LidarScan.py:66-70 | the distance reading, unpadded, is the little-endian value when the low byte is 0x10 or more, and `16*hi + lo` below that (`Unpadded16`) |
| `HexText.ReadAzimuth` | LidarScan.py:39-43 | rendering, padding and re-reading the header bytes yields their little-endian value |
| `HexText.ReadDistance` | LidarScan.py:66-70 | rendering and re-reading the distance bytes without padding yields `Unpadded16` of them |
| `HexText.UnpaddedReadingCollides` | LidarScan.py:66-70 | the unpadded reading maps the bytes (0x00, 0x02) and (0x20, 0x00) both to 32, while the padded one gives 512 and 32 |
| `HexText.PaddedReadingIsFaithful` | LidarScan.py:39-43 | distinct byte pairs always have distinct padded readings; the unpadded reading agrees with the padded one iff the low byte is 0x10 or more or the high byte is zero |
| `BlockDecoder.BlockRecords` | LidarScan.py:59-89 | a block contributes at most 32 returns |
| `BlockDecoder.Decode` | LidarScan.py:34-94 | the carried azimuth is below 65536 centidegrees (655.35 degrees), and at most 32 returns are emitted |
| `BlockDecoder.ZeroHeaderDecodesEmpty` | LidarScan.py:35-37 | a block whose two header bytes are zero yields no returns and azimuth 0, whatever follows the header |
| `BlockDecoder.HeaderAzimuth` | LidarScan.py:39-63 | otherwise the azimuth is `byte0 + 256*byte1` and is positive; the warning is raised iff it is not above the previous azimuth; a channel count outside [32, 64] yields no returns with the block's own azimuth |
| `BlockDecoder.DecodeIgnoresPrevious` | LidarScan.py:48-50 | the returns and the carried azimuth do not depend on the previous azimuth |
| `BlockDecoder.KeptReturnsSound` | LidarScan.py:64-87 | every return of the channels below n is a channel whose distance, read as the code reads it (unpadded hex), is at least 500. Each return is built from that channel's own distance and reflectivity bytes |
| `BlockDecoder.KeptReturnsOrdered` | LidarScan.py:64-88 | those returns are in strictly increasing channel order, so no channel is emitted twice |
| `BlockDecoder.KeptReturnsComplete` | LidarScan.py:64-87 | every channel below n whose distance, read as the code reads it, is at least 500 is emitted |
| `BlockDecoder.DecodedBlockReturns` | LidarScan.py:59-89 | a decoded block emits exactly the channels 0..31 whose distance, read as the code reads it, is at least 1 m. They come in channel order, each carrying that reading of bytes `2+3k`, `3+3k`, the reflectivity byte `4+3k`, the block azimuth and the packet timestamp |
| `BlockDecoder.NoShortReturns` | LidarScan.py:70-87 | no emitted return has a distance, as read by the code, shorter than 1 m, whatever its reflectivity. Every return carries the block's azimuth and the packet's timestamp |
| `BlockDecoder.DecodeBlock` | LidarScan.py:34-94 | the loop over 32 triples, with a running byte index, the padded azimuth reading and the unpadded distance reading, returns exactly `Decode`'s returns, azimuth and warning |
| `BlockDecoder.ShortLowByteDropsFarReturn` | LidarScan.py:66-86 | a channel whose low distance byte is below 0x10 and whose high byte is 2 to 30 is at least 1.024 m as a little-endian count, yet it is not emitted |
| `BlockDecoder.FarReturnDroppedExample` | LidarScan.py:66-86 | a 98-byte block with channel 0 = (0x00, 0x02) has a little-endian distance of 512 units, a code reading of 32, and no return for channel 0 |
| `Segmentation.FoldBlocksAccumulates` | LidarScan.py:128-135 | the block loop appends the returns of every piece of at least 98 bytes, in order; `flag_stop` is raised iff some such piece's azimuth exceeds 359.70 degrees while more than ten packets have been read |
| `Segmentation.FoldBlocksCarriesAzimuth` | LidarScan.py:128-132 | after the block loop, `prev_azimuth` is the azimuth of the last piece of at least 98 bytes (0 for a zero header); it is unchanged when there is no such piece |
| `Segmentation.StepSpec` | LidarScan.py:128-151 | a packet closes a frame iff more than ten packets were read before it and one of its blocks passes 359.70 degrees. A close writes the accumulated returns plus the packet's as frame `save_file_count` and resets the state. Otherwise the packet's returns are appended and the packet is counted |
| `Segmentation.StepNumbers` | LidarScan.py:140-151 | a packet keeps the frames numbered 0, 1, 2, ... with the frame count equal to `save_file_count` |
| `Segmentation.RunNumbers` | LidarScan.py:107-155 | from a numbered state with at most ten frames, the packet loop ends numbered and with at most eleven frames |
| `Segmentation.FramesNumbered` | LidarScan.py:140-155 | a capture yields at most eleven frames, with indices 0, 1, 2, ... and no gaps |
| `Segmentation.QuietRun` | LidarScan.py:128-137 | while at most eleven packets have been read since the last frame, nothing closes; the returns are accumulated and the packets counted |
| `Segmentation.RunAppendQuiet` | LidarScan.py:107-137 | such a quiet stretch of packets can be folded on its own before the rest |
| `Segmentation.NoFrameWithinElevenPackets` | LidarScan.py:134-137 | a capture of eleven packets or fewer yields no frame |
| `Segmentation.FirstSweep` | LidarScan.py:128-151 | a capture of twelve packets yields exactly one frame, index 0, holding every return of all twelve, iff a block of the twelfth passes 359.70 degrees; otherwise it yields none |
| `Segmentation.StepConserves` | LidarScan.py:133-150 | a packet moves its returns into the accumulator, and a close moves the accumulator into the new frame; nothing is lost or reordered |
| `Segmentation.RunConserves` | LidarScan.py:107-155 | the loop reads a prefix of the capture, all of it unless it stopped at the eleventh frame; every return of that prefix lies, in capture order, in exactly one frame or in the unwritten accumulation |
| `Segmentation.FramesArePrefix` | LidarScan.py:140-155 | the rows written, frame after frame, are a prefix of all the capture's returns in capture order; the trailing partial accumulation is never written |
| `Segmenter.RotationSegmenter.constructor` | LidarScan.py:100-106 | the loop state starts empty: no returns, azimuth 0, no packets, no frames |
| `Segmenter.RotationSegmenter.ProcessPacket` | LidarScan.py:115-151 | one pass of the packet loop leaves the fields equal to `Step` of the old fields and returns `flag_stop` |
| `Segmenter.FrameFiles` | LidarScan.py:140-145 | frames numbered 0, 1, 2, ... become files named `<stem>_<k>.csv`, each holding its frame's rows, and no two share a name |
| `Segmenter.ReaderPcapFile` | LidarScan.py:97-155 | it raises `IndexError` iff `verbose` is set and the first payload holds no block marker. Otherwise the files written are the frames of the capture. File k is named `<stem>_<k>.csv`. There are at most eleven files and no two share a name. Their rows are a prefix of the capture's returns |
| `FileNames.Find` | LidarScan.py:175 | the result is the first index at which the pattern occurs, or none when it occurs nowhere |
| `FileNames.Stem` | LidarScan.py:98 | the stem is a prefix of the path holding no `.pcap`. When the path has a `.pcap`, the first one starts right after the stem; otherwise the stem is the whole path |
| `FileNames.NormalisedHasExtension` | LidarScan.py:175-178 | the normalised name always contains `.pcap`, and normalising twice changes nothing |
| `FileNames.JoinKeepsExtension` | LidarScan.py:179-180 | joining the data directory in front keeps the `.pcap` |
| `FileNames.FirstExtensionIsAppended` | LidarScan.py:175-176 | when the name has no `.pcap`, the first `.pcap` of the normalised name is the appended one |
| `FileNames.StemOfNormalised` | LidarScan.py:98 | the stem of a normalised name is the original name when it had no `.pcap`, and otherwise its text before the first `.pcap` |
| `FileNames.ParseDecimalOfDecimal` | LidarScan.py:143 | `str(save_file_count)` reads back as the count |
| `FileNames.FrameFileNamesDistinct` | LidarScan.py:143 | distinct frame indices give distinct CSV file names |
| `Scan.LidarScan.constructor` | LidarScan.py:164-180 | the stored path is the normalised file name, joined after the data directory when one is given, and always contains `.pcap` |
| `Scan.LidarScan.AnalyzePcap` | LidarScan.py:188-196 | analysing the scan raises `IndexError` or writes the files exactly as `ReaderPcapFile` does for its path |

## Findings

| source | as written | input that shows it | evidently intended | confidence | as-written member | corrected member |
|---|---|---|---|---|---|---|
| LidarScan.py:66-70 | the distance's bytes are rendered with `hex` without the two-digit padding the azimuth gets at :40 and :42, so a low byte below 0x10 makes the high byte worth 16 instead of 256 | channel bytes (0x00, 0x02): 512 units (1.024 m) read as 32 units (0.064 m), so the return is dropped at :86 | the little-endian distance, read with padding like the azimuth | not executed | `BlockDecoder.ShortLowByteDropsFarReturn`, `BlockDecoder.FarReturnDroppedExample`, `HexText.UnpaddedReadingCollides` | `HexText.PaddedHexPair`, `HexText.PaddedReadingIsFaithful` |

The decoder and the segmenter keep the reading as written, since they model
what the program writes to its CSV files. The corrected reading is
`PaddedHexPair`, which is proved to be the little-endian value and to tell
every byte pair apart.

## Left out

- Packet reading with scapy's `PcapReader` is not modelled. A capture is
  an in-memory sequence of packets, each an integer timestamp (the
  source's `int(pkt.time)`) and its payload bytes.
- The x/y/z trigonometry, the `round(..., 3)` and `azimuth_radians` are
  floating point. A return keeps their exact inputs (raw distance,
  channel, azimuth) instead. The values of the HDL-32E vertical-angle
  table are not modelled; only its length, 32, is.
- The pandas CSV writing is not modelled. A written file is a value: its
  name and its rows. The column layout and the on-disk format are
  not modelled.
- The prints, the `datetime` delta, `verbose_data` and `debug` are output
  only. `verbose` is output only except for the first-packet probe, which
  is modelled because it can raise `IndexError`. The non-increasing-azimuth
  check is kept as the unread flag `regressed`.
- Other exceptions that scapy or `datetime` can raise on a malformed
  packet (no payload, an out-of-range timestamp) are not modelled.
- `_get_time` is not part of this model. It parses a date with
  `strptime` out of the path split on `os.sep`. So the constructor's
  `date_time` field and its failure on a path that does not split into
  three parts are not modelled.
- The test `id_payload_block in idx_block` (LidarScan.py:130) always
  holds, so it has no counterpart.
- BlockDecoder.DecodeBlock: requires at least two bytes. On a shorter
  block the source raises `IndexError`. Its only caller passes blocks of
  at least 98 bytes.
- `os.path.join` is modelled for POSIX separators only.
- Run_Surveys.py, LidarSurvey.py, Process_Survey.py and
  Analyze_Surveys.py are not part of this model. They cover sensor
  control through ParaView, scheduling, moving files and netCDF
  archiving. All of that is I/O or foreign calls.
