/** Bytes of a capture payload, little-endian fields, and the split of a
    payload on the two-byte block marker 0xFF 0xEE (Python's `bytes.split`). */
module Bytes {

  type Byte = b: int | 0 <= b < 256

  /** The unsigned 16-bit little-endian value stored as `lo`, `hi`. */
  function LE16(lo: Byte, hi: Byte): (v: nat)
    ensures v < 0x1_0000
    ensures v % 256 == lo && v / 256 == hi
  {
    lo + 256 * hi
  }

  /** The block marker that starts every firing block of a packet. */
  const Marker: seq<Byte> := [0xFF, 0xEE]

  predicate MarkerAt(s: seq<Byte>, i: int)
  {
    0 <= i && i + 1 < |s| && s[i] == 0xFF && s[i + 1] == 0xEE
  }

  predicate MarkerFree(s: seq<Byte>)
  {
    forall i :: 0 <= i < |s| ==> !MarkerAt(s, i)
  }

  /** `s.split(b'\xff\xee')`: the pieces between leftmost, non-overlapping
      occurrences of the marker; there is always at least one piece. */
  function Split(s: seq<Byte>): (pieces: seq<seq<Byte>>)
    ensures |pieces| >= 1
    ensures pieces[0] <= s
    decreases |s|
  {
    if |s| < 2 then [s]
    else if MarkerAt(s, 0) then [[]] + Split(s[2..])
    else
      var rest := Split(s[1..]);
      [[s[0]] + rest[0]] + rest[1..]
  }

  /** `b'\xff\xee'.join(pieces)`: the inverse of `Split`. */
  function Join(pieces: seq<seq<Byte>>): (s: seq<Byte>)
    requires |pieces| >= 1
    decreases |pieces|
  {
    if |pieces| == 1 then pieces[0] else pieces[0] + Marker + Join(pieces[1..])
  }

  /** Splitting loses no byte: joining the pieces back gives the payload. */
  lemma {:induction false} JoinSplit(s: seq<Byte>)
    ensures Join(Split(s)) == s
    decreases |s|
  {
    if |s| < 2 {
    } else if MarkerAt(s, 0) {
      JoinSplit(s[2..]);
      assert s == [] + Marker + s[2..];
    } else {
      var rest := Split(s[1..]);
      JoinSplit(s[1..]);
      if |rest| == 1 {
        assert s == [s[0]] + s[1..];
      } else {
        assert Join(rest) == rest[0] + Marker + Join(rest[1..]);
        assert Split(s)[1..] == rest[1..];
        assert s == [s[0]] + s[1..];
      }
    }
  }

  /** No piece of a split contains the marker. */
  lemma {:induction false} SplitPiecesMarkerFree(s: seq<Byte>)
    ensures forall k :: 0 <= k < |Split(s)| ==> MarkerFree(Split(s)[k])
    decreases |s|
  {
    if |s| < 2 {
    } else if MarkerAt(s, 0) {
      SplitPiecesMarkerFree(s[2..]);
      forall k | 0 <= k < |Split(s)|
        ensures MarkerFree(Split(s)[k])
      {
        if k > 0 { assert Split(s)[k] == Split(s[2..])[k - 1]; }
      }
    } else {
      var rest := Split(s[1..]);
      SplitPiecesMarkerFree(s[1..]);
      forall k | 0 <= k < |Split(s)|
        ensures MarkerFree(Split(s)[k])
      {
        if k > 0 {
          assert Split(s)[k] == rest[k];
        } else {
          var p := [s[0]] + rest[0];
          assert MarkerFree(rest[0]);
          forall i | 0 <= i < |p|
            ensures !MarkerAt(p, i)
          {
            if i > 0 {
              assert !MarkerAt(rest[0], i - 1);
            } else if |p| > 1 {
              assert p[1] == rest[0][0] == s[1];
            }
          }
        }
      }
    }
  }

  /** A marker-free piece followed by the marker is split off as one piece. */
  lemma {:induction false} SplitAfterPiece(p: seq<Byte>, t: seq<Byte>)
    requires MarkerFree(p)
    ensures Split(p + Marker + t) == [p] + Split(t)
    decreases |p|
  {
    var s := p + Marker + t;
    if p == [] {
      assert s[2..] == t;
    } else {
      var p' := p[1..];
      assert MarkerFree(p') by {
        forall i | 0 <= i < |p'| ensures !MarkerAt(p', i) {
          assert !MarkerAt(p, i + 1);
        }
      }
      assert !MarkerAt(s, 0) by {
        if |p| > 1 { assert !MarkerAt(p, 0); } else { assert s[1] == 0xFF; }
      }
      assert s[1..] == p' + Marker + t;
      SplitAfterPiece(p', t);
      assert [s[0]] + p' == p;
    }
  }

  /** A marker-free sequence is split into itself alone. */
  lemma {:induction false} SplitMarkerFree(p: seq<Byte>)
    requires MarkerFree(p)
    ensures Split(p) == [p]
    decreases |p|
  {
    if |p| >= 2 {
      var p' := p[1..];
      assert !MarkerAt(p, 0);
      assert MarkerFree(p') by {
        forall i | 0 <= i < |p'| ensures !MarkerAt(p', i) {
          assert !MarkerAt(p, i + 1);
        }
      }
      SplitMarkerFree(p');
      assert [p[0]] + p' == p;
    }
  }

  /** Conversely, marker-free pieces are recovered from their join, so `Split`
      is the only way to cut a payload into marker-free pieces. */
  lemma {:induction false} SplitJoin(pieces: seq<seq<Byte>>)
    requires |pieces| >= 1
    requires forall k :: 0 <= k < |pieces| ==> MarkerFree(pieces[k])
    ensures Split(Join(pieces)) == pieces
    decreases |pieces|
  {
    if |pieces| == 1 {
      SplitMarkerFree(pieces[0]);
    } else {
      SplitJoin(pieces[1..]);
      SplitAfterPiece(pieces[0], Join(pieces[1..]));
      assert [pieces[0]] + pieces[1..] == pieces;
    }
  }

  /** A marker occurrence anywhere in a sequence, data bytes included, ends
      the first piece no later than that occurrence. */
  lemma {:induction false} MarkerEndsFirstPiece(s: seq<Byte>, i: nat)
    requires MarkerAt(s, i)
    ensures |Split(s)| >= 2 && |Split(s)[0]| <= i
    decreases |s|
  {
    if !MarkerAt(s, 0) {
      MarkerEndsFirstPiece(s[1..], i - 1);
    }
  }
}
