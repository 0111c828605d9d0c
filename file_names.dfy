/** The file names of a scan: the `.pcap` capture name built by the LidarScan
    constructor and the `<stem>_<index>.csv` names of the frames written by
    reader_pcap_file. */
module FileNames {

  datatype Option<T> = None | Some(value: T)

  const PcapExtension: string := ".pcap"
  const CsvExtension: string := ".csv"

  /** t occurs in s starting at index j. */
  predicate OccursAt(s: string, t: string, j: int)
  {
    0 <= j && j + |t| <= |s| && s[j..j + |t|] == t
  }

  /** The first index, from `from` on, at which t occurs in s. */
  function FindFrom(s: string, t: string, from: nat): (r: Option<nat>)
    ensures r.Some? ==> from <= r.value && OccursAt(s, t, r.value)
    ensures r.Some? ==> forall j :: from <= j < r.value ==> !OccursAt(s, t, j)
    ensures r.None? ==> forall j :: from <= j ==> !OccursAt(s, t, j)
    decreases |s| - from
  {
    if from + |t| > |s| then None
    else if OccursAt(s, t, from) then Some(from)
    else FindFrom(s, t, from + 1)
  }

  /** Python's `str.find`: the first index at which t occurs in s. */
  function Find(s: string, t: string): (r: Option<nat>)
    ensures r.Some? ==> OccursAt(s, t, r.value)
    ensures r.Some? ==> forall j :: 0 <= j < r.value ==> !OccursAt(s, t, j)
    ensures r.None? ==> forall j :: !OccursAt(s, t, j)
  {
    FindFrom(s, t, 0)
  }

  /** Python's `t in s` on strings. */
  predicate Contains(s: string, t: string)
  {
    Find(s, t).Some?
  }

  /** LidarScan.__init__: `.pcap` is appended only when it is not already
      somewhere in the name. */
  function Normalised(filename: string): string
  {
    if !Contains(filename, PcapExtension) then filename + PcapExtension else filename
  }

  /** `url.split('.pcap')[0]`: the text before the first `.pcap`, or the
      whole path when it has none; the stem itself holds no `.pcap`. */
  function Stem(url: string): (stem: string)
    ensures stem <= url
    ensures !Contains(stem, PcapExtension)
    ensures Contains(url, PcapExtension) ==> OccursAt(url, PcapExtension, |stem|)
    ensures !Contains(url, PcapExtension) ==> stem == url
  {
    match Find(url, PcapExtension)
    case None => url
    case Some(i) =>
      NoneBeforeFirst(url, i);
      url[..i]
  }

  /** The text before the first occurrence of t holds no occurrence of t. */
  lemma NoneBeforeFirst(url: string, i: nat)
    requires i <= |url|
    requires forall j :: 0 <= j < i ==> !OccursAt(url, PcapExtension, j)
    ensures !Contains(url[..i], PcapExtension)
  {
    if Contains(url[..i], PcapExtension) {
      var j := Find(url[..i], PcapExtension).value;
      assert url[..i][j..j + |PcapExtension|] == url[j..j + |PcapExtension|];
      assert OccursAt(url, PcapExtension, j);
      assert false;
    }
  }

  /** `os.path.join(a, b)` with POSIX separators. */
  function PosixJoin(a: string, b: string): string
  {
    if |b| > 0 && b[0] == '/' then b
    else if a == [] || a[|a| - 1] == '/' then a + b
    else a + "/" + b
  }

  /** A pattern found in a suffix is found in the whole. */
  lemma OccursInSuffix(p: string, s: string, t: string, j: int)
    requires OccursAt(s, t, j)
    ensures OccursAt(p + s, t, |p| + j)
  {
    assert (p + s)[|p| + j..|p| + j + |t|] == s[j..j + |t|];
  }

  /** The name the constructor stores always contains `.pcap`, and
      normalising twice changes nothing. */
  lemma {:induction false} NormalisedHasExtension(filename: string)
    ensures Contains(Normalised(filename), PcapExtension)
    ensures Normalised(Normalised(filename)) == Normalised(filename)
  {
    if !Contains(filename, PcapExtension) {
      OccursInSuffix(filename, PcapExtension, PcapExtension, 0);
      assert filename + PcapExtension == filename + PcapExtension + [];
      assert (filename + PcapExtension)[|filename|..|filename| + 5] == PcapExtension;
    }
  }

  /** Joining a directory in front keeps the `.pcap` of the file name. */
  lemma {:induction false} JoinKeepsExtension(dir: string, name: string)
    requires Contains(name, PcapExtension)
    ensures Contains(PosixJoin(dir, name), PcapExtension)
  {
    var j := Find(name, PcapExtension).value;
    if |name| > 0 && name[0] == '/' {
    } else if dir == [] || dir[|dir| - 1] == '/' {
      OccursInSuffix(dir, name, PcapExtension, j);
    } else {
      OccursInSuffix(dir + "/", name, PcapExtension, j);
      assert dir + "/" + name == (dir + "/") + name;
    }
  }

  /** `.pcap` cannot straddle the end of a name followed by `.pcap`: its
      '.' occurs only once. */
  lemma NoStraddle(name: string, j: int)
    requires 0 <= j && |name| - |PcapExtension| < j < |name|
    ensures !OccursAt(name + PcapExtension, PcapExtension, j)
  {
    var s := name + PcapExtension;
    var off := |name| - j;
    assert s[j..j + 5][off] == s[|name|] == '.';
    assert PcapExtension[off] != '.';
  }

  /** The first `.pcap` of `name + ".pcap"` is the appended one when name has
      none. */
  lemma FirstExtensionIsAppended(name: string)
    requires !Contains(name, PcapExtension)
    ensures Find(name + PcapExtension, PcapExtension) == Some(|name|)
  {
    var s := name + PcapExtension;
    assert OccursAt(s, PcapExtension, |name|) by {
      assert s[|name|..|name| + 5] == PcapExtension;
    }
    var i := Find(s, PcapExtension).value;
    if i < |name| {
      if i + 5 <= |name| {
        assert s[i..i + 5] == name[i..i + 5];
        assert OccursAt(name, PcapExtension, i);
      } else {
        NoStraddle(name, i);
      }
    }
  }

  /** Splitting the normalised name on `.pcap` gives back the name given to
      the constructor when it had no `.pcap`, and otherwise its text before
      the first `.pcap`. */
  lemma {:induction false} StemOfNormalised(name: string)
    ensures !Contains(name, PcapExtension) ==> Stem(Normalised(name)) == name
    ensures Contains(name, PcapExtension) ==> Stem(Normalised(name)) == name[..Find(name, PcapExtension).value]
  {
    if !Contains(name, PcapExtension) {
      FirstExtensionIsAppended(name);
      assert (name + PcapExtension)[..|name|] == name;
    }
  }

  // `str(n)` for the frame index.

  function DigitChar(d: nat): (c: char)
    requires d < 10
    ensures '0' <= c <= '9'
  {
    ('0' as int + d) as char
  }

  function DigitValue(c: char): (d: nat)
    requires '0' <= c <= '9'
    ensures d < 10
  {
    c as int - '0' as int
  }

  predicate AllDigits(s: string)
  {
    forall i :: 0 <= i < |s| ==> '0' <= s[i] <= '9'
  }

  /** The decimal numeral of n, without leading zeros. */
  function Decimal(n: nat): (s: string)
    ensures |s| >= 1 && AllDigits(s)
    decreases n
  {
    if n < 10 then [DigitChar(n)] else Decimal(n / 10) + [DigitChar(n % 10)]
  }

  function ParseDecimal(s: string): nat
    requires AllDigits(s)
    decreases |s|
  {
    if s == [] then 0 else 10 * ParseDecimal(s[..|s| - 1]) + DigitValue(s[|s| - 1])
  }

  /** Reading the numeral back gives the number. */
  lemma {:induction false} ParseDecimalOfDecimal(n: nat)
    ensures ParseDecimal(Decimal(n)) == n
    decreases n
  {
    if n >= 10 {
      ParseDecimalOfDecimal(n / 10);
      var s := Decimal(n);
      assert s[..|s| - 1] == Decimal(n / 10);
    }
  }

  /** `url_pcap_filename + '_' + str(index) + '.csv'`. */
  function FrameFileName(stem: string, index: nat): string
  {
    stem + "_" + Decimal(index) + CsvExtension
  }

  /** Distinct frame indices give distinct file names, so no frame file
      overwrites another. */
  lemma FrameFileNamesDistinct(stem: string, i: nat, j: nat)
    requires i != j
    ensures FrameFileName(stem, i) != FrameFileName(stem, j)
  {
    if FrameFileName(stem, i) == FrameFileName(stem, j) {
      var a, b := FrameFileName(stem, i), FrameFileName(stem, j);
      var lo := |stem| + 1;
      assert |Decimal(i)| == |Decimal(j)|;
      assert a[lo..lo + |Decimal(i)|] == Decimal(i);
      assert b[lo..lo + |Decimal(j)|] == Decimal(j);
      ParseDecimalOfDecimal(i);
      ParseDecimalOfDecimal(j);
      assert false;
    }
  }

  /** The names of frames 0 .. n-1 are pairwise distinct. */
  lemma FrameFileNamesAllDistinct(stem: string, n: nat)
    ensures forall k, m :: 0 <= k < m < n ==> FrameFileName(stem, k) != FrameFileName(stem, m)
  {
    forall k, m | 0 <= k < m < n
      ensures FrameFileName(stem, k) != FrameFileName(stem, m)
    {
      FrameFileNamesDistinct(stem, k, m);
    }
  }
}
