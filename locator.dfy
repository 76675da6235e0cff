/**
 * Where an entry's main bytes live: right after the tree in the directory
 * file when its archive index is the sentinel 0x7fff, otherwise in the
 * numbered archive next to it, whose name replaces the "_dir.vpk" suffix of
 * the directory path by "_" + three-digit index + ".vpk".
 */
module VpkLocator {
  import opened Bytes
  import opened VpkHeader
  import opened VpkEntry

  /** The archive index of entries stored in the directory file itself. */
  const SENTINEL_INDEX: u16 := 0x7fff
  const DIR_SUFFIX: string := "_dir.vpk"
  const ARCHIVE_EXT: string := ".vpk"

  predicate EndsWith(s: string, suffix: string) {
    |suffix| <= |s| && s[|s| - |suffix|..] == suffix
  }

  /* Decimal text, as JavaScript's string conversion of a number writes it. */

  predicate IsDigits(s: string) {
    forall k :: 0 <= k < |s| ==> '0' <= s[k] <= '9'
  }

  function DigitChar(d: nat): (c: char)
    requires d < 10
    ensures '0' <= c <= '9'
  {
    (48 + d) as char
  }

  function DigitValue(c: char): nat
    requires '0' <= c <= '9'
  {
    c as int - 48
  }

  /** The shortest decimal text of `n`: no leading zero except for 0 itself. */
  function Decimal(n: nat): (s: string)
    ensures 1 <= |s| && IsDigits(s)
    ensures s[0] == '0' ==> n == 0
    decreases n
  {
    if n < 10 then [DigitChar(n)] else Decimal(n / 10) + [DigitChar(n % 10)]
  }

  /** The number a digit string denotes. */
  function ParseDecimal(s: string): nat
    requires IsDigits(s)
    decreases |s|
  {
    if s == [] then 0 else 10 * ParseDecimal(s[..|s| - 1]) + DigitValue(s[|s| - 1])
  }

  lemma {:induction false} DecimalRoundTrip(n: nat)
    ensures ParseDecimal(Decimal(n)) == n
    decreases n
  {
    var s := Decimal(n);
    if n >= 10 {
      DecimalRoundTrip(n / 10);
      assert s[..|s| - 1] == Decimal(n / 10);
    }
  }

  /** Leading zeros do not change the number a digit string denotes. */
  lemma {:induction false} LeadingZeros(z: nat, s: string)
    requires IsDigits(s)
    ensures IsDigits(ZeroChars(z) + s) && ParseDecimal(ZeroChars(z) + s) == ParseDecimal(s)
    decreases |s|
  {
    var t := ZeroChars(z) + s;
    if s == [] {
      assert t == ZeroChars(z);
      ZerosParse(z);
    } else {
      assert t[..|t| - 1] == ZeroChars(z) + s[..|s| - 1];
      LeadingZeros(z, s[..|s| - 1]);
    }
  }

  function ZeroChars(z: nat): (s: string)
    ensures |s| == z && IsDigits(s)
    ensures forall k :: 0 <= k < z ==> s[k] == '0'
  {
    seq(z, _ => '0')
  }

  lemma {:induction false} ZerosParse(z: nat)
    ensures ParseDecimal(ZeroChars(z)) == 0
    decreases z
  {
    if z > 0 {
      assert ZeroChars(z)[..z - 1] == ZeroChars(z - 1);
      ZerosParse(z - 1);
    }
  }

  /**
   * The archive number as written: "000" + index, keeping its last three
   * characters.
   */
  function Last3AsWritten(index: u16): (s: string)
    ensures |s| == 3 && IsDigits(s)
  {
    var t := "000" + Decimal(index);
    t[|t| - 3..]
  }

  /** The evidently intended archive number: the index padded to at least three digits. */
  function Pad3(index: u16): (s: string)
    ensures IsDigits(s)
    ensures |s| == if |Decimal(index)| < 3 then 3 else |Decimal(index)|
  {
    var d := Decimal(index);
    if |d| < 3 then ZeroChars(3 - |d|) + d else d
  }

  /** The padded number always denotes the index. */
  lemma Pad3Denotes(index: u16)
    ensures ParseDecimal(Pad3(index)) == index
  {
    var d := Decimal(index);
    DecimalRoundTrip(index);
    if |d| < 3 {
      LeadingZeros(3 - |d|, d);
    }
  }

  /** Below 1000 the code as written and the padding agree. */
  lemma Last3AgreesBelow1000(index: u16)
    requires index < 1000
    ensures Last3AsWritten(index) == Pad3(index)
  {
    var d := Decimal(index);
    DecimalDigits(index);
    var t := "000" + d;
    assert t[|t| - 3..] == ZeroChars(3 - |d|) + d;
  }

  /** Decimal text is three digits long at most below 1000. */
  lemma DecimalDigits(n: nat)
    ensures n < 10 ==> |Decimal(n)| == 1
    ensures 10 <= n < 100 ==> |Decimal(n)| == 2
    ensures 100 <= n < 1000 ==> |Decimal(n)| == 3
  {
    if n >= 10 {
      DecimalDigits(n / 10);
    }
  }

  /** Index 1234 is written as archive "234" instead of "1234". */
  lemma Last3Truncates()
    ensures Last3AsWritten(1234) == "234"
    ensures Pad3(1234) == "1234"
  {
    assert Decimal(1) == "1";
    assert Decimal(12) == "12";
    assert Decimal(123) == "123";
    assert Decimal(1234) == "1234";
  }

  /**
   * The archive path as written: the directory path with "_dir.vpk" at its
   * end replaced, or unchanged when it does not end that way.
   */
  function ArchivePathAsWritten(dirPath: string, index: u16): (p: string)
    ensures !EndsWith(dirPath, DIR_SUFFIX) ==> p == dirPath
  {
    if EndsWith(dirPath, DIR_SUFFIX)
    then dirPath[..|dirPath| - |DIR_SUFFIX|] + "_" + Last3AsWritten(index) + ARCHIVE_EXT
    else dirPath
  }

  /** Two different archives, 1234 and 234, share one name as written. */
  lemma ArchivePathAsWrittenCollides()
    ensures ArchivePathAsWritten("pak01_dir.vpk", 1234) == ArchivePathAsWritten("pak01_dir.vpk", 234)
    ensures ArchivePathAsWritten("pak01_dir.vpk", 234) == "pak01_234.vpk"
  {
    Last3Truncates();
    Last3AgreesBelow1000(234);
    assert Decimal(2) == "2";
    assert Decimal(23) == "23";
    assert Decimal(234) == "234";
  }

  function Pow10(k: nat): (p: nat)
    ensures p >= 1
  {
    if k == 0 then 1 else 10 * Pow10(k - 1)
  }

  /** A digit string followed by `t` denotes its number shifted by |t| places plus `t`'s number. */
  lemma {:induction false} ParseAppend(p: string, t: string)
    requires IsDigits(p) && IsDigits(t)
    ensures IsDigits(p + t) && ParseDecimal(p + t) == ParseDecimal(p) * Pow10(|t|) + ParseDecimal(t)
    decreases |t|
  {
    if t != [] {
      var t' := t[..|t| - 1];
      var c := t[|t| - 1];
      assert (p + t)[..|p + t| - 1] == p + t' && (p + t)[|p + t| - 1] == c;
      ParseAppend(p, t');
      var a, w := ParseDecimal(p), Pow10(|t'|);
      assert ParseDecimal(p + t) == 10 * ParseDecimal(p + t') + DigitValue(c);
      assert ParseDecimal(t) == 10 * ParseDecimal(t') + DigitValue(c);
      MulShift(a, w);
    } else {
      assert p + t == p;
    }
  }

  lemma MulShift(a: nat, w: nat)
    ensures 10 * (a * w) == a * (10 * w)
  {
  }

  /** A string of `k` digits denotes a number below 10^k. */
  lemma {:induction false} ParseBelow(s: string)
    requires IsDigits(s)
    ensures ParseDecimal(s) < Pow10(|s|)
    decreases |s|
  {
    if s != [] {
      ParseBelow(s[..|s| - 1]);
    }
  }

  /** Digit strings of one length that denote the same number are equal. */
  lemma {:induction false} DigitsInjective(a: string, b: string)
    requires IsDigits(a) && IsDigits(b) && |a| == |b| && ParseDecimal(a) == ParseDecimal(b)
    ensures a == b
    decreases |a|
  {
    if a != [] {
      var n := |a| - 1;
      var a', b' := a[..n], b[..n];
      assert IsDigits(a') && IsDigits(b') by {
        assert forall k :: 0 <= k < n ==> a'[k] == a[k] && b'[k] == b[k];
      }
      var x, y := ParseDecimal(a'), ParseDecimal(b');
      var d, e := DigitValue(a[n]), DigitValue(b[n]);
      assert 10 * x + d == 10 * y + e;
      LastDigitUnique(x, d, y, e);
      DigitsInjective(a', b');
      assert a[n] == b[n];
      assert a == a' + [a[n]] && b == b' + [b[n]];
    }
  }

  lemma LastDigitUnique(x: nat, d: nat, y: nat, e: nat)
    requires d < 10 && e < 10 && 10 * x + d == 10 * y + e
    ensures x == y && d == e
  {
  }

  lemma Mod1000(n: nat, q: nat, r: nat)
    requires r < 1000 && n == q * 1000 + r
    ensures n % 1000 == r
  {
  }

  /** As written, the archive number denotes the index modulo 1000. */
  lemma Last3Denotes(index: u16)
    ensures ParseDecimal(Last3AsWritten(index)) == index % 1000
  {
    var d := Decimal(index);
    var s := "000" + d;
    var head, tail := s[..|s| - 3], Last3AsWritten(index);
    assert s == head + tail;
    assert ParseDecimal(s) == index by {
      DecimalRoundTrip(index);
      LeadingZeros(3, d);
      assert ZeroChars(3) == "000";
    }
    assert ParseDecimal(s) == ParseDecimal(head) * 1000 + ParseDecimal(tail) by {
      ParseAppend(head, tail);
      assert Pow10(3) == 1000;
    }
    assert ParseDecimal(tail) < 1000 by {
      ParseBelow(tail);
      assert Pow10(3) == 1000;
    }
    Mod1000(index as nat, ParseDecimal(head), ParseDecimal(tail));
  }

  /**
   * As written, an archive path is the stem, "_", three digits that denote
   * the index modulo 1000, then ".vpk"; it is never the directory path.
   */
  lemma ArchivePathAsWrittenParts(dirPath: string, index: u16)
    requires EndsWith(dirPath, DIR_SUFFIX)
    ensures var stem, p := dirPath[..|dirPath| - |DIR_SUFFIX|], ArchivePathAsWritten(dirPath, index);
      && |p| == |stem| + 8
      && p[..|stem|] == stem
      && p[|stem|] == '_'
      && IsDigits(p[|stem| + 1..|p| - 4])
      && ParseDecimal(p[|stem| + 1..|p| - 4]) == index % 1000
      && EndsWith(p, ARCHIVE_EXT)
      && p != dirPath
  {
    var stem := dirPath[..|dirPath| - |DIR_SUFFIX|];
    var p := ArchivePathAsWritten(dirPath, index);
    var digits := Last3AsWritten(index);
    assert p == stem + "_" + digits + ARCHIVE_EXT;
    assert p[|stem| + 1..|p| - 4] == digits;
    Last3Denotes(index);
  }

  /** As written, two indexes share an archive exactly when they agree modulo 1000. */
  lemma ArchivePathAsWrittenSame(dirPath: string, i: u16, j: u16)
    requires EndsWith(dirPath, DIR_SUFFIX)
    ensures ArchivePathAsWritten(dirPath, i) == ArchivePathAsWritten(dirPath, j) <==> i % 1000 == j % 1000
  {
    ArchivePathAsWrittenParts(dirPath, i);
    ArchivePathAsWrittenParts(dirPath, j);
    var stem := dirPath[..|dirPath| - |DIR_SUFFIX|];
    if i % 1000 == j % 1000 {
      var a, b := Last3AsWritten(i), Last3AsWritten(j);
      var pa, pb := ArchivePathAsWritten(dirPath, i), ArchivePathAsWritten(dirPath, j);
      assert pa[|stem| + 1..|pa| - 4] == a && pb[|stem| + 1..|pb| - 4] == b;
      Last3Injective(i, j);
    }
  }

  /** Three-digit strings that denote the same number are equal. */
  lemma Last3Injective(i: u16, j: u16)
    requires i % 1000 == j % 1000
    ensures Last3AsWritten(i) == Last3AsWritten(j)
  {
    var a, b := Last3AsWritten(i), Last3AsWritten(j);
    Last3Denotes(i);
    Last3Denotes(j);
    DigitsInjective(a, b);
  }

  /** Below 1000 the name as written is the intended one. */
  lemma ArchivePathAsWrittenBelow1000(dirPath: string, index: u16)
    requires index < 1000
    ensures ArchivePathAsWritten(dirPath, index) == ArchivePath(dirPath, index)
  {
    Last3AgreesBelow1000(index);
  }

  /** The archive path, with the index padded rather than truncated. */
  function ArchivePath(dirPath: string, index: u16): (p: string)
    ensures !EndsWith(dirPath, DIR_SUFFIX) ==> p == dirPath
  {
    if EndsWith(dirPath, DIR_SUFFIX)
    then dirPath[..|dirPath| - |DIR_SUFFIX|] + "_" + Pad3(index) + ARCHIVE_EXT
    else dirPath
  }

  /**
   * The stem, the index and the extension can be read back from an archive
   * path; so different indexes name different archives, and no archive is
   * the directory file.
   */
  lemma ArchivePathParts(dirPath: string, index: u16)
    requires EndsWith(dirPath, DIR_SUFFIX)
    ensures var stem, p := dirPath[..|dirPath| - |DIR_SUFFIX|], ArchivePath(dirPath, index);
      && |stem| + 5 <= |p|
      && p[..|stem|] == stem
      && p[|stem|] == '_'
      && IsDigits(p[|stem| + 1..|p| - 4])
      && ParseDecimal(p[|stem| + 1..|p| - 4]) == index
      && EndsWith(p, ARCHIVE_EXT)
      && p != dirPath
  {
    var stem := dirPath[..|dirPath| - |DIR_SUFFIX|];
    var p := ArchivePath(dirPath, index);
    var digits := Pad3(index);
    assert p == stem + "_" + digits + ARCHIVE_EXT;
    assert p[|stem| + 1..|p| - 4] == digits;
    Pad3Denotes(index);
  }

  lemma ArchivePathInjective(dirPath: string, i: u16, j: u16)
    requires EndsWith(dirPath, DIR_SUFFIX)
    ensures ArchivePath(dirPath, i) == ArchivePath(dirPath, j) <==> i == j
  {
    ArchivePathParts(dirPath, i);
    ArchivePathParts(dirPath, j);
  }

  /** A file and a position within it. */
  datatype Location = Location(path: string, position: nat)

  /** Where the entry's `entryLength` main bytes start. */
  function MainLocation(dirPath: string, h: Header, e: DirectoryEntry): Location {
    if e.archiveIndex == SENTINEL_INDEX then
      Location(dirPath, h.treeLength + HeaderLength(h.version) + e.entryOffset)
    else
      Location(ArchivePathAsWritten(dirPath, e.archiveIndex), e.entryOffset)
  }

  /**
   * Where getFile reads the main bytes: the directory file after the tree
   * for the sentinel index; otherwise `entryOffset` into the archive the
   * index names as written, which is another file, ends in ".vpk" and
   * carries the index modulo 1000, or into the directory file itself when
   * its path does not end in "_dir.vpk".
   */
  lemma MainLocationCases(dirPath: string, h: Header, e: DirectoryEntry)
    ensures var loc := MainLocation(dirPath, h, e);
      && (e.archiveIndex == SENTINEL_INDEX ==>
            loc == Location(dirPath, HeaderLength(h.version) + h.treeLength + e.entryOffset))
      && (e.archiveIndex != SENTINEL_INDEX ==> loc.position == e.entryOffset)
      && (e.archiveIndex != SENTINEL_INDEX && !EndsWith(dirPath, DIR_SUFFIX) ==> loc.path == dirPath)
      && (e.archiveIndex != SENTINEL_INDEX && EndsWith(dirPath, DIR_SUFFIX) ==>
            && loc.path != dirPath
            && EndsWith(loc.path, ARCHIVE_EXT)
            && |loc.path| == |dirPath|
            && IsDigits(loc.path[|dirPath| - 7..|dirPath| - 4])
            && ParseDecimal(loc.path[|dirPath| - 7..|dirPath| - 4]) == e.archiveIndex % 1000)
      && (e.archiveIndex < 1000 ==> loc.path == ArchivePath(dirPath, e.archiveIndex))
  {
    if e.archiveIndex != SENTINEL_INDEX {
      if EndsWith(dirPath, DIR_SUFFIX) {
        ArchivePathAsWrittenParts(dirPath, e.archiveIndex);
      }
      if e.archiveIndex < 1000 {
        ArchivePathAsWrittenBelow1000(dirPath, e.archiveIndex);
      }
    }
  }

  /**
   * For a header decoded from the start of the directory file, the data of
   * the directory file starts where the header says the tree ends.
   */
  lemma EmbeddedDataAfterTree(data: seq<byte>, dirPath: string, e: DirectoryEntry)
    requires DecodeHeader(data, 0).Ok? && e.archiveIndex == SENTINEL_INDEX
    ensures var h := DecodeHeader(data, 0).value;
      MainLocation(dirPath, h.value, e) == Location(dirPath, h.next + h.value.treeLength + e.entryOffset)
  {
  }
}
