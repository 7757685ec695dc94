/** Names derived from paths and from the time of the run: Go's path.Base,
    the entry name of a directory's nested archive (folderZipName) and the
    name of the archive file (createTotalFileName). */
module Naming {
  import opened Wrappers

  // ---------------------------------------------------------------------
  // Slash-separated paths

  /** s without its trailing slashes. */
  function TrimTrailingSlashes(s: string): (r: string)
    ensures |r| <= |s|
    decreases |s|
  {
    if s != [] && s[|s| - 1] == '/' then TrimTrailingSlashes(s[..|s| - 1]) else s
  }

  /** What is left after trimming does not end in a slash. */
  lemma {:induction false} TrimmedShape(s: string)
    ensures TrimTrailingSlashes(s) == [] || TrimTrailingSlashes(s)[|TrimTrailingSlashes(s)| - 1] != '/'
    decreases |s|
  {
    if s != [] && s[|s| - 1] == '/' {
      TrimmedShape(s[..|s| - 1]);
    }
  }

  predicate NoSlash(s: string) {
    forall k :: 0 <= k < |s| ==> s[k] != '/'
  }

  lemma NoSlashConcat(a: string, b: string)
    requires NoSlash(a) && NoSlash(b)
    ensures NoSlash(a + b)
  {
    forall k | 0 <= k < |a + b|
      ensures (a + b)[k] != '/'
    {
      if k < |a| { assert (a + b)[k] == a[k]; } else { assert (a + b)[k] == b[k - |a|]; }
    }
  }

  /** A segment of a path: not empty and free of slashes. */
  predicate IsSegment(s: string) {
    s != [] && NoSlash(s)
  }

  /** Splits s after its last slash: everything up to and including that
      slash, and the slash-free rest. */
  function SplitAtLastSlash(s: string): (r: (string, string))
    ensures |r.0| + |r.1| == |s|
    decreases |s|
  {
    if s == [] then ("", "")
    else if s[|s| - 1] == '/' then (s, "")
    else
      var (a, b) := SplitAtLastSlash(s[..|s| - 1]);
      (a, b + [s[|s| - 1]])
  }

  /** The two parts make up s, the first is empty or ends in the slash, and
      the second has no slash. */
  lemma {:induction false} SplitShape(s: string)
    ensures s == SplitAtLastSlash(s).0 + SplitAtLastSlash(s).1
    ensures SplitAtLastSlash(s).0 == [] || SplitAtLastSlash(s).0[|SplitAtLastSlash(s).0| - 1] == '/'
    ensures NoSlash(SplitAtLastSlash(s).1)
    decreases |s|
  {
    if s != [] && s[|s| - 1] != '/' {
      var init := s[..|s| - 1];
      SplitShape(init);
      var (a, b) := SplitAtLastSlash(init);
      assert s == init + [s[|s| - 1]];
      assert s == a + (b + [s[|s| - 1]]);
      NoSlashConcat(b, [s[|s| - 1]]);
    }
  }

  /** The split is the only one of its shape. */
  lemma {:induction false} SplitAtLastSlashUnique(a: string, b: string)
    requires a == [] || a[|a| - 1] == '/'
    requires NoSlash(b)
    ensures SplitAtLastSlash(a + b) == (a, b)
    decreases |b|
  {
    var s := a + b;
    if b == [] {
      assert s == a;
    } else {
      var b' := b[..|b| - 1];
      assert s[..|s| - 1] == a + b';
      assert s[|s| - 1] == b[|b| - 1];
      SplitAtLastSlashUnique(a, b');
      assert b' + [b[|b| - 1]] == b;
    }
  }

  /** Go's path.Base: the last element of p once trailing slashes are
      removed; "." for the empty path and "/" for a path of slashes only. */
  function Base(p: string): string
  {
    if p == [] then "."
    else
      var segs := Segments(p);
      if segs == [] then "/" else segs[|segs| - 1]
  }

  /** Base is never empty, and it is "/" or free of slashes. */
  lemma BaseShape(p: string)
    ensures Base(p) != []
    ensures Base(p) == "/" || NoSlash(Base(p))
  {
    SegmentsAreSegments(p);
  }

  /** The segments of a slash-separated path, in order; empty segments (from
      repeated, leading or trailing slashes) are dropped. */
  function Segments(p: string): seq<string>
    decreases |p|
  {
    var q := TrimTrailingSlashes(p);
    if q == [] then []
    else
      var (a, last) := SplitAtLastSlash(q);
      Segments(a) + [last]
  }

  /** Every element Segments yields is a proper segment. */
  lemma {:induction false} SegmentsAreSegments(p: string)
    ensures forall i :: 0 <= i < |Segments(p)| ==> IsSegment(Segments(p)[i])
    decreases |p|
  {
    var q := TrimTrailingSlashes(p);
    if q != [] {
      TrimmedShape(p);
      SplitShape(q);
      var (a, last) := SplitAtLastSlash(q);
      assert last != [] by {
        assert q[|q| - 1] != '/';
      }
      SegmentsAreSegments(a);
    }
  }

  /** The absolute path "/s1/s2/.../sn" of its segments. */
  function JoinPath(segs: seq<string>): string
  {
    if segs == [] then "" else JoinPath(segs[..|segs| - 1]) + "/" + segs[|segs| - 1]
  }

  /** An absolute path written out from clean segments splits back into
      exactly those segments: such a path is as good as its segment sequence. */
  lemma {:induction false} SegmentsOfJoinPath(segs: seq<string>)
    requires forall i :: 0 <= i < |segs| ==> IsSegment(segs[i])
    ensures Segments(JoinPath(segs)) == segs
  {
    if segs == [] {
      assert TrimTrailingSlashes("") == "";
    } else {
      var init, x := segs[..|segs| - 1], segs[|segs| - 1];
      var j := JoinPath(init);
      assert j == [] || j[|j| - 1] != '/' by {
        if init != [] {
          var y := init[|init| - 1];
          assert j[|j| - 1] == y[|y| - 1];
        }
      }
      SplitAtLastSegment(j, x);
      SegmentsOfJoinPath(init);
      assert segs == init + [x];
    }
  }

  /** One more segment after a path that does not end in a slash. */
  lemma SplitAtLastSegment(j: string, x: string)
    requires IsSegment(x)
    requires j == [] || j[|j| - 1] != '/'
    ensures Segments(j + "/" + x) == Segments(j) + [x]
  {
    var p := (j + "/") + x;
    EndsInSegment(j + "/", x);
    SplitAtLastSlashUnique(j + "/", x);
    SegmentsOfTrimmed(p, j + "/", x);
    TrimOneSlash(j);
    SegmentsIgnoreTrailingSlashes(j + "/");
    SegmentsIgnoreTrailingSlashes(j);
  }

  lemma EndsInSegment(a: string, x: string)
    requires IsSegment(x)
    ensures TrimTrailingSlashes(a + x) == a + x
  {
    var p := a + x;
    assert p[|p| - 1] == x[|x| - 1];
  }

  lemma TrimOneSlash(j: string)
    requires j == [] || j[|j| - 1] != '/'
    ensures TrimTrailingSlashes(j + "/") == j
    ensures TrimTrailingSlashes(j) == j
  {
    assert (j + "/")[..|j + "/"| - 1] == j;
  }

  lemma SegmentsOfTrimmed(p: string, a: string, x: string)
    requires p != [] && TrimTrailingSlashes(p) == p
    requires SplitAtLastSlash(p) == (a, x)
    ensures Segments(p) == Segments(a) + [x]
  {
  }

  lemma SegmentsIgnoreTrailingSlashes(s: string)
    ensures Segments(s) == Segments(TrimTrailingSlashes(s))
  {
    var q := TrimTrailingSlashes(s);
    assert TrimTrailingSlashes(q) == q;
  }

  /** Base of a name appended to a path: the name alone when the path is
      empty or ends in a slash, otherwise the name glued to the path's own base. */
  lemma BaseOfAppended(a: string, b: string)
    requires IsSegment(b)
    ensures Base(a + b) == if a == [] || a[|a| - 1] == '/' then b else Base(a) + b
  {
    var p := a + b;
    assert TrimTrailingSlashes(p) == p by {
      assert p[|p| - 1] == b[|b| - 1];
    }
    if a == [] || a[|a| - 1] == '/' {
      SplitAtLastSlashUnique(a, b);
    } else {
      assert TrimTrailingSlashes(a) == a;
      SplitShape(a);
      var (a1, a2) := SplitAtLastSlash(a);
      assert a2 != [];
      NoSlashConcat(a2, b);
      assert p == a1 + (a2 + b);
      SplitAtLastSlashUnique(a1, a2 + b);
    }
  }

  /** folderZipName: the entry name of a directory's nested archive. */
  function FolderZipName(d: string): string
  {
    Base(d) + ".zip"
  }

  /** The entry of a configured directory is named after the directory the
      walk starts from: the last segment of its path. A path without any
      segment gives "..zip" when empty and "/.zip", with its slash, when it
      holds slashes only. */
  lemma FolderZipNameIsLastSegment(d: string)
    ensures Segments(d) != [] ==> FolderZipName(d) == Segments(d)[|Segments(d)| - 1] + ".zip"
    ensures Segments(d) != [] ==> NoSlash(FolderZipName(d))
    ensures Segments(d) == [] ==> FolderZipName(d) == if d == [] then "..zip" else "/.zip"
  {
    if Segments(d) != [] {
      BaseShape(d);
      NoSlashConcat(Base(d), ".zip");
    }
  }

  // ---------------------------------------------------------------------
  // The time stamp in the archive's file name

  type Month = m: int | 1 <= m <= 12 witness 1
  type Day = d: int | 1 <= d <= 31 witness 1
  type Hour = h: int | 0 <= h < 24
  type Minute = m: int | 0 <= m < 60
  type Second = s: int | 0 <= s < 60

  /** A local date and time, to the second, as the clock reports it. */
  datatype DateTime = DateTime(year: int, month: Month, day: Day, hour: Hour, minute: Minute, second: Second)

  predicate IsDigit(c: char) {
    '0' <= c <= '9'
  }

  function DigitChar(d: nat): (c: char)
    requires d < 10
    ensures IsDigit(c) && c as int == '0' as int + d
  {
    ('0' as int + d) as char
  }

  function DigitValue(c: char): (d: nat)
    requires IsDigit(c)
    ensures d < 10 && DigitChar(d) == c
  {
    c as int - '0' as int
  }

  predicate AllDigits(s: string) {
    forall i :: 0 <= i < |s| ==> IsDigit(s[i])
  }

  /** The decimal digits of u, without leading zeros. */
  function Decimal(u: nat): (r: string)
    ensures r != [] && AllDigits(r)
  {
    if u < 10 then [DigitChar(u)] else Decimal(u / 10) + [DigitChar(u % 10)]
  }

  function Zeros(n: nat): (r: string)
    ensures |r| == n && AllDigits(r)
    ensures forall i :: 0 <= i < n ==> r[i] == '0'
  {
    if n == 0 then [] else Zeros(n - 1) + ['0']
  }

  /** The digits of u, left-padded with zeros to at least `width` (never cut). */
  function Padded(u: nat, width: nat): (r: string)
    ensures r != [] && AllDigits(r)
  {
    var ds := Decimal(u);
    Zeros(if |ds| < width then width - |ds| else 0) + ds
  }

  /** The number time.Format writes for x in a field of `width` digits: a
      minus sign if x is negative, then the padded digits of its magnitude. */
  function FormatInt(x: int, width: nat): string
  {
    (if x < 0 then "-" else "") + Padded(if x < 0 then -x else x, width)
  }

  /** The value of a string of digits. */
  function ParseDecimal(s: string): nat
    requires AllDigits(s)
  {
    if s == [] then 0 else ParseDecimal(s[..|s| - 1]) * 10 + DigitValue(s[|s| - 1])
  }

  /** The inverse of FormatInt: an optional minus sign followed by digits. */
  function ParseInt(s: string): Option<int>
  {
    if s != [] && s[0] == '-' then
      if s[1..] != [] && AllDigits(s[1..]) then Some(-(ParseDecimal(s[1..]) as int)) else None
    else if s != [] && AllDigits(s) then Some(ParseDecimal(s))
    else None
  }

  lemma {:induction false} ParseDecimalOfDecimal(u: nat)
    ensures ParseDecimal(Decimal(u)) == u
  {
    if u >= 10 {
      var s := Decimal(u);
      assert s[..|s| - 1] == Decimal(u / 10);
      ParseDecimalOfDecimal(u / 10);
    }
  }

  lemma {:induction false} ParseDecimalSkipsZeros(n: nat, s: string)
    requires AllDigits(s)
    ensures AllDigits(Zeros(n) + s)
    ensures ParseDecimal(Zeros(n) + s) == ParseDecimal(s)
    decreases |s|
  {
    var z := Zeros(n);
    if s == [] {
      assert z + s == z;
      ParseDecimalOfZeros(n);
    } else {
      var t := z + s;
      assert t[..|t| - 1] == z + s[..|s| - 1];
      ParseDecimalSkipsZeros(n, s[..|s| - 1]);
    }
  }

  lemma {:induction false} ParseDecimalOfZeros(n: nat)
    ensures ParseDecimal(Zeros(n)) == 0
  {
    if n > 0 {
      assert Zeros(n)[..n - 1] == Zeros(n - 1);
      ParseDecimalOfZeros(n - 1);
    }
  }

  /** Padding does not change the value the digits stand for. */
  lemma PaddedValue(u: nat, width: nat)
    ensures ParseDecimal(Padded(u, width)) == u
  {
    var ds := Decimal(u);
    ParseDecimalOfDecimal(u);
    ParseDecimalSkipsZeros(if |ds| < width then width - |ds| else 0, ds);
  }

  /** Every number written by FormatInt reads back as itself. */
  lemma FormatIntRoundTrip(x: int, width: nat)
    ensures ParseInt(FormatInt(x, width)) == Some(x)
  {
    var u := if x < 0 then -x else x;
    var digits := Padded(u, width);
    PaddedValue(u, width);
    if x < 0 {
      assert FormatInt(x, width) == "-" + digits;
      ParseNegative(digits);
    } else {
      assert FormatInt(x, width) == digits;
      assert IsDigit(digits[0]);
    }
  }

  lemma ParseNegative(digits: string)
    requires digits != [] && AllDigits(digits)
    ensures ParseInt("-" + digits) == Some(-(ParseDecimal(digits) as int))
  {
    assert ("-" + digits)[1..] == digits;
  }

  /** A two-digit field holding a number below 100 is exactly two digits. */
  lemma FormatTwoDigits(x: int)
    requires 0 <= x < 100
    ensures FormatInt(x, 2) == [DigitChar(x / 10), DigitChar(x % 10)]
  {
    if x < 10 {
      assert Zeros(1) == ['0'];
    } else {
      assert Decimal(x) == Decimal(x / 10) + [DigitChar(x % 10)];
    }
  }

  /** The time stamp in layout "2006-01-02T15-04-05": YYYY-MM-DDTHH-MM-SS. */
  function Timestamp(t: DateTime): string
  {
    FormatInt(t.year, 4) + AfterYear(t)
  }

  /** The part of the time stamp after the year: "-MM-DDTHH-MM-SS". */
  function AfterYear(t: DateTime): string
  {
    "-" + FormatInt(t.month, 2) + "-" + FormatInt(t.day, 2) + "T"
    + FormatInt(t.hour, 2) + "-" + FormatInt(t.minute, 2) + "-" + FormatInt(t.second, 2)
  }

  /** Every field after the year is written with exactly two digits. */
  lemma AfterYearChars(t: DateTime)
    ensures AfterYear(t) == [
      '-', DigitChar(t.month / 10), DigitChar(t.month % 10),
      '-', DigitChar(t.day / 10), DigitChar(t.day % 10),
      'T', DigitChar(t.hour / 10), DigitChar(t.hour % 10),
      '-', DigitChar(t.minute / 10), DigitChar(t.minute % 10),
      '-', DigitChar(t.second / 10), DigitChar(t.second % 10)]
  {
    FormatTwoDigits(t.month);
    FormatTwoDigits(t.day);
    FormatTwoDigits(t.hour);
    FormatTwoDigits(t.minute);
    FormatTwoDigits(t.second);
  }

  /** The value of the two digits at s[i], s[i+1]. */
  function TwoDigits(s: string, i: nat): int
    requires i + 1 < |s| && IsDigit(s[i]) && IsDigit(s[i + 1])
  {
    DigitValue(s[i]) * 10 + DigitValue(s[i + 1])
  }

  /** "-MM-DDTHH-MM-SS": separators and two-digit fields in their places. */
  predicate AfterYearShape(f: string) {
    && |f| == 15
    && f[0] == '-' && f[3] == '-' && f[6] == 'T' && f[9] == '-' && f[12] == '-'
    && IsDigit(f[1]) && IsDigit(f[2]) && IsDigit(f[4]) && IsDigit(f[5]) && IsDigit(f[7])
    && IsDigit(f[8]) && IsDigit(f[10]) && IsDigit(f[11]) && IsDigit(f[13]) && IsDigit(f[14])
  }

  /** Reads month, day, hour, minute and second from "-MM-DDTHH-MM-SS". */
  function ParseAfterYear(f: string): Option<seq<int>>
  {
    if AfterYearShape(f)
    then Some([TwoDigits(f, 1), TwoDigits(f, 4), TwoDigits(f, 7), TwoDigits(f, 10), TwoDigits(f, 13)])
    else None
  }

  /** Reads a time stamp back: the year is everything before the last 15
      characters, which hold "-MM-DDTHH-MM-SS". */
  function ParseTimestamp(s: string): Option<DateTime>
  {
    if |s| < 16 then None
    else match (ParseInt(s[..|s| - 15]), ParseAfterYear(s[|s| - 15..]))
      case (Some(year), Some(v)) =>
        if 1 <= v[0] <= 12 && 1 <= v[1] <= 31 && 0 <= v[2] < 24 && 0 <= v[3] < 60 && 0 <= v[4] < 60
        then Some(DateTime(year, v[0], v[1], v[2], v[3], v[4]))
        else None
      case _ => None
  }

  lemma AfterYearRoundTrip(t: DateTime)
    ensures ParseAfterYear(AfterYear(t)) == Some([t.month, t.day, t.hour, t.minute, t.second])
  {
    AfterYearChars(t);
    ParseAfterYearOfFields(AfterYear(t), t);
  }

  /** The fields read back from a string holding them in the layout. */
  lemma ParseAfterYearOfFields(f: string, t: DateTime)
    requires f == [
      '-', DigitChar(t.month / 10), DigitChar(t.month % 10),
      '-', DigitChar(t.day / 10), DigitChar(t.day % 10),
      'T', DigitChar(t.hour / 10), DigitChar(t.hour % 10),
      '-', DigitChar(t.minute / 10), DigitChar(t.minute % 10),
      '-', DigitChar(t.second / 10), DigitChar(t.second % 10)]
    ensures ParseAfterYear(f) == Some([t.month, t.day, t.hour, t.minute, t.second])
  {
    TwoDigitsOf(f, 1, t.month);
    TwoDigitsOf(f, 4, t.day);
    TwoDigitsOf(f, 7, t.hour);
    TwoDigitsOf(f, 10, t.minute);
    TwoDigitsOf(f, 13, t.second);
  }

  lemma TwoDigitsOf(f: string, i: nat, x: int)
    requires 0 <= x < 100 && i + 1 < |f|
    requires f[i] == DigitChar(x / 10) && f[i + 1] == DigitChar(x % 10)
    ensures IsDigit(f[i]) && IsDigit(f[i + 1]) && TwoDigits(f, i) == x
  {
  }

  /** The time stamp determines the date and time it was made from. */
  lemma TimestampRoundTrip(t: DateTime)
    ensures ParseTimestamp(Timestamp(t)) == Some(t)
  {
    var y, f := FormatInt(t.year, 4), AfterYear(t);
    AfterYearChars(t);
    AfterYearRoundTrip(t);
    FormatIntRoundTrip(t.year, 4);
    FormatIntHasNoSlash(t.year, 4);
    var s := Timestamp(t);
    assert s[..|s| - 15] == y && s[|s| - 15..] == f;
  }

  /** For years 0 to 9999 the time stamp has a fixed length of 19 characters. */
  lemma TimestampLength(t: DateTime)
    requires 0 <= t.year <= 9999
    ensures |Timestamp(t)| == 19
  {
    AfterYearChars(t);
    DecimalLength(t.year);
  }

  lemma {:induction false} DecimalLength(u: nat)
    ensures u < 10 ==> |Decimal(u)| == 1
    ensures u < 100 ==> |Decimal(u)| <= 2
    ensures u < 1000 ==> |Decimal(u)| <= 3
    ensures u < 10000 ==> |Decimal(u)| <= 4
  {
    if u >= 10 {
      DecimalLength(u / 10);
    }
  }

  // ---------------------------------------------------------------------
  // The archive's file name

  const FilePrefix := "backup_"
  const ArchiveExtension := ".zip"

  /** createTotalFileName: the local folder, then "backup_", the time stamp
      and ".zip"; no separator is put after the folder. */
  function TotalFileName(localFolder: string, t: DateTime): string
  {
    localFolder + ArchiveName(t)
  }

  /** The part of the file name written after the local folder. */
  function ArchiveName(t: DateTime): string
  {
    FilePrefix + Timestamp(t) + ArchiveExtension
  }

  /** Reads back the time a file name made by TotalFileName stands for. */
  function ParseTotalFileName(localFolder: string, name: string): Option<DateTime>
  {
    var lo, hi := |localFolder| + |FilePrefix|, |name| - |ArchiveExtension|;
    if lo <= hi && name[..lo] == localFolder + FilePrefix && name[hi..] == ArchiveExtension
    then ParseTimestamp(name[lo..hi])
    else None
  }

  lemma TotalFileNameRoundTrip(localFolder: string, t: DateTime)
    ensures ParseTotalFileName(localFolder, TotalFileName(localFolder, t)) == Some(t)
  {
    TimestampRoundTrip(t);
    ParseFileNameOf(localFolder, Timestamp(t), t);
  }

  /** The time stamp is cut out of the file name exactly. */
  lemma ParseFileNameOf(localFolder: string, ts: string, t: DateTime)
    requires ParseTimestamp(ts) == Some(t)
    ensures ParseTotalFileName(localFolder, localFolder + (FilePrefix + ts + ArchiveExtension)) == Some(t)
  {
    var n := localFolder + (FilePrefix + ts + ArchiveExtension);
    var lo, hi := |localFolder| + |FilePrefix|, |n| - |ArchiveExtension|;
    assert n[..lo] == localFolder + FilePrefix;
    assert n[hi..] == ArchiveExtension;
    assert n[lo..hi] == ts;
  }

  /** Runs whose local times differ to the second write different files of
      the same folder. */
  lemma TotalFileNameInjective(localFolder: string, a: DateTime, b: DateTime)
    requires TotalFileName(localFolder, a) == TotalFileName(localFolder, b)
    ensures a == b
  {
    TotalFileNameRoundTrip(localFolder, a);
    TotalFileNameRoundTrip(localFolder, b);
  }

  lemma FormatIntHasNoSlash(x: int, width: nat)
    ensures NoSlash(FormatInt(x, width)) && FormatInt(x, width) != []
  {
    var ds := Decimal(if x < 0 then -x else x);
    var z := Zeros(if |ds| < width then width - |ds| else 0);
    var sign: string := if x < 0 then "-" else "";
    assert NoSlash(ds) && NoSlash(z) && NoSlash(sign);
    NoSlashConcat(sign, z);
    NoSlashConcat(sign + z, ds);
  }

  lemma TimestampHasNoSlash(t: DateTime)
    ensures NoSlash(Timestamp(t))
  {
    AfterYearHasNoSlash(t);
    FormatIntHasNoSlash(t.year, 4);
    NoSlashConcat(FormatInt(t.year, 4), AfterYear(t));
  }

  lemma AfterYearHasNoSlash(t: DateTime)
    ensures NoSlash(AfterYear(t))
  {
    AfterYearChars(t);
  }

  /** The name written after the folder is a single path segment. */
  lemma ArchiveNameIsSegment(t: DateTime)
    ensures IsSegment(ArchiveName(t))
  {
    TimestampHasNoSlash(t);
    assert NoSlash(FilePrefix) && NoSlash(ArchiveExtension);
    NoSlashConcat(FilePrefix, Timestamp(t));
    NoSlashConcat(FilePrefix + Timestamp(t), ArchiveExtension);
  }

  /** The archive file is named "backup_<time stamp>.zip" inside the local
      folder only when that folder is empty or ends in a slash; otherwise the
      name is glued to the folder's own last element and the file lands
      beside the folder. */
  lemma ArchiveBaseName(localFolder: string, t: DateTime)
    ensures localFolder == [] || localFolder[|localFolder| - 1] == '/' ==>
      Base(TotalFileName(localFolder, t)) == ArchiveName(t)
    ensures localFolder != [] && localFolder[|localFolder| - 1] != '/' ==>
      Base(TotalFileName(localFolder, t)) == Base(localFolder) + ArchiveName(t)
  {
    ArchiveNameIsSegment(t);
    BaseOfAppended(localFolder, ArchiveName(t));
  }
}
