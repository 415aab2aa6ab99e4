/**
 * The storage manager: photo and date-directory classifiers, disk statistics,
 * the incremental backup of the photo tree and the space-driven cleanup of old
 * date directories.
 *
 * The photo tree is modelled two levels deep: the photo root holds
 * directories (named by date) and each directory holds files, each with its
 * modification time and size. A backup tree holds copies keyed by (directory,
 * file name) and the set of directories that exist in it. Copies preserve
 * modification time and size; deleting a directory frees exactly the bytes
 * of its files. The clock, the cutoff date and every I/O failure are inputs.
 */
module Storage {
  import opened Wrappers
  import opened Strings
  import opened Jobs

  // ---------------------------------------------------------------------------
  // Classifiers
  // ---------------------------------------------------------------------------

  /**
   * `_is_photo_file`: the lower-cased name ends in one of the photo
   * extensions, so it has a '.' four or five characters from its end.
   */
  predicate IsPhotoFile(name: string): (r: bool)
    ensures r ==> (|name| >= 4 && name[|name| - 4] == '.') || (|name| >= 5 && name[|name| - 5] == '.')
  {
    var n := Lower(name);
    EndsWith(n, ".jpg") || EndsWith(n, ".jpeg") || EndsWith(n, ".png") || EndsWith(n, ".bmp")
  }

  /** A name without upper-case ASCII letters is its own lower-case form. */
  lemma LowerOfLower(s: string)
    requires forall i :: 0 <= i < |s| ==> !('A' <= s[i] <= 'Z')
    ensures Lower(s) == s
  {
  }

  /** No upper-case ASCII letter occurs in `s`. */
  predicate NoUpper(s: string)
  {
    forall i :: 0 <= i < |s| ==> !('A' <= s[i] <= 'Z')
  }

  /** A name made of `base` and an extension, both free of upper-case letters, is a photo when the extension is. */
  lemma PhotoName(base: string, ext: string)
    requires ext == ".jpg" || ext == ".jpeg" || ext == ".png" || ext == ".bmp"
    requires NoUpper(base)
    ensures IsPhotoFile(base + ext)
  {
    LowerOfLower(base + ext);
    assert (base + ext)[|base + ext| - |ext|..] == ext;
  }

  /** Lower-casing works character by character, so it distributes over concatenation. */
  lemma LowerConcat(a: string, b: string)
    ensures Lower(a + b) == Lower(a) + Lower(b)
  {
    assert forall i :: 0 <= i < |a + b| ==> Lower(a + b)[i] == (Lower(a) + Lower(b))[i];
  }

  lemma LowerJpg()
    ensures Lower(".JPG") == ".jpg"
  {
    var u := ".JPG";
    assert LowerChar('J') == 'j' && LowerChar('P') == 'p' && LowerChar('G') == 'g';
    assert Lower(u)[0] == '.' && Lower(u)[1] == 'j' && Lower(u)[2] == 'p' && Lower(u)[3] == 'g';
  }

  /** Each photo extension is recognised, whatever lower-case name precedes it. */
  lemma PhotoExtensions(base: string)
    requires NoUpper(base)
    ensures IsPhotoFile(base + ".jpg") && IsPhotoFile(base + ".jpeg")
    ensures IsPhotoFile(base + ".png") && IsPhotoFile(base + ".bmp")
  {
    PhotoName(base, ".jpg");
    PhotoName(base, ".jpeg");
    PhotoName(base, ".png");
    PhotoName(base, ".bmp");
  }

  /** The extensions are matched regardless of case. */
  lemma UpperCaseExtension(base: string)
    requires NoUpper(base)
    ensures IsPhotoFile(base + ".JPG")
  {
    LowerConcat(base, ".JPG");
    LowerOfLower(base);
    LowerJpg();
    PhotoName(base, ".jpg");
  }

  /** A suffix test fails when one position differs. */
  lemma DiffersAt(s: string, suffix: string, i: int)
    requires 0 <= i < |suffix| <= |s| && s[|s| - |suffix| + i] != suffix[i]
    ensures !EndsWith(s, suffix)
  {
    assert s[|s| - |suffix|..][i] != suffix[i];
  }

  /** A name ending in `.txt` is not a photo. */
  lemma TextFileIsNotPhoto(base: string)
    requires NoUpper(base)
    ensures !IsPhotoFile(base + ".txt")
  {
    var ext := ".txt";
    var txt := base + ext;
    var n := |txt|;
    LowerOfLower(base);
    LowerOfLower(ext);
    LowerConcat(base, ext);
    assert txt[n - 3] == 't' && txt[n - 1] == 't';
    DiffersAt(txt, ".jpg", 1);
    DiffersAt(txt, ".png", 1);
    DiffersAt(txt, ".bmp", 1);
    if n >= 5 {
      DiffersAt(txt, ".jpeg", 4);
    }
  }

  /** A name with no dot at all is not a photo. */
  lemma NameWithoutDotIsNotPhoto(base: string)
    requires NoUpper(base) && '.' !in base
    ensures !IsPhotoFile(base)
  {
    LowerOfLower(base);
    assert Lower(base) == base;
    if |base| >= 4 {
      assert base[|base| - 4] in base;
      DiffersAt(base, ".jpg", 0);
      DiffersAt(base, ".png", 0);
      DiffersAt(base, ".bmp", 0);
      if |base| >= 5 {
        assert base[|base| - 5] in base;
        DiffersAt(base, ".jpeg", 0);
      }
    }
  }

  predicate IsLeap(year: int)
  {
    (year % 4 == 0 && year % 100 != 0) || year % 400 == 0
  }

  function DaysInMonth(year: int, month: int): (days: int)
    requires 1 <= month <= 12
    ensures 28 <= days <= 31
  {
    if month == 2 then (if IsLeap(year) then 29 else 28)
    else if month == 4 || month == 6 || month == 9 || month == 11 then 30
    else 31
  }

  /** What `datetime(year, month, day)` accepts. */
  predicate ValidDate(year: int, month: int, day: int)
  {
    1 <= year <= 9999 && 1 <= month <= 12 && 1 <= day <= DaysInMonth(year, month)
  }

  /**
   * `_is_date_dir`: the name has 10 characters, splits on '-' into exactly
   * three parts, each part is accepted by `int(...)`, and the three numbers
   * form a valid calendar date.
   */
  predicate IsDateDir(name: string)
  {
    var parts := Split(name, '-');
    && |name| == 10
    && |parts| == 3
    && ParseInt(parts[0]).Some? && ParseInt(parts[1]).Some? && ParseInt(parts[2]).Some?
    && ValidDate(ParseInt(parts[0]).value, ParseInt(parts[1]).value, ParseInt(parts[2]).value)
  }

  /** The parts of a well-formed `YYYY-MM-DD` name. */
  lemma SplitDate(y: string, m: string, d: string)
    requires Free(y, '-') && Free(m, '-') && Free(d, '-')
    ensures Split(y + "-" + m + "-" + d, '-') == [y, m, d]
  {
    SplitJoin([y, m, d], '-');
    assert [y, m, d][1..] == [m, d];
    assert [m, d][1..] == [d];
    assert Join([m, d], '-') == m + "-" + d;
    assert Join([y, m, d], '-') == y + "-" + (m + "-" + d);
    assert y + "-" + (m + "-" + d) == y + "-" + m + "-" + d;
  }

  /** `int(...)` of a string of ASCII digits. */
  lemma ParseDigits(s: string)
    requires |s| > 0 && forall i :: 0 <= i < |s| ==> IsDigit(s[i])
    ensures ParseInt(s) == Some(DigitsValue(s))
  {
    assert Strip(s) == s;
    DigitsAreGroups(s);
  }

  lemma {:induction false} DigitsAreGroups(s: string)
    requires |s| > 0 && forall i :: 0 <= i < |s| ==> IsDigit(s[i])
    ensures DigitGroups(s)
    decreases |s|
  {
    if |s| > 1 {
      DigitsAreGroups(s[1..]);
    }
  }

  function DigitValue(c: char): int
  {
    c as int - '0' as int
  }

  lemma TwoDigits(s: string)
    requires |s| == 2 && IsDigit(s[0]) && IsDigit(s[1])
    ensures DigitsValue(s) == 10 * DigitValue(s[0]) + DigitValue(s[1])
  {
    var h := s[..1];
    assert h[..0] == [];
    assert DigitsValue(h) == DigitValue(s[0]);
    assert s[..|s| - 1] == h;
  }

  lemma FourDigits(s: string)
    requires |s| == 4 && forall i :: 0 <= i < 4 ==> IsDigit(s[i])
    ensures DigitsValue(s) == 1000 * DigitValue(s[0]) + 100 * DigitValue(s[1]) + 10 * DigitValue(s[2]) + DigitValue(s[3])
  {
    var two := s[..2];
    var three := s[..3];
    TwoDigits(two);
    assert three[..2] == two;
    assert DigitsValue(three) == DigitsValue(two) * 10 + DigitValue(s[2]);
    assert s[..3] == three;
  }

  /** A name `YYYY-MM-DD` written in ASCII digits is a date directory exactly when it is a valid date. */
  lemma DigitDate(y: string, m: string, d: string)
    requires |y| == 4 && |m| == 2 && |d| == 2
    requires forall i :: 0 <= i < 4 ==> IsDigit(y[i])
    requires forall i :: 0 <= i < 2 ==> IsDigit(m[i]) && IsDigit(d[i])
    ensures IsDateDir(y + "-" + m + "-" + d) <==> ValidDate(DigitsValue(y), DigitsValue(m), DigitsValue(d))
  {
    SplitDate(y, m, d);
    ParseDigits(y);
    ParseDigits(m);
    ParseDigits(d);
  }

  /** A name `YYYY-MM-DD` spelt out digit by digit, with the date its digits denote. */
  lemma DateDirOfDigits(y0: char, y1: char, y2: char, y3: char, m0: char, m1: char, d0: char, d1: char)
    requires IsDigit(y0) && IsDigit(y1) && IsDigit(y2) && IsDigit(y3)
    requires IsDigit(m0) && IsDigit(m1) && IsDigit(d0) && IsDigit(d1)
    ensures IsDateDir([y0, y1, y2, y3, '-', m0, m1, '-', d0, d1]) <==>
      ValidDate(1000 * DigitValue(y0) + 100 * DigitValue(y1) + 10 * DigitValue(y2) + DigitValue(y3),
                10 * DigitValue(m0) + DigitValue(m1), 10 * DigitValue(d0) + DigitValue(d1))
  {
    var y, m, d := [y0, y1, y2, y3], [m0, m1], [d0, d1];
    DateName(y, m, d);
    DigitDate(y, m, d);
    FourDigits(y);
    TwoDigits(m);
    TwoDigits(d);
  }

  /** The refusing half of `DateDirOfDigits`, stated on its own. */
  lemma NotDateDirOfDigits(y0: char, y1: char, y2: char, y3: char, m0: char, m1: char, d0: char, d1: char)
    requires IsDigit(y0) && IsDigit(y1) && IsDigit(y2) && IsDigit(y3)
    requires IsDigit(m0) && IsDigit(m1) && IsDigit(d0) && IsDigit(d1)
    requires !ValidDate(1000 * DigitValue(y0) + 100 * DigitValue(y1) + 10 * DigitValue(y2) + DigitValue(y3),
                        10 * DigitValue(m0) + DigitValue(m1), 10 * DigitValue(d0) + DigitValue(d1))
    ensures !IsDateDir([y0, y1, y2, y3, '-', m0, m1, '-', d0, d1])
  {
    DateDirOfDigits(y0, y1, y2, y3, m0, m1, d0, d1);
  }

  lemma DateName(y: string, m: string, d: string)
    requires |y| == 4 && |m| == 2 && |d| == 2
    ensures y + "-" + m + "-" + d == [y[0], y[1], y[2], y[3], '-', m[0], m[1], '-', d[0], d[1]]
  {
  }

  /** 2024 is a leap year, so its 29 February is a date directory. */
  lemma LeapDayIsDateDir()
    ensures IsDateDir("2024-02-29")
  {
    DateDirOfDigits('2', '0', '2', '4', '0', '2', '2', '9');
    assert IsLeap(2024);
  }

  /** 2025 is not a leap year: its "29 February" is rejected, like any date `datetime` refuses. */
  lemma LeapDayOfCommonYearIsNotDateDir()
    ensures !IsDateDir("2025-02-29")
  {
    assert !IsLeap(2025);
    NotDateDirOfDigits('2', '0', '2', '5', '0', '2', '2', '9');
  }

  lemma InvalidDatesAreNotDateDirs()
    ensures !IsDateDir("2025-13-01") && !IsDateDir("2025-01-32")
  {
    DateDirOfDigits('2', '0', '2', '5', '1', '3', '0', '1');
    DateDirOfDigits('2', '0', '2', '5', '0', '1', '3', '2');
  }

  lemma DateDirExample()
    ensures IsDateDir("2025-01-01")
  {
    DateDirOfDigits('2', '0', '2', '5', '0', '1', '0', '1');
  }

  /** `int(...)` refuses a word that starts and ends with a lower-case letter. */
  lemma WordIsNotInt(s: string)
    requires |s| > 0 && 'a' <= s[0] <= 'z' && 'a' <= s[|s| - 1] <= 'z'
    ensures ParseInt(s).None?
  {
    assert TrimStart(s) == s;
    assert TrimEnd(s) == s;
  }

  lemma MalformedNamesAreNotDateDirs()
    ensures !IsDateDir("2025-1-1") && !IsDateDir("not-a-date")
  {
    assert |"2025-1-1"| == 8;
    var a, b, c := "not", "a", "date";
    SplitDate(a, b, c);
    assert a + "-" + b + "-" + c == "not-a-date";
    WordIsNotInt(a);
  }

  // ---------------------------------------------------------------------------
  // Trees of files
  // ---------------------------------------------------------------------------

  datatype FileInfo = FileInfo(mtime: int, size: nat)

  /** A file one level below a root: its directory, its name and its metadata. */
  datatype PhotoFile = PhotoFile(dir: string, name: string, info: FileInfo)

  /** Where a file sits relative to its root: (directory, name). */
  type Key = (string, string)

  function KeyOf(f: PhotoFile): Key
  {
    (f.dir, f.name)
  }

  /** No two files sit at the same place, as in any directory walk. */
  predicate DistinctKeys(fs: seq<PhotoFile>)
  {
    forall i, j :: 0 <= i < j < |fs| ==> KeyOf(fs[i]) != KeyOf(fs[j])
  }

  /** A backup tree: the directories that exist in it and the files it holds. */
  datatype Mirror = Mirror(dirs: set<string>, files: map<Key, FileInfo>)

  /** The photo files among `fs`, in their order. */
  function Photos(fs: seq<PhotoFile>): (ps: seq<PhotoFile>)
    ensures |ps| <= |fs|
  {
    if fs == [] then []
    else
      var last := fs[|fs| - 1];
      Photos(fs[..|fs| - 1]) + (if IsPhotoFile(last.name) then [last] else [])
  }

  /** The total size of `fs`. */
  function Bytes(fs: seq<PhotoFile>): nat
  {
    if fs == [] then 0 else Bytes(fs[..|fs| - 1]) + fs[|fs| - 1].info.size
  }

  lemma BytesAppend(fs: seq<PhotoFile>, f: PhotoFile)
    ensures Bytes(fs + [f]) == Bytes(fs) + f.info.size
  {
    assert (fs + [f])[..|fs|] == fs;
  }

  lemma {:induction false} PhotosMember(fs: seq<PhotoFile>, f: PhotoFile)
    ensures f in Photos(fs) <==> f in fs && IsPhotoFile(f.name)
    decreases |fs|
  {
    if fs != [] {
      PhotosMember(fs[..|fs| - 1], f);
      assert fs == fs[..|fs| - 1] + [fs[|fs| - 1]];
    }
  }

  // ---------------------------------------------------------------------------
  // Directory and disk statistics
  // ---------------------------------------------------------------------------

  /** The names of the entries of a listing that are directories named by a date, in listing order. */
  function DateNames(entries: seq<(string, bool)>): (names: seq<string>)
    ensures |names| <= |entries|
  {
    if entries == [] then []
    else
      var e := entries[|entries| - 1];
      DateNames(entries[..|entries| - 1]) + (if e.1 && IsDateDir(e.0) then [e.0] else [])
  }

  lemma {:induction false} DateNamesMember(entries: seq<(string, bool)>, d: string)
    ensures d in DateNames(entries) <==> (d, true) in entries && IsDateDir(d)
    decreases |entries|
  {
    if entries != [] {
      DateNamesMember(entries[..|entries| - 1], d);
      assert entries == entries[..|entries| - 1] + [entries[|entries| - 1]];
    }
  }

  /** The date directories of a listing, as the loops of the storage manager collect them. */
  method CollectDateNames(entries: seq<(string, bool)>) returns (names: seq<string>)
    ensures names == DateNames(entries)
  {
    names := [];
    var i := 0;
    while i < |entries|
      invariant 0 <= i <= |entries|
      invariant names == DateNames(entries[..i])
    {
      if entries[i].1 && IsDateDir(entries[i].0) {
        names := names + [entries[i].0];
      }
      i := i + 1;
      assert entries[..i][..i - 1] == entries[..i - 1];
    }
    assert entries[..i] == entries;
  }

  /** The statistics of one directory tree. */
  datatype DirStats = DirStats(count: nat, size: nat, dates: seq<string>)

  /**
   * `_get_directory_stats` for a tree whose walk yields `walk` and whose top
   * listing is `listing` (`None` where listing or measuring raises): the
   * number and total size of the photo files, and the date directories in
   * ascending order; zeros and no dates after an error.
   */
  function DirStatsOf(walk: seq<PhotoFile>, listing: Option<seq<(string, bool)>>): (st: DirStats)
    ensures listing.None? ==> st == DirStats(0, 0, [])
    ensures listing.Some? ==> st.count == |Photos(walk)| && st.size == Bytes(Photos(walk))
    ensures listing.Some? ==> SortedAsc(st.dates) && multiset(st.dates) == multiset(DateNames(listing.value))
  {
    if listing.None? then DirStats(0, 0, [])
    else
      SortAscSorted(DateNames(listing.value));
      DirStats(|Photos(walk)|, Bytes(Photos(walk)), SortAsc(DateNames(listing.value)))
  }

  /** The dates reported for a tree are exactly its date directories. */
  lemma DirStatsDates(walk: seq<PhotoFile>, listing: seq<(string, bool)>, d: string)
    ensures d in DirStatsOf(walk, Some(listing)).dates <==> (d, true) in listing && IsDateDir(d)
  {
    var st := DirStatsOf(walk, Some(listing));
    assert d in st.dates <==> d in multiset(st.dates);
    DateNamesMember(listing, d);
  }

  /** The walk loop of `_get_directory_stats`: number and total size of the photo files. */
  method CountPhotos(walk: seq<PhotoFile>) returns (count: nat, size: nat)
    ensures count == |Photos(walk)| && size == Bytes(Photos(walk))
  {
    count, size := 0, 0;
    var i := 0;
    while i < |walk|
      invariant 0 <= i <= |walk|
      invariant count == |Photos(walk[..i])| && size == Bytes(Photos(walk[..i]))
    {
      var prefix := walk[..i + 1];
      assert prefix[..i] == walk[..i] && prefix[i] == walk[i];
      if IsPhotoFile(walk[i].name) {
        count := count + 1;
        size := size + walk[i].info.size;
        assert Photos(prefix) == Photos(walk[..i]) + [walk[i]];
        BytesAppend(Photos(walk[..i]), walk[i]);
      } else {
        assert Photos(prefix) == Photos(walk[..i]);
      }
      i := i + 1;
    }
    assert walk[..i] == walk;
  }

  method DirectoryStats(walk: seq<PhotoFile>, listing: Option<seq<(string, bool)>>) returns (st: DirStats)
    ensures st == DirStatsOf(walk, listing)
  {
    if listing.None? {
      return DirStats(0, 0, []);
    }
    var count, size := CountPhotos(walk);
    var dates := CollectDateNames(listing.value);
    st := DirStats(count, size, SortAsc(dates));
  }

  // ---------------------------------------------------------------------------
  // External storage
  // ---------------------------------------------------------------------------

  /**
   * An entry below a user directory of a mount base; `isMount` as
   * `os.path.ismount` says, and `statFails` when `statvfs` raises on it.
   */
  datatype MountPoint = MountPoint(name: string, isMount: bool, statFails: bool, total: nat, free: nat)

  /** An entry of a mount base; `mounts` is `None` where listing it raises. */
  datatype UserDir = UserDir(name: string, isDir: bool, mounts: Option<seq<MountPoint>>)

  /** A mount base (`/media` or `/mnt`): missing, unreadable, or its listing. */
  datatype MountBase = Missing | Unreadable | Listed(users: seq<UserDir>)

  /**
   * What `_get_external_storage_stats` reports: a drive (or none, with zero
   * sizes), or only `available: False` after an error.
   */
  datatype External = External(available: bool, path: Option<string>, total: nat, free: nat) | ScanFailed

  const NO_EXTERNAL := External(false, None, 0, 0)

  function JoinPath(a: string, b: string): string
  {
    a + "/" + b
  }

  /** The report for mount point `m` under `prefix`: its sizes, or the failed scan when `statvfs` raises. */
  function MountReport(prefix: string, m: MountPoint): External
  {
    if m.statFails then ScanFailed else External(true, Some(JoinPath(prefix, m.name)), m.total, m.free)
  }

  /** The report for the first mount point among `ms`, if any. */
  function FirstMount(prefix: string, ms: seq<MountPoint>): (r: Option<External>)
    ensures r.Some? <==> exists i :: 0 <= i < |ms| && ms[i].isMount
    ensures r.Some? ==> exists i :: (0 <= i < |ms| && ms[i].isMount && (forall j :: 0 <= j < i ==> !ms[j].isMount)
      && r.value == MountReport(prefix, ms[i]))
  {
    if ms == [] then None
    else if ms[0].isMount then Some(MountReport(prefix, ms[0]))
    else
      assert forall i :: 0 < i < |ms| ==> ms[i] == ms[1..][i - 1];
      FirstMount(prefix, ms[1..])
  }

  /** The mount point reported is the first one in listing order. */
  lemma {:induction false} FirstMountIsFirst(prefix: string, ms: seq<MountPoint>, i: int)
    requires 0 <= i < |ms| && ms[i].isMount
    requires forall j :: 0 <= j < i ==> !ms[j].isMount
    ensures FirstMount(prefix, ms) == Some(MountReport(prefix, ms[i]))
    decreases i
  {
    if i > 0 {
      FirstMountIsFirst(prefix, ms[1..], i - 1);
    }
  }

  /** Scanning the user directories of one base: the report for the first mount point found, or a failed scan. */
  function ScanUsers(base: string, us: seq<UserDir>): (r: Option<External>)
    ensures r.Some? && r.value.External? ==> r.value.available && r.value.path.Some?
  {
    if us == [] then None
    else
      var u := us[0];
      if !u.isDir then ScanUsers(base, us[1..])
      else if u.mounts.None? then Some(ScanFailed)
      else
        var found := FirstMount(JoinPath(base, u.name), u.mounts.value);
        if found.Some? then found else ScanUsers(base, us[1..])
  }

  /** An entry the scan passes over: not a directory, or a listable directory without a mount point. */
  predicate Quiet(u: UserDir)
  {
    u.isDir ==> u.mounts.Some? && forall j :: 0 <= j < |u.mounts.value| ==> !u.mounts.value[j].isMount
  }

  /**
   * The scan stops at the first entry that is not quiet: a directory it
   * cannot list fails the scan, otherwise its first mount point is reported.
   */
  lemma {:induction false} ScanUsersIsFirst(base: string, us: seq<UserDir>, i: int)
    requires 0 <= i < |us| && !Quiet(us[i])
    requires forall j :: 0 <= j < i ==> Quiet(us[j])
    ensures us[i].mounts.None? ==> ScanUsers(base, us) == Some(ScanFailed)
    ensures us[i].mounts.Some? ==> ScanUsers(base, us) == FirstMount(JoinPath(base, us[i].name), us[i].mounts.value)
    ensures ScanUsers(base, us).Some?
    decreases i
  {
    if i > 0 {
      assert Quiet(us[0]);
      if us[0].isDir {
        assert FirstMount(JoinPath(base, us[0].name), us[0].mounts.value).None?;
      }
      assert forall j :: 0 <= j < i - 1 ==> us[1..][j] == us[j + 1];
      ScanUsersIsFirst(base, us[1..], i - 1);
    }
  }

  /**
   * Scanning one mount base: a missing base is skipped, and one whose listing
   * raises ends the whole scan with only `available: False`.
   */
  function ScanBase(base: string, b: MountBase): (r: Option<External>)
    ensures r.Some? && r.value.External? ==> r.value.available && r.value.path.Some?
    ensures b.Missing? ==> r.None?
    ensures b.Unreadable? ==> r == Some(ScanFailed)
  {
    match b
    case Missing => None
    case Unreadable => Some(ScanFailed)
    case Listed(us) => ScanUsers(base, us)
  }

  /** `_get_external_storage_stats`: `/media` is searched before `/mnt`. */
  function ExternalStats(media: MountBase, mnt: MountBase): (e: External)
    ensures e.External? ==> (e.available <==> e.path.Some?)
    ensures e.External? && !e.available ==> e == NO_EXTERNAL
  {
    var m := ScanBase("/media", media);
    if m.Some? then m.value
    else
      var n := ScanBase("/mnt", mnt);
      if n.Some? then n.value else NO_EXTERNAL
  }

  /** A drive mounted under `/media` is reported whatever `/mnt` holds. */
  lemma MediaSearchedFirst(media: MountBase, mnt: MountBase, mnt2: MountBase)
    requires ScanBase("/media", media).Some?
    ensures ExternalStats(media, mnt) == ExternalStats(media, mnt2)
  {
  }

  /** A scan that meets only quiet entries reports no drive. */
  lemma {:induction false} NoMountNoDrive(base: string, us: seq<UserDir>)
    requires forall i :: 0 <= i < |us| ==> Quiet(us[i])
    ensures ScanUsers(base, us) == None
    decreases |us|
  {
    if us != [] {
      assert Quiet(us[0]);
      if us[0].isDir {
        assert FirstMount(JoinPath(base, us[0].name), us[0].mounts.value).None?;
      }
      NoMountNoDrive(base, us[1..]);
    }
  }

  /** A base that is missing, or listed with only quiet entries. */
  predicate QuietBase(b: MountBase)
  {
    b.Missing? || (b.Listed? && forall i :: 0 <= i < |b.users| ==> Quiet(b.users[i]))
  }

  /** A quiet `/media` is as good as absent: the answer depends on `/mnt` alone. */
  lemma QuietMediaDefersToMnt(media: MountBase, mnt: MountBase)
    requires QuietBase(media)
    ensures ExternalStats(media, mnt) == ExternalStats(Missing, mnt)
  {
    if media.Listed? {
      NoMountNoDrive("/media", media.users);
    }
  }

  /** With both bases quiet the report is the default: no drive, no path, zero sizes. */
  lemma NoExternalWhenQuiet(media: MountBase, mnt: MountBase)
    requires QuietBase(media) && QuietBase(mnt)
    ensures ExternalStats(media, mnt) == NO_EXTERNAL
  {
    QuietMediaDefersToMnt(media, mnt);
    if mnt.Listed? {
      NoMountNoDrive("/mnt", mnt.users);
    }
  }

  /**
   * A base whose listing raises fails the whole report: an unreadable
   * `/media` hides whatever `/mnt` holds, and an unreadable `/mnt` fails the
   * report whenever `/media` has nothing to offer.
   */
  lemma UnreadableBaseFailsScan(media: MountBase, mnt: MountBase)
    ensures ExternalStats(Unreadable, mnt) == ScanFailed
    ensures QuietBase(media) ==> ExternalStats(media, Unreadable) == ScanFailed
  {
    if QuietBase(media) {
      QuietMediaDefersToMnt(media, Unreadable);
    }
  }

  /** A mount point whose `statvfs` raises turns the whole report into the failed scan. */
  lemma StatFailureFailsScan(media: MountBase, mnt: MountBase, i: int, k: int)
    requires media.Listed? && 0 <= i < |media.users| && !Quiet(media.users[i])
    requires forall j :: 0 <= j < i ==> Quiet(media.users[j])
    requires media.users[i].mounts.Some? && 0 <= k < |media.users[i].mounts.value|
    requires media.users[i].mounts.value[k].isMount && media.users[i].mounts.value[k].statFails
    requires forall j :: 0 <= j < k ==> !media.users[i].mounts.value[j].isMount
    ensures ExternalStats(media, mnt) == ScanFailed
  {
    var u := media.users[i];
    ScanUsersIsFirst("/media", media.users, i);
    FirstMountIsFirst(JoinPath("/media", u.name), u.mounts.value, k);
  }

  /** A drive found by a scan is a mount point of a user directory of that base. */
  lemma {:induction false} ScanFindsMount(base: string, us: seq<UserDir>)
    requires ScanUsers(base, us).Some? && ScanUsers(base, us).value.External?
    ensures exists i, j :: (0 <= i < |us| && us[i].isDir && us[i].mounts.Some? && 0 <= j < |us[i].mounts.value|
      && us[i].mounts.value[j].isMount && !us[i].mounts.value[j].statFails
      && ScanUsers(base, us).value.path == Some(JoinPath(JoinPath(base, us[i].name), us[i].mounts.value[j].name)))
    decreases |us|
  {
    var u := us[0];
    if u.isDir && FirstMount(JoinPath(base, u.name), u.mounts.value).Some? {
      assert us[0] == u;
    } else {
      ScanFindsMount(base, us[1..]);
      var i, j :| 0 <= i < |us[1..]| && us[1..][i].isDir && us[1..][i].mounts.Some? && 0 <= j < |us[1..][i].mounts.value|
        && us[1..][i].mounts.value[j].isMount && !us[1..][i].mounts.value[j].statFails
        && ScanUsers(base, us[1..]).value.path == Some(JoinPath(JoinPath(base, us[1..][i].name), us[1..][i].mounts.value[j].name));
      assert us[i + 1] == us[1..][i];
    }
  }

  /** The statistics `get_storage_stats` reports, or the zeroed report after an error. */
  datatype StorageStats =
    | StorageStats(totalSpace: int, usedSpace: int, freeSpace: int, photos: DirStats, backups: DirStats, external: External)
    | ZeroedStats

  /** The block counts and block size `statvfs` reports for the photo root. */
  datatype DiskUsage = DiskUsage(blocks: nat, freeBlocks: nat, blockSize: nat)

  /**
   * `get_storage_stats`: total and free space from the block counts, used as
   * their difference, and the statistics of the photo and backup trees and
   * of the external drive; the zeroed report when the disk cannot be queried.
   */
  method GetStorageStats(usage: Option<DiskUsage>,
                         photosWalk: seq<PhotoFile>, photosListing: Option<seq<(string, bool)>>,
                         backupWalk: seq<PhotoFile>, backupListing: Option<seq<(string, bool)>>,
                         media: MountBase, mnt: MountBase)
      returns (st: StorageStats)
    ensures usage.None? <==> st.ZeroedStats?
    ensures usage.Some? ==> st.totalSpace == usage.value.blocks * usage.value.blockSize
    ensures usage.Some? ==> st.freeSpace == usage.value.freeBlocks * usage.value.blockSize
    ensures usage.Some? ==> st.usedSpace == st.totalSpace - st.freeSpace
    ensures usage.Some? ==> st.photos == DirStatsOf(photosWalk, photosListing)
    ensures usage.Some? ==> st.backups == DirStatsOf(backupWalk, backupListing)
    ensures usage.Some? ==> st.external == ExternalStats(media, mnt)
  {
    if usage.None? {
      return ZeroedStats;
    }
    var total := usage.value.blocks * usage.value.blockSize;
    var free := usage.value.freeBlocks * usage.value.blockSize;
    var used := total - free;
    var photos := DirectoryStats(photosWalk, photosListing);
    var backups := DirectoryStats(backupWalk, backupListing);
    st := StorageStats(total, used, free, photos, backups, ExternalStats(media, mnt));
  }

  // ---------------------------------------------------------------------------
  // Incremental backup
  // ---------------------------------------------------------------------------

  /** The mirror holds a copy of `f` no older than `f` and of the same size: the backup skips `f`. */
  predicate UpToDate(files: map<Key, FileInfo>, f: PhotoFile)
  {
    KeyOf(f) in files && files[KeyOf(f)].mtime >= f.info.mtime && files[KeyOf(f)].size == f.info.size
  }

  /** `a` and `b` agree at `k`: both lack it, or both hold the same file there. */
  predicate SameAt(a: map<Key, FileInfo>, b: map<Key, FileInfo>, k: Key)
  {
    (k in a <==> k in b) && (k in a ==> a[k] == b[k])
  }

  function KeysOf(fs: seq<PhotoFile>): set<Key>
  {
    set i | 0 <= i < |fs| :: KeyOf(fs[i])
  }

  function DirsOf(fs: seq<PhotoFile>): set<string>
  {
    set i | 0 <= i < |fs| :: fs[i].dir
  }

  /** The counters of `backup_photos`. */
  datatype Tally = Tally(backedUp: nat, failed: nat, totalSize: nat)

  /**
   * One photo of `backup_photos`: its directory is created in the mirror;
   * the photo is skipped when its copy is up to date, otherwise copied
   * (counted, its size added), unless the copy raises (`fails`), which is
   * counted as a failure and leaves the mirror's file as it was.
   */
  function BackupStep(t: Tally, m: Mirror, f: PhotoFile, fails: set<Key>): (r: (Tally, Mirror))
    ensures r.1.dirs == m.dirs + {f.dir}
    ensures KeyOf(f) !in fails ==> UpToDate(r.1.files, f)
    ensures forall k :: k != KeyOf(f) ==> SameAt(m.files, r.1.files, k)
    ensures UpToDate(m.files, f) ==> r.0 == t && r.1.files == m.files
    ensures t.backedUp <= r.0.backedUp && t.failed <= r.0.failed
    ensures r.0.backedUp + r.0.failed <= t.backedUp + t.failed + 1
  {
    var m1 := Mirror(m.dirs + {f.dir}, StepFiles(m.files, f, fails));
    if UpToDate(m.files, f) then (t, m1)
    else if KeyOf(f) in fails then (t.(failed := t.failed + 1), m1)
    else (Tally(t.backedUp + 1, t.failed, t.totalSize + f.info.size), m1)
  }

  /** The mirror's files after one photo: unchanged when its copy is up to date or raises, else holding the photo. */
  function StepFiles(files: map<Key, FileInfo>, f: PhotoFile, fails: set<Key>): map<Key, FileInfo>
  {
    if UpToDate(files, f) || KeyOf(f) in fails then files else files[KeyOf(f) := f.info]
  }

  lemma StepFilesAt(a: map<Key, FileInfo>, b: map<Key, FileInfo>, f: PhotoFile, fails: set<Key>)
    requires SameAt(a, b, KeyOf(f))
    ensures SameAt(StepFiles(a, f, fails), StepFiles(b, f, fails), KeyOf(f))
  {
  }

  /** The counters and the mirror after backing up `photos` in order. */
  function BackupRun(photos: seq<PhotoFile>, m: Mirror, fails: set<Key>): (Tally, Mirror)
    decreases |photos|
  {
    if photos == [] then (Tally(0, 0, 0), m)
    else
      var before := BackupRun(photos[..|photos| - 1], m, fails);
      BackupStep(before.0, before.1, photos[|photos| - 1], fails)
  }

  /** The photos whose copy is stale at the start and whose copy raises (`failing`) or succeeds (`!failing`). */
  function Stale(photos: seq<PhotoFile>, files: map<Key, FileInfo>, fails: set<Key>, failing: bool): (r: seq<PhotoFile>)
    ensures |r| <= |photos|
  {
    if photos == [] then []
    else
      var f := photos[|photos| - 1];
      Stale(photos[..|photos| - 1], files, fails, failing)
        + (if !UpToDate(files, f) && (KeyOf(f) in fails <==> failing) then [f] else [])
  }

  lemma DistinctKeysPrefix(photos: seq<PhotoFile>, n: int)
    requires DistinctKeys(photos) && 0 <= n <= |photos|
    ensures DistinctKeys(photos[..n])
    ensures n < |photos| ==> KeyOf(photos[n]) !in KeysOf(photos[..n])
  {
  }

  lemma {:induction false} BackupRunDirs(photos: seq<PhotoFile>, m: Mirror, fails: set<Key>)
    ensures BackupRun(photos, m, fails).1.dirs == m.dirs + DirsOf(photos)
    decreases |photos|
  {
    if photos != [] {
      var n := |photos| - 1;
      BackupRunDirs(photos[..n], m, fails);
      assert DirsOf(photos) == DirsOf(photos[..n]) + {photos[n].dir} by {
        assert forall i :: 0 <= i < n ==> photos[..n][i] == photos[i];
      }
    }
  }

  /**
   * What a backup run leaves in the mirror's files: at the place of each
   * photo, what backing up that photo alone would leave (the old file when
   * the copy was up to date or raised, the photo otherwise); places no photo
   * sits at are untouched.
   */
  lemma {:induction false} BackupRunMirror(photos: seq<PhotoFile>, m: Mirror, fails: set<Key>)
    requires DistinctKeys(photos)
    ensures forall k :: k !in KeysOf(photos) ==> SameAt(BackupRun(photos, m, fails).1.files, m.files, k)
    ensures forall i :: 0 <= i < |photos| ==>
      SameAt(BackupRun(photos, m, fails).1.files, StepFiles(m.files, photos[i], fails), KeyOf(photos[i]))
    decreases |photos|
  {
    if photos != [] {
      var n := |photos| - 1;
      var init := photos[..n];
      var f := photos[n];
      DistinctKeysPrefix(photos, n);
      BackupRunMirror(init, m, fails);
      var mid := BackupRun(init, m, fails).1;
      var r := BackupRun(photos, m, fails).1;
      assert r.files == StepFiles(mid.files, f, fails);
      StepFilesAt(mid.files, m.files, f, fails);
      assert KeysOf(photos) == KeysOf(init) + {KeyOf(f)} by {
        assert forall i :: 0 <= i < n ==> init[i] == photos[i];
      }
      forall i | 0 <= i < n
        ensures SameAt(r.files, StepFiles(m.files, photos[i], fails), KeyOf(photos[i]))
      {
        assert photos[i] == init[i];
      }
    }
  }

  /** After a backup run, every photo whose copy did not raise has an up-to-date copy. */
  lemma BackupBringsUpToDate(photos: seq<PhotoFile>, m: Mirror, fails: set<Key>, i: int)
    requires DistinctKeys(photos) && 0 <= i < |photos|
    requires KeyOf(photos[i]) !in fails || UpToDate(m.files, photos[i])
    ensures UpToDate(BackupRun(photos, m, fails).1.files, photos[i])
  {
    BackupRunMirror(photos, m, fails);
    assert SameAt(BackupRun(photos, m, fails).1.files, StepFiles(m.files, photos[i], fails), KeyOf(photos[i]));
  }

  /**
   * The counters of a backup run: one copy for each photo that was stale at
   * the start and whose copy succeeded, with their sizes summed, and one
   * failure for each stale photo whose copy raised.
   */
  lemma {:induction false} BackupRunCounts(photos: seq<PhotoFile>, m: Mirror, fails: set<Key>)
    requires DistinctKeys(photos)
    ensures BackupRun(photos, m, fails).0.backedUp == |Stale(photos, m.files, fails, false)|
    ensures BackupRun(photos, m, fails).0.totalSize == Bytes(Stale(photos, m.files, fails, false))
    ensures BackupRun(photos, m, fails).0.failed == |Stale(photos, m.files, fails, true)|
    decreases |photos|
  {
    if photos != [] {
      var n := |photos| - 1;
      var init := photos[..n];
      var f := photos[n];
      DistinctKeysPrefix(photos, n);
      BackupRunCounts(init, m, fails);
      BackupRunMirror(init, m, fails);
      var mid := BackupRun(init, m, fails).1;
      assert SameAt(mid.files, m.files, KeyOf(f));
      assert UpToDate(mid.files, f) <==> UpToDate(m.files, f);
      if !UpToDate(m.files, f) && KeyOf(f) !in fails {
        assert Stale(photos, m.files, fails, false) == Stale(init, m.files, fails, false) + [f];
        BytesAppend(Stale(init, m.files, fails, false), f);
      } else {
        assert Stale(photos, m.files, fails, false) == Stale(init, m.files, fails, false);
      }
    }
  }

  /** A run over photos that are all up to date, in directories that all exist, changes nothing. */
  lemma {:induction false} BackupRunIdle(photos: seq<PhotoFile>, m: Mirror, fails: set<Key>)
    requires forall i :: 0 <= i < |photos| ==> UpToDate(m.files, photos[i]) && photos[i].dir in m.dirs
    ensures BackupRun(photos, m, fails) == (Tally(0, 0, 0), m)
    decreases |photos|
  {
    if photos != [] {
      var n := |photos| - 1;
      assert forall i :: 0 <= i < n ==> photos[..n][i] == photos[i];
      BackupRunIdle(photos[..n], m, fails);
      assert m.dirs + {photos[n].dir} == m.dirs;
    }
  }

  lemma {:induction false} NoStale(photos: seq<PhotoFile>, files: map<Key, FileInfo>, fails: set<Key>, i: int)
    requires |Stale(photos, files, fails, true)| == 0 && 0 <= i < |photos|
    ensures UpToDate(files, photos[i]) || KeyOf(photos[i]) !in fails
    decreases |photos|
  {
    if i < |photos| - 1 {
      NoStale(photos[..|photos| - 1], files, fails, i);
    }
  }

  /**
   * Running the backup again over unchanged photos copies nothing and
   * changes nothing, once a run has finished without a failed copy.
   */
  lemma BackupTwiceCopiesNothing(photos: seq<PhotoFile>, m: Mirror, fails: set<Key>, fails2: set<Key>)
    requires DistinctKeys(photos)
    requires BackupRun(photos, m, fails).0.failed == 0
    ensures var m1 := BackupRun(photos, m, fails).1;
      BackupRun(photos, m1, fails2) == (Tally(0, 0, 0), m1)
  {
    var m1 := BackupRun(photos, m, fails).1;
    BackupRunCounts(photos, m, fails);
    BackupRunDirs(photos, m, fails);
    forall i | 0 <= i < |photos|
      ensures UpToDate(m1.files, photos[i]) && photos[i].dir in m1.dirs
    {
      NoStale(photos, m.files, fails, i);
      BackupBringsUpToDate(photos, m, fails, i);
    }
    BackupRunIdle(photos, m1, fails2);
  }

  /** A backup tree (the local backup directory or one on an external drive), changed in place. */
  class BackupTree {
    var dirs: set<string>
    var files: map<Key, FileInfo>

    constructor (dirs: set<string>, files: map<Key, FileInfo>)
      ensures this.dirs == dirs && this.files == files
    {
      this.dirs := dirs;
      this.files := files;
    }

    function State(): Mirror
      reads this
    {
      Mirror(dirs, files)
    }
  }

  /** What `backup_photos` returns. */
  datatype BackupResult = BackupSuccess(backedUp: nat, failed: nat, totalSize: nat, duration: int) | BackupError(error: string)

  /** The walk of `backup_photos`: the photo files, in walk order. */
  method CollectPhotos(walk: seq<PhotoFile>) returns (photos: seq<PhotoFile>)
    ensures photos == Photos(walk)
  {
    photos := [];
    var i := 0;
    while i < |walk|
      invariant 0 <= i <= |walk|
      invariant photos == Photos(walk[..i])
    {
      assert walk[..i + 1][..i] == walk[..i];
      if IsPhotoFile(walk[i].name) {
        photos := photos + [walk[i]];
      }
      i := i + 1;
    }
    assert walk[..i] == walk;
  }

  /** The copy loop of `backup_photos`: each photo in turn is skipped, copied, or counted as failed. */
  method BackupEach(photos: seq<PhotoFile>, target: BackupTree, fails: set<Key>) returns (tally: Tally)
    modifies target
    ensures (tally, target.State()) == BackupRun(photos, old(target.State()), fails)
  {
    var backedUp: nat, failed: nat, totalSize: nat := 0, 0, 0;
    var j := 0;
    while j < |photos|
      invariant 0 <= j <= |photos|
      invariant (Tally(backedUp, failed, totalSize), target.State()) == BackupRun(photos[..j], old(target.State()), fails)
    {
      var f := photos[j];
      assert photos[..j + 1][..j] == photos[..j];
      var k := KeyOf(f);
      var upToDate := k in target.files && target.files[k].mtime >= f.info.mtime && target.files[k].size == f.info.size;
      target.dirs := target.dirs + {f.dir};
      if !upToDate {
        if k in fails {
          failed := failed + 1;
        } else {
          target.files := target.files[k := f.info];
          totalSize := totalSize + f.info.size;
          backedUp := backedUp + 1;
        }
      }
      j := j + 1;
    }
    assert photos[..j] == photos;
    tally := Tally(backedUp, failed, totalSize);
  }

  /**
   * `backup_photos` into `target`, whose walk of the photo root yields
   * `walk`: collects the photo files, then backs each up in turn. The run
   * started at `t0` and ended at `t1`; `rootError` is the error raised when
   * the target directory cannot be created; `fails` are the photos whose copy
   * raises.
   */
  method BackupPhotos(walk: seq<PhotoFile>, target: BackupTree, rootError: Option<string>, fails: set<Key>, t0: int, t1: int)
      returns (r: BackupResult)
    modifies target
    ensures rootError.Some? ==> r == BackupError(rootError.value) && target.State() == old(target.State())
    ensures rootError.None? ==>
      var run := BackupRun(Photos(walk), old(target.State()), fails);
      r == BackupSuccess(run.0.backedUp, run.0.failed, run.0.totalSize, t1 - t0) && target.State() == run.1
  {
    if rootError.Some? {
      return BackupError(rootError.value);
    }
    var photos := CollectPhotos(walk);
    var tally := BackupEach(photos, target, fails);
    r := BackupSuccess(tally.backedUp, tally.failed, tally.totalSize, t1 - t0);
  }

  // ---------------------------------------------------------------------------
  // Cleanup of old date directories
  // ---------------------------------------------------------------------------

  /** The files of directory `d`, in walk order. */
  function Unit(files: seq<PhotoFile>, d: string): (u: seq<PhotoFile>)
    ensures |u| <= |files|
  {
    if files == [] then []
    else
      var f := files[|files| - 1];
      Unit(files[..|files| - 1], d) + (if f.dir == d then [f] else [])
  }

  /** The files outside the directories in `gone`, in walk order. */
  function Keep(files: seq<PhotoFile>, gone: seq<string>): (kept: seq<PhotoFile>)
    ensures |kept| <= |files|
  {
    if files == [] then []
    else
      var f := files[|files| - 1];
      Keep(files[..|files| - 1], gone) + (if f.dir !in gone then [f] else [])
  }

  /** The listing without the entry named `d`. */
  function RemoveEntry(entries: seq<(string, bool)>, d: string): seq<(string, bool)>
  {
    if entries == [] then []
    else
      var e := entries[|entries| - 1];
      RemoveEntry(entries[..|entries| - 1], d) + (if e.0 != d then [e] else [])
  }

  /** The mirror's files after copying `fs` into it in order. */
  function CopyInto(files: map<Key, FileInfo>, fs: seq<PhotoFile>): map<Key, FileInfo>
  {
    if fs == [] then files
    else
      var f := fs[|fs| - 1];
      CopyInto(files, fs[..|fs| - 1])[KeyOf(f) := f.info]
  }

  /** The free percentage `free / total * 100` reaches `minPercent`, compared exactly. */
  predicate Enough(free: nat, total: nat, minPercent: real)
  {
    (free as real) * 100.0 >= minPercent * (total as real)
  }

  function Percent(free: nat, total: nat): real
    requires total > 0
  {
    (free as real) * 100.0 / (total as real)
  }

  /** On a disk of positive size, `Enough` is the comparison of the free percentage with the minimum. */
  lemma EnoughIsPercent(free: nat, total: nat, minPercent: real)
    requires total > 0
    ensures Enough(free, total, minPercent) <==> Percent(free, total) >= minPercent
  {
    var t := total as real;
    var x := (free as real) * 100.0;
    assert Percent(free, total) * t == x;
    if Percent(free, total) >= minPercent {
      assert Percent(free, total) * t >= minPercent * t;
    } else {
      assert Percent(free, total) * t < minPercent * t;
    }
  }

  /** The state `clean_photos` works on: the photo root's listing and files, the free space, and the backup tree. */
  datatype Disk = Disk(entries: seq<(string, bool)>, files: seq<PhotoFile>, free: nat, backup: Mirror)

  /**
   * How a date directory is judged already backed up: the check as written
   * (its backup directory exists) or a check that every photo in it has an
   * up-to-date copy.
   */
  datatype BackupCheck = DirectoryExists | EveryPhotoCopied

  /**
   * The parameters of one cleanup: the cutoff date (`YYYY-MM-DD` of now minus
   * the days to keep), the disk size, the minimum free percentage, the
   * directories whose backup copy raises and those whose removal raises.
   */
  datatype Policy = Policy(cutoff: string, total: nat, minPercent: real, copyFails: set<string>, rmFails: set<string>, check: BackupCheck)

  /** The state of the cleanup loop: the disk, the directories removed so far in order, the bytes freed. */
  datatype Sweep = Sweep(disk: Disk, removed: seq<string>, freed: nat)

  predicate BackedUp(check: BackupCheck, m: Mirror, files: seq<PhotoFile>, d: string)
  {
    match check
    case DirectoryExists => d in m.dirs
    case EveryPhotoCopied =>
      var ps := Photos(Unit(files, d));
      d in m.dirs && forall i :: 0 <= i < |ps| ==> UpToDate(m.files, ps[i])
  }

  /**
   * One date directory `d` of the cleanup loop. Nothing happens once the
   * free percentage has reached the minimum, or when `d` is not older than
   * the cutoff. Otherwise, unless it is judged backed up, its backup
   * directory is created and its photo files copied there; then its size is
   * measured and it is removed, freeing its bytes. A copy or a removal that
   * raises ends the directory's turn, leaving it in place.
   */
  function CleanStep(s: Sweep, d: string, p: Policy): Sweep
  {
    var disk := s.disk;
    if Enough(disk.free, p.total, p.minPercent) || !Less(d, p.cutoff) then s
    else
      var trusted := BackedUp(p.check, disk.backup, disk.files, d);
      if !trusted && d in p.copyFails then
        s.(disk := disk.(backup := disk.backup.(dirs := disk.backup.dirs + {d})))
      else
        var backup :=
          if trusted then disk.backup
          else Mirror(disk.backup.dirs + {d}, CopyInto(disk.backup.files, Photos(Unit(disk.files, d))));
        if d in p.rmFails then s.(disk := disk.(backup := backup))
        else
          var size := Bytes(Unit(disk.files, d));
          Sweep(Disk(RemoveEntry(disk.entries, d), Keep(disk.files, [d]), disk.free + size, backup),
                s.removed + [d], s.freed + size)
  }

  /** The cleanup loop over `dates` in order, from disk `d0`. */
  function CleanRun(d0: Disk, dates: seq<string>, p: Policy): Sweep
    decreases |dates|
  {
    if dates == [] then Sweep(d0, [], 0)
    else CleanStep(CleanRun(d0, dates[..|dates| - 1], p), dates[|dates| - 1], p)
  }

  /** Once the free percentage has reached the minimum, the rest of the loop changes nothing. */
  lemma {:induction false} RunAfterEnough(d0: Disk, dates: seq<string>, i: int, p: Policy)
    requires 0 <= i <= |dates|
    requires Enough(CleanRun(d0, dates[..i], p).disk.free, p.total, p.minPercent)
    ensures CleanRun(d0, dates, p) == CleanRun(d0, dates[..i], p)
    decreases |dates|
  {
    if i < |dates| {
      var n := |dates| - 1;
      assert dates[..n][..i] == dates[..i];
      RunAfterEnough(d0, dates[..n], i, p);
    } else {
      assert dates[..i] == dates;
    }
  }

  /** A disk that already has enough free space is left exactly as it is. */
  lemma NothingCleanedWhenEnough(d0: Disk, dates: seq<string>, p: Policy)
    requires Enough(d0.free, p.total, p.minPercent)
    ensures CleanRun(d0, dates, p) == Sweep(d0, [], 0)
  {
    RunAfterEnough(d0, dates, 0, p);
  }

  lemma {:induction false} KeepMember(files: seq<PhotoFile>, gone: seq<string>, f: PhotoFile)
    ensures f in Keep(files, gone) <==> f in files && f.dir !in gone
    decreases |files|
  {
    if files != [] {
      KeepMember(files[..|files| - 1], gone, f);
      assert files == files[..|files| - 1] + [files[|files| - 1]];
    }
  }

  lemma {:induction false} UnitMember(files: seq<PhotoFile>, d: string, f: PhotoFile)
    ensures f in Unit(files, d) <==> f in files && f.dir == d
    decreases |files|
  {
    if files != [] {
      UnitMember(files[..|files| - 1], d, f);
      assert files == files[..|files| - 1] + [files[|files| - 1]];
    }
  }

  /** Removing one more directory from what is kept is keeping outside one more directory. */
  lemma {:induction false} KeepMore(files: seq<PhotoFile>, gone: seq<string>, d: string)
    ensures Keep(Keep(files, gone), [d]) == Keep(files, gone + [d])
    decreases |files|
  {
    if files != [] {
      var n := |files| - 1;
      KeepMore(files[..n], gone, d);
      var f := files[n];
      if f.dir !in gone {
        var k := Keep(files, gone);
        assert k == Keep(files[..n], gone) + [f];
        assert k[..|k| - 1] == Keep(files[..n], gone) && k[|k| - 1] == f;
        assert f.dir !in gone + [d] <==> f.dir !in [d];
      } else {
        assert f.dir in gone + [d];
        assert Keep(files, gone) == Keep(files[..n], gone);
      }
    }
  }

  /** The bytes of a tree are those of directory `d` plus those of the rest. */
  lemma {:induction false} BytesSplit(files: seq<PhotoFile>, d: string)
    ensures Bytes(files) == Bytes(Unit(files, d)) + Bytes(Keep(files, [d]))
    decreases |files|
  {
    if files != [] {
      var n := |files| - 1;
      var f := files[n];
      BytesSplit(files[..n], d);
      if f.dir == d {
        assert Unit(files, d) == Unit(files[..n], d) + [f];
        assert Keep(files, [d]) == Keep(files[..n], [d]);
        BytesAppend(Unit(files[..n], d), f);
      } else {
        assert Unit(files, d) == Unit(files[..n], d);
        assert Keep(files, [d]) == Keep(files[..n], [d]) + [f];
        BytesAppend(Keep(files[..n], [d]), f);
      }
    }
  }

  /** One step keeps the shape `CleanRunShape` states, and removes `d` or nothing. */
  lemma StepShape(d0: Disk, s: Sweep, d: string, p: Policy)
    requires s.disk.files == Keep(d0.files, s.removed)
    requires s.disk.free == d0.free + s.freed
    requires Bytes(s.disk.files) + s.freed == Bytes(d0.files)
    ensures var r := CleanStep(s, d, p);
      && r.disk.files == Keep(d0.files, r.removed)
      && r.disk.free == d0.free + r.freed
      && Bytes(r.disk.files) + r.freed == Bytes(d0.files)
      && s.disk.backup.dirs <= r.disk.backup.dirs
      && (r.removed == s.removed || (r.removed == s.removed + [d] && Less(d, p.cutoff) && d in r.disk.backup.dirs))
  {
    var r := CleanStep(s, d, p);
    var disk := s.disk;
    if Enough(disk.free, p.total, p.minPercent) || !Less(d, p.cutoff) {
      assert r == s;
    } else if !BackedUp(p.check, disk.backup, disk.files, d) && d in p.copyFails {
      assert r.removed == s.removed && r.disk.files == disk.files && r.disk.free == disk.free && r.freed == s.freed;
    } else if d in p.rmFails {
      assert r.removed == s.removed && r.disk.files == disk.files && r.disk.free == disk.free && r.freed == s.freed;
    } else {
      var size := Bytes(Unit(disk.files, d));
      assert r.removed == s.removed + [d] && r.disk.files == Keep(disk.files, [d]);
      assert r.disk.free == disk.free + size && r.freed == s.freed + size;
      KeepMore(d0.files, s.removed, d);
      BytesSplit(s.disk.files, d);
    }
  }

  /**
   * What a cleanup run does, whatever happens on the way: the photo tree
   * loses exactly the removed directories; the bytes freed are the bytes the
   * tree lost, and are added to the free space; every removed directory was
   * among those visited, older than the cutoff, and has a backup directory.
   */
  lemma {:induction false} CleanRunShape(d0: Disk, dates: seq<string>, p: Policy)
    ensures CleanRun(d0, dates, p).disk.files == Keep(d0.files, CleanRun(d0, dates, p).removed)
    ensures CleanRun(d0, dates, p).disk.free == d0.free + CleanRun(d0, dates, p).freed
    ensures Bytes(CleanRun(d0, dates, p).disk.files) + CleanRun(d0, dates, p).freed == Bytes(d0.files)
    ensures forall j :: 0 <= j < |CleanRun(d0, dates, p).removed| ==>
      var d := CleanRun(d0, dates, p).removed[j];
      d in dates && Less(d, p.cutoff) && d in CleanRun(d0, dates, p).disk.backup.dirs
    decreases |dates|
  {
    if dates == [] {
      KeepEmpty(d0.files);
    } else {
      var n := |dates| - 1;
      CleanRunShape(d0, dates[..n], p);
      var s := CleanRun(d0, dates[..n], p);
      var d := dates[n];
      StepShape(d0, s, d, p);
      var r := CleanStep(s, d, p);
      assert r == CleanRun(d0, dates, p);
      forall j | 0 <= j < |r.removed|
        ensures r.removed[j] in dates && Less(r.removed[j], p.cutoff) && r.removed[j] in r.disk.backup.dirs
      {
        if j < |s.removed| {
          assert r.removed[j] == s.removed[j];
          assert s.removed[j] in dates[..n];
        }
      }
    }
  }

  lemma {:induction false} KeepEmpty(files: seq<PhotoFile>)
    ensures Keep(files, []) == files
    decreases |files|
  {
    if files != [] {
      KeepEmpty(files[..|files| - 1]);
    }
  }

  /** One step removes the directory it visits, or nothing. */
  lemma StepRemoved(s: Sweep, d: string, p: Policy)
    ensures CleanStep(s, d, p).removed == s.removed || CleanStep(s, d, p).removed == s.removed + [d]
  {
  }

  /** Every directory a run removes was among those it visited. */
  lemma {:induction false} RemovedWereVisited(d0: Disk, dates: seq<string>, p: Policy)
    ensures forall x :: x in CleanRun(d0, dates, p).removed ==> x in dates
    decreases |dates|
  {
    if dates != [] {
      var n := |dates| - 1;
      RemovedWereVisited(d0, dates[..n], p);
      var s := CleanRun(d0, dates[..n], p);
      assert CleanRun(d0, dates, p) == CleanStep(s, dates[n], p);
      StepRemoved(s, dates[n], p);
      assert forall x :: x in dates[..n] ==> x in dates;
    }
  }

  /** The directories are removed oldest first when they are visited in ascending order. */
  lemma {:induction false} RemovedOldestFirst(d0: Disk, dates: seq<string>, p: Policy)
    requires SortedAsc(dates) && Distinct(dates)
    ensures var removed := CleanRun(d0, dates, p).removed;
      forall i, j :: 0 <= i < j < |removed| ==> Less(removed[i], removed[j])
    decreases |dates|
  {
    if dates != [] {
      var n := |dates| - 1;
      var init := dates[..n];
      assert SortedAsc(init) && Distinct(init);
      RemovedOldestFirst(d0, init, p);
      assert var removed := CleanRun(d0, init, p).removed;
        forall i, j :: 0 <= i < j < |removed| ==> Less(removed[i], removed[j]);
      RemovedWereVisited(d0, init, p);
      var s := CleanRun(d0, init, p);
      var r := CleanRun(d0, dates, p);
      assert r == CleanStep(s, dates[n], p);
      StepRemoved(s, dates[n], p);
      if r.removed != s.removed {
        assert r.removed == s.removed + [dates[n]];
        forall i | 0 <= i < |s.removed|
          ensures Less(s.removed[i], dates[n])
        {
          assert s.removed[i] in s.removed;
          var k :| 0 <= k < n && init[k] == s.removed[i];
          assert LessEq(dates[k], dates[n]) && dates[k] != dates[n];
        }
        forall i, j | 0 <= i < j < |r.removed|
          ensures Less(r.removed[i], r.removed[j])
        {
          assert r.removed[i] == s.removed[i];
          if j < |s.removed| {
            assert r.removed[j] == s.removed[j];
          }
        }
      }
    }
  }

  // ---------------------------------------------------------------------------
  // Backing up before removing
  // ---------------------------------------------------------------------------

  /** No two different files sit at the same place. */
  predicate OneFilePerKey(fs: seq<PhotoFile>)
  {
    forall f, g :: f in fs && g in fs && KeyOf(f) == KeyOf(g) ==> f == g
  }

  lemma {:induction false} CopyIntoHas(files: map<Key, FileInfo>, fs: seq<PhotoFile>, f: PhotoFile)
    requires f in fs
    requires forall g :: g in fs && KeyOf(g) == KeyOf(f) ==> g == f
    ensures KeyOf(f) in CopyInto(files, fs) && CopyInto(files, fs)[KeyOf(f)] == f.info
    decreases |fs|
  {
    var n := |fs| - 1;
    if fs[n] != f {
      assert fs == fs[..n] + [fs[n]];
      CopyIntoHas(files, fs[..n], f);
    }
  }

  lemma {:induction false} CopyIntoElsewhere(files: map<Key, FileInfo>, fs: seq<PhotoFile>, k: Key)
    requires forall g :: g in fs ==> KeyOf(g) != k
    ensures SameAt(CopyInto(files, fs), files, k)
    decreases |fs|
  {
    if fs != [] {
      CopyIntoElsewhere(files, fs[..|fs| - 1], k);
    }
  }

  /** Every photo of `d0` in a removed directory has an up-to-date copy in the backup. */
  predicate PhotosKept(d0: Disk, s: Sweep)
  {
    forall f :: f in d0.files && IsPhotoFile(f.name) && f.dir in s.removed ==> UpToDate(s.disk.backup.files, f)
  }

  /** A copy made for directory `d` does not touch the copy of a photo from a directory already removed. */
  lemma CopyKeepsRemoved(d0: Disk, s: Sweep, d: string, f: PhotoFile)
    requires s.disk.files == Keep(d0.files, s.removed)
    requires f.dir in s.removed
    ensures SameAt(CopyInto(s.disk.backup.files, Photos(Unit(s.disk.files, d))), s.disk.backup.files, KeyOf(f))
  {
    forall g | g in Photos(Unit(s.disk.files, d))
      ensures KeyOf(g) != KeyOf(f)
    {
      PhotosMember(Unit(s.disk.files, d), g);
      UnitMember(s.disk.files, d, g);
      KeepMember(d0.files, s.removed, g);
    }
    CopyIntoElsewhere(s.disk.backup.files, Photos(Unit(s.disk.files, d)), KeyOf(f));
  }

  /** What one step does to the backup files: nothing, or the copies of `d`'s photos; a removal follows a trusted backup or a fresh copy. */
  lemma StepCopies(s: Sweep, d: string, p: Policy)
    ensures var r := CleanStep(s, d, p);
      var copied := CopyInto(s.disk.backup.files, Photos(Unit(s.disk.files, d)));
      && (r.disk.backup.files == s.disk.backup.files || r.disk.backup.files == copied)
      && (r.removed == s.removed || r.removed == s.removed + [d])
      && (r.removed != s.removed ==>
            (BackedUp(p.check, s.disk.backup, s.disk.files, d) && r.disk.backup.files == s.disk.backup.files)
            || r.disk.backup.files == copied)
  {
  }

  /** A photo of a directory about to be removed is up to date after the check accepts it, and after it is copied. */
  lemma NewlyRemovedPhotoKept(d0: Disk, s: Sweep, d: string, p: Policy, f: PhotoFile)
    requires p.check == EveryPhotoCopied && OneFilePerKey(d0.files)
    requires s.disk.files == Keep(d0.files, s.removed)
    requires f in d0.files && IsPhotoFile(f.name) && f.dir == d && d !in s.removed
    ensures BackedUp(p.check, s.disk.backup, s.disk.files, d) ==> UpToDate(s.disk.backup.files, f)
    ensures UpToDate(CopyInto(s.disk.backup.files, Photos(Unit(s.disk.files, d))), f)
  {
    var u := Photos(Unit(s.disk.files, d));
    KeepMember(d0.files, s.removed, f);
    UnitMember(s.disk.files, d, f);
    PhotosMember(Unit(s.disk.files, d), f);
    assert f in u;
    var i :| 0 <= i < |u| && u[i] == f;
    forall g | g in u && KeyOf(g) == KeyOf(f)
      ensures g == f
    {
      PhotosMember(Unit(s.disk.files, d), g);
      UnitMember(s.disk.files, d, g);
      KeepMember(d0.files, s.removed, g);
    }
    CopyIntoHas(s.disk.backup.files, u, f);
  }

  /** With the completeness check, a directory is removed only once each of its photos has an up-to-date copy. */
  lemma CheckedStepKeepsPhotos(d0: Disk, s: Sweep, d: string, p: Policy)
    requires p.check == EveryPhotoCopied && OneFilePerKey(d0.files)
    requires s.disk.files == Keep(d0.files, s.removed) && PhotosKept(d0, s)
    ensures PhotosKept(d0, CleanStep(s, d, p))
  {
    var r := CleanStep(s, d, p);
    StepCopies(s, d, p);
    forall f | f in d0.files && IsPhotoFile(f.name) && f.dir in r.removed
      ensures UpToDate(r.disk.backup.files, f)
    {
      if f.dir in s.removed {
        CopyKeepsRemoved(d0, s, d, f);
      } else {
        assert f.dir == d;
        NewlyRemovedPhotoKept(d0, s, d, p, f);
      }
    }
  }

  lemma {:induction false} CheckedRunKeepsPhotos(d0: Disk, dates: seq<string>, p: Policy)
    requires p.check == EveryPhotoCopied && OneFilePerKey(d0.files)
    ensures PhotosKept(d0, CleanRun(d0, dates, p))
    decreases |dates|
  {
    if dates != [] {
      var n := |dates| - 1;
      CheckedRunKeepsPhotos(d0, dates[..n], p);
      CleanRunShape(d0, dates[..n], p);
      CheckedStepKeepsPhotos(d0, CleanRun(d0, dates[..n], p), dates[n], p);
    }
  }

  /**
   * With the completeness check, no photo is ever lost: every photo that a
   * cleanup run removes from the photo tree has an up-to-date copy in the
   * backup tree, whatever copies or removals fail on the way.
   */
  lemma CheckedCleanupKeepsEveryPhoto(d0: Disk, dates: seq<string>, p: Policy)
    requires p.check == EveryPhotoCopied && OneFilePerKey(d0.files)
    ensures var s := CleanRun(d0, dates, p);
      forall f :: f in d0.files && IsPhotoFile(f.name) && f !in s.disk.files ==> UpToDate(s.disk.backup.files, f)
  {
    var s := CleanRun(d0, dates, p);
    CheckedRunKeepsPhotos(d0, dates, p);
    CleanRunShape(d0, dates, p);
    forall f | f in d0.files && IsPhotoFile(f.name) && f !in s.disk.files
      ensures UpToDate(s.disk.backup.files, f)
    {
      KeepMember(d0.files, s.removed, f);
    }
  }

  /** One directory visited by a cleanup run over that directory alone. */
  lemma SingleRun(d0: Disk, d: string, p: Policy)
    ensures CleanRun(d0, [d], p) == CleanStep(Sweep(d0, [], 0), d, p)
  {
    assert [d][..0] == [];
  }

  /** A first cleanup of `d` whose copy raises leaves only an empty backup directory behind. */
  lemma FailedCopyLeavesEmptyDir(d0: Disk, d: string, p: Policy)
    requires Less(d, p.cutoff) && !Enough(d0.free, p.total, p.minPercent)
    requires d0.backup == Mirror({}, map[]) && d in p.copyFails
    ensures CleanRun(d0, [d], p) == Sweep(d0.(backup := Mirror({d}, map[])), [], 0)
  {
    SingleRun(d0, d, p);
  }

  /** A later cleanup, as written, trusts that directory and removes `d`, whose only file is `f`. */
  lemma TrustedDirRemoved(d1: Disk, d: string, f: PhotoFile, p: Policy)
    requires Less(d, p.cutoff) && !Enough(d1.free, p.total, p.minPercent)
    requires p.check == DirectoryExists && d in d1.backup.dirs && d !in p.rmFails
    requires d1.files == [f] && f.dir == d
    ensures CleanRun(d1, [d], p).disk.files == [] && CleanRun(d1, [d], p).disk.backup == d1.backup
  {
    SingleRun(d1, d, p);
    assert [f][..0] == [];
    assert Keep([f], [d]) == [];
  }

  /**
   * As written, an existing backup directory is trusted whatever it holds.
   * A first cleanup whose copy raises leaves the directory's backup directory
   * created but empty; the next cleanup trusts it and removes the photo,
   * which then exists nowhere.
   */
  lemma TrustedPartialBackupLosesPhoto(d: string, f: PhotoFile, cutoff: string, total: nat, minPercent: real)
    requires Less(d, cutoff) && f.dir == d && IsPhotoFile(f.name)
    requires !Enough(0, total, minPercent)
    ensures
      var d0 := Disk([(d, true)], [f], 0, Mirror({}, map[]));
      var first := CleanRun(d0, [d], Policy(cutoff, total, minPercent, {d}, {}, DirectoryExists));
      var second := CleanRun(first.disk, [d], Policy(cutoff, total, minPercent, {}, {}, DirectoryExists));
      && f in d0.files && f !in second.disk.files && KeyOf(f) !in second.disk.backup.files
  {
    var d0 := Disk([(d, true)], [f], 0, Mirror({}, map[]));
    var p1 := Policy(cutoff, total, minPercent, {d}, {}, DirectoryExists);
    var p2 := Policy(cutoff, total, minPercent, {}, {}, DirectoryExists);
    FailedCopyLeavesEmptyDir(d0, d, p1);
    var first := CleanRun(d0, [d], p1);
    TrustedDirRemoved(first.disk, d, f, p2);
  }

  /**
   * The example meets the conditions of the loss: `2024-01-01` is older than
   * a cutoff of `2025-01-01`, `test.jpg` is a photo, and a full disk of 100
   * bytes is short of a 20% minimum.
   */
  lemma LossExample()
    ensures Less("2024-01-01", "2025-01-01") && IsPhotoFile("test.jpg") && !Enough(0, 100, 20.0)
  {
    LessAtFirstDifference("2024-01-01", "2025-01-01", 3);
    TestJpgIsPhoto();
  }

  lemma TestJpgIsPhoto()
    ensures IsPhotoFile("test.jpg")
  {
    PhotoExtensions("test");
    assert "test" + ".jpg" == "test.jpg";
  }

  // ---------------------------------------------------------------------------
  // The cleanup, step by step
  // ---------------------------------------------------------------------------

  /** The photo disk: the photo root's listing and files, and the free and total space. */
  class Volume {
    var entries: seq<(string, bool)>
    var files: seq<PhotoFile>
    var free: nat
    const total: nat

    constructor (entries: seq<(string, bool)>, files: seq<PhotoFile>, free: nat, total: nat)
      ensures this.entries == entries && this.files == files && this.free == free && this.total == total
    {
      this.entries := entries;
      this.files := files;
      this.free := free;
      this.total := total;
    }

    /** `shutil.rmtree` of date directory `d`, whose files take `size` bytes: the space they took becomes free. */
    method RemoveTree(d: string, size: nat)
      modifies this
      ensures entries == RemoveEntry(old(entries), d) && files == Keep(old(files), [d]) && free == old(free) + size
    {
      files := Keep(files, [d]);
      entries := RemoveEntry(entries, d);
      free := free + size;
    }
  }

  function DiskOf(vol: Volume, backup: BackupTree): Disk
    reads vol, backup
  {
    Disk(vol.entries, vol.files, vol.free, backup.State())
  }

  /** The copy loop for one directory: each of its photo files is copied into the backup tree. */
  method CopyPhotos(unit: seq<PhotoFile>, backup: BackupTree)
    modifies backup
    ensures backup.files == CopyInto(old(backup.files), Photos(unit)) && backup.dirs == old(backup.dirs)
  {
    var i := 0;
    while i < |unit|
      invariant 0 <= i <= |unit|
      invariant backup.files == CopyInto(old(backup.files), Photos(unit[..i])) && backup.dirs == old(backup.dirs)
    {
      var prefix := unit[..i + 1];
      assert prefix[..i] == unit[..i] && prefix[i] == unit[i];
      if IsPhotoFile(unit[i].name) {
        backup.files := backup.files[KeyOf(unit[i]) := unit[i].info];
        assert Photos(prefix) == Photos(unit[..i]) + [unit[i]];
      } else {
        assert Photos(prefix) == Photos(unit[..i]);
      }
      i := i + 1;
    }
    assert unit[..i] == unit;
  }

  /** The size loop for one directory: the total size of its files. */
  method UnitSize(unit: seq<PhotoFile>) returns (size: nat)
    ensures size == Bytes(unit)
  {
    size := 0;
    var i := 0;
    while i < |unit|
      invariant 0 <= i <= |unit|
      invariant size == Bytes(unit[..i])
    {
      assert unit[..i + 1] == unit[..i] + [unit[i]];
      BytesAppend(unit[..i], unit[i]);
      size := size + unit[i].info.size;
      i := i + 1;
    }
    assert unit[..i] == unit;
  }

  /** Whether every photo file of directory `d` has an up-to-date copy in a backup directory that exists. */
  method CheckCopied(files: seq<PhotoFile>, backup: BackupTree, d: string) returns (ok: bool)
    ensures ok == BackedUp(EveryPhotoCopied, backup.State(), files, d)
  {
    var ps := Photos(Unit(files, d));
    if d !in backup.dirs {
      return false;
    }
    var i := 0;
    while i < |ps|
      invariant 0 <= i <= |ps|
      invariant forall j :: 0 <= j < i ==> UpToDate(backup.files, ps[j])
    {
      if !UpToDate(backup.files, ps[i]) {
        return false;
      }
      i := i + 1;
    }
    return true;
  }

  /** Whether directory `d` is judged backed up already, by the given check. */
  method IsBackedUp(files: seq<PhotoFile>, backup: BackupTree, d: string, check: BackupCheck) returns (trusted: bool)
    ensures trusted == BackedUp(check, backup.State(), files, d)
  {
    if check == DirectoryExists {
      trusted := d in backup.dirs;
    } else {
      trusted := CheckCopied(files, backup, d);
    }
  }

  /**
   * One turn of the cleanup loop for directory `d`, while the free space is
   * short: skipped unless older than the cutoff; backed up unless judged
   * backed up already; measured and removed. Reports whether it was removed
   * and its size.
   */
  method CleanDirectory(vol: Volume, backup: BackupTree, d: string, p: Policy, ghost removed: seq<string>, freed: nat)
      returns (gone: bool, size: nat)
    requires p.total == vol.total
    requires !Enough(vol.free, p.total, p.minPercent)
    modifies vol, backup
    ensures Sweep(DiskOf(vol, backup), if gone then removed + [d] else removed, if gone then freed + size else freed)
         == CleanStep(Sweep(old(DiskOf(vol, backup)), removed, freed), d, p)
  {
    ghost var s := Sweep(DiskOf(vol, backup), removed, freed);
    gone, size := false, 0;
    if !Less(d, p.cutoff) {
      assert CleanStep(s, d, p) == s;
      return;
    }
    var proceed := EnsureBackup(vol, backup, d, p);
    ghost var b := backup.State();
    StepCases(s, d, p, b);
    if !proceed {
      return;
    }
    size := UnitSize(Unit(vol.files, d));
    if d in p.rmFails {
      return;
    }
    vol.RemoveTree(d, size);
    gone := true;
  }

  /** The three outcomes of a turn on a directory older than the cutoff while the free space is short. */
  lemma StepCases(s: Sweep, d: string, p: Policy, b: Mirror)
    requires !Enough(s.disk.free, p.total, p.minPercent) && Less(d, p.cutoff)
    requires var m := s.disk.backup;
      b == if BackedUp(p.check, m, s.disk.files, d) then m
           else if d in p.copyFails then Mirror(m.dirs + {d}, m.files)
           else Mirror(m.dirs + {d}, CopyInto(m.files, Photos(Unit(s.disk.files, d))))
    ensures var proceed := BackedUp(p.check, s.disk.backup, s.disk.files, d) || d !in p.copyFails;
      && (!proceed || d in p.rmFails ==> CleanStep(s, d, p) == s.(disk := s.disk.(backup := b)))
      && (proceed && d !in p.rmFails ==>
            var size := Bytes(Unit(s.disk.files, d));
            CleanStep(s, d, p) == Sweep(Disk(RemoveEntry(s.disk.entries, d), Keep(s.disk.files, [d]), s.disk.free + size, b),
                                        s.removed + [d], s.freed + size))
  {
  }

  /**
   * The backup half of one cleanup turn: unless the directory is judged
   * backed up, its backup directory is created and, unless that copy fails,
   * its photos are copied. Reports whether the turn goes on to the removal.
   */
  method EnsureBackup(vol: Volume, backup: BackupTree, d: string, p: Policy) returns (proceed: bool)
    modifies backup
    ensures var m := old(backup.State());
      var trusted := BackedUp(p.check, m, vol.files, d);
      && proceed == (trusted || d !in p.copyFails)
      && backup.State() == if trusted then m
                           else if d in p.copyFails then Mirror(m.dirs + {d}, m.files)
                           else Mirror(m.dirs + {d}, CopyInto(m.files, Photos(Unit(vol.files, d))))
  {
    var trusted := IsBackedUp(vol.files, backup, d, p.check);
    if trusted {
      return true;
    }
    backup.dirs := backup.dirs + {d};
    if d in p.copyFails {
      return false;
    }
    CopyPhotos(Unit(vol.files, d), backup);
    return true;
  }

  /** The run over one more date is one more step. */
  lemma RunStep(d0: Disk, dates: seq<string>, i: int, p: Policy)
    requires 0 <= i < |dates|
    ensures CleanRun(d0, dates[..i + 1], p) == CleanStep(CleanRun(d0, dates[..i], p), dates[i], p)
  {
    assert dates[..i + 1][..i] == dates[..i];
  }

  /**
   * The cleanup loop over `dates`: stops as soon as the free space is enough,
   * otherwise cleans each directory in turn; counts the directories removed
   * and the bytes they freed.
   */
  method SweepDates(vol: Volume, backup: BackupTree, dates: seq<string>, p: Policy)
      returns (deleted: nat, freed: nat)
    requires p.total == vol.total
    modifies vol, backup
    ensures var s := CleanRun(old(DiskOf(vol, backup)), dates, p);
      DiskOf(vol, backup) == s.disk && deleted == |s.removed| && freed == s.freed
  {
    ghost var d0 := DiskOf(vol, backup);
    deleted, freed := 0, 0;
    ghost var removed: seq<string> := [];
    var i := 0;
    while i < |dates|
      invariant 0 <= i <= |dates|
      invariant Sweep(DiskOf(vol, backup), removed, freed) == CleanRun(d0, dates[..i], p)
      invariant deleted == |removed|
    {
      ghost var before := CleanRun(d0, dates[..i], p);
      if Enough(vol.free, p.total, p.minPercent) {
        assert before.disk.free == vol.free;
        RunAfterEnough(d0, dates, i, p);
        return;
      }
      RunStep(d0, dates, i, p);
      var gone, size := CleanDirectory(vol, backup, dates[i], p, removed, freed);
      if gone {
        deleted := deleted + 1;
        freed := freed + size;
        removed := removed + [dates[i]];
      }
      i := i + 1;
    }
    assert dates[..i] == dates;
  }

  /** What `clean_photos` returns. */
  datatype CleanResult =
    | NoCleaningNeeded(freePercent: real)
    | CleanSuccess(deleted: nat, freed: nat, freePercent: real)
    | CleanError(error: string)

  /**
   * `clean_photos`: on a disk of size zero the percentage raises; with
   * enough free space nothing is done; otherwise the date directories are
   * visited in ascending order and cleaned one by one as `CleanStep` says.
   * `cutoff` is the date the days to keep lead back to. With `check` set to
   * `DirectoryExists` this is the code as written, which trusts an existing
   * backup directory; with `EveryPhotoCopied` it is the corrected cleanup,
   * which copies a directory again unless each of its photos has an
   * up-to-date copy.
   */
  method CleanPhotos(vol: Volume, backup: BackupTree, cutoff: string, minPercent: real,
                     copyFails: set<string>, rmFails: set<string>, check: BackupCheck)
      returns (r: CleanResult)
    modifies vol, backup
    ensures vol.total == 0 ==> r == CleanError("division by zero") && DiskOf(vol, backup) == old(DiskOf(vol, backup))
    ensures vol.total > 0 && Enough(old(vol.free), vol.total, minPercent) ==>
      r == NoCleaningNeeded(Percent(old(vol.free), vol.total)) && DiskOf(vol, backup) == old(DiskOf(vol, backup))
    ensures vol.total > 0 && !Enough(old(vol.free), vol.total, minPercent) ==>
      var s := CleanRun(old(DiskOf(vol, backup)), SortAsc(DateNames(old(vol.entries))),
                        Policy(cutoff, vol.total, minPercent, copyFails, rmFails, check));
      DiskOf(vol, backup) == s.disk && r == CleanSuccess(|s.removed|, s.freed, Percent(s.disk.free, vol.total))
  {
    if vol.total == 0 {
      return CleanError("division by zero");
    }
    if Enough(vol.free, vol.total, minPercent) {
      return NoCleaningNeeded(Percent(vol.free, vol.total));
    }
    var names := CollectDateNames(vol.entries);
    var p := Policy(cutoff, vol.total, minPercent, copyFails, rmFails, check);
    var deleted, freed := SweepDates(vol, backup, SortAsc(names), p);
    r := CleanSuccess(deleted, freed, Percent(vol.free, vol.total));
  }

  // ---------------------------------------------------------------------------
  // Backup to an external drive
  // ---------------------------------------------------------------------------

  /** What `backup_to_external` returns: an error, or the id of the backup job it submitted. */
  datatype ExternalBackup = NoExternalStorage | BackupSubmitted(id: JobId)

  /**
   * `backup_to_external`: without an available external drive (or with an
   * empty path) it reports an error; otherwise it calls the decorated
   * `backup_photos` with the drive's `CreatureBox_Backup` directory, which
   * submits a new job and yields its id.
   */
  method BackupToExternal<R>(q: JobQueue<R>, media: MountBase, mnt: MountBase, now: int) returns (r: ExternalBackup)
    requires q.Valid()
    modifies q
    ensures var e := ExternalStats(media, mnt);
      !(e.External? && e.available && e.path.Some? && e.path.value != "") ==>
        r == NoExternalStorage && q.jobs == old(q.jobs) && q.queue == old(q.queue) && q.running == old(q.running)
    ensures var e := ExternalStats(media, mnt);
      e.External? && e.available && e.path.Some? && e.path.value != "" ==>
        r.BackupSubmitted? && r.id !in old(q.jobs) && q.Valid() && q.running
        && q.jobs == old(q.jobs)[r.id := NewJob(r.id, Call("backup_photos", [JoinPath(e.path.value, "CreatureBox_Backup")], map[]), Some("Backup Photos"), DEFAULT_TIMEOUT, now)]
        && q.queue == old(q.queue) + [JobRef(r.id)]
  {
    var e := ExternalStats(media, mnt);
    if !(e.External? && e.available && e.path.Some? && e.path.value != "") {
      return NoExternalStorage;
    }
    var call := Call("backup_photos", [JoinPath(e.path.value, "CreatureBox_Backup")], map[]);
    var id := BackgroundTask(q, call, Some("Backup Photos"), DEFAULT_TIMEOUT, now);
    r := BackupSubmitted(id);
  }
}
