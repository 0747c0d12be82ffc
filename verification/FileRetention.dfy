// Sampled output files: src/modules/output/file/file_output.c.

/** The order of strcmp, which alphasort uses in the C locale. */
module ByteOrder {
  import opened Decimal

  predicate Less(a: string, b: string) {
    if b == "" then false
    else if a == "" then true
    else if a[0] != b[0] then a[0] < b[0]
    else Less(a[1..], b[1..])
  }

  lemma {:induction false} LessTotal(a: string, b: string)
    ensures Less(a, b) || Less(b, a) || a == b
    ensures !(Less(a, b) && Less(b, a)) && !Less(a, a)
  {
    if a != "" && b != "" && a[0] == b[0] {
      LessTotal(a[1..], b[1..]);
      LessTotal(a[1..], a[1..]);
      assert a == [a[0]] + a[1..] && b == [b[0]] + b[1..];
    } else if a != "" {
      LessTotal(a[1..], a[1..]);
    }
  }

  lemma {:induction false} LessTransitive(a: string, b: string, c: string)
    requires Less(a, b) && Less(b, c)
    ensures Less(a, c)
  {
    if a != "" && a[0] == b[0] == c[0] {
      LessTransitive(a[1..], b[1..], c[1..]);
    }
  }

  // Texts of the same length decide the order of all texts that begin with them, unless they are equal.
  lemma {:induction false} LessExtend(a: string, b: string, x: string, y: string)
    requires |a| == |b|
    ensures Less(a + x, b + y) == if a == b then Less(x, y) else Less(a, b)
  {
    if a == "" {
      assert a + x == x && b + y == y;
    } else {
      LessExtend(a[1..], b[1..], x, y);
      assert (a + x)[1..] == a[1..] + x && (b + y)[1..] == b[1..] + y;
      assert a == [a[0]] + a[1..] && b == [b[0]] + b[1..];
    }
  }

  lemma LessChar(c: char, d: char)
    ensures Less([c], [d]) == (c < d)
  {
    assert [c][1..] == "" && [d][1..] == "";
  }

  // Digit texts of the same length are in the order of their values.
  lemma {:induction false} LessDigits(a: string, b: string)
    requires |a| == |b| && AllDigits(a) && AllDigits(b)
    ensures Less(a, b) == (Value(a) < Value(b)) && ((a == b) == (Value(a) == Value(b)))
  {
    if a == "" {
    } else {
      var n := |a| - 1;
      LessDigits(a[..n], b[..n]);
      LessExtend(a[..n], b[..n], [a[n]], [b[n]]);
      LessChar(a[n], b[n]);
      assert a == a[..n] + [a[n]] && b == b[..n] + [b[n]];
    }
  }
}

/** Names of sampled files, and what tells them apart. */
module SampleNames {
  import opened Common
  import opened Decimal
  import opened AppendNumber
  import opened Fields
  import opened ByteOrder

  datatype Stamp = Stamp(sec: u64, usec: u64)

  // is_after
  predicate IsAfter(start: Stamp, end: Stamp) {
    end.sec > start.sec || (end.sec == start.sec && end.usec > start.usec)
  }

  function StampText(t: Stamp): (s: string) {
    Render(Time(t.sec, t.usec))
  }

  predicate Proper(t: Stamp) {
    t.usec < 1000000
  }

  lemma MicrosValue(usec: u64)
    requires usec < 1000000
    ensures AllDigits(Micros(usec)) && Value(Micros(usec)) == usec
  {
    hide Digits;
    hide Value;
    hide Pow10;
    PowersTo10();
    DigitsBound(usec);
    RoundTrip(usec);
    if usec == 0 {
      DigitCount(0, 1);
    } else if |Digits(usec)| > 6 {
      PowersGrow(6, |Digits(usec)| - 1);
    }
    ZerosFirst(6 - |Number(6, usec)|, Number(6, usec));
  }

  // Byte order of the texts is time order, if the seconds have as many digits; whatever follows
  // counts only for equal times.
  lemma StampOrder(t: Stamp, u: Stamp, x: string, y: string)
    requires Proper(t) && Proper(u) && |Digits(t.sec)| == |Digits(u.sec)|
    ensures Less(StampText(t) + x, StampText(u) + y) <==> IsAfter(t, u) || (t == u && Less(x, y))
  {
    hide Digits;
    hide Value;
    hide Less;
    hide Micros;
    RoundTrip(t.sec);
    RoundTrip(u.sec);
    LessDigits(Digits(t.sec), Digits(u.sec));
    MicrosValue(t.usec);
    MicrosValue(u.usec);
    LessDigits(Micros(t.usec), Micros(u.usec));
    LessExtend(Micros(t.usec), Micros(u.usec), x, y);
    LessExtend(".", ".", Micros(t.usec) + x, Micros(u.usec) + y);
    LessExtend(Digits(t.sec), Digits(u.sec), "." + (Micros(t.usec) + x), "." + (Micros(u.usec) + y));
    assert StampText(t) + x == Digits(t.sec) + ("." + (Micros(t.usec) + x));
    assert StampText(u) + y == Digits(u.sec) + ("." + (Micros(u.usec) + y));
  }

  // The microseconds are printed as they are exactly when they are less than a second; otherwise as zeros.
  lemma MicrosExactly(usec: u64)
    ensures AllDigits(Micros(usec))
    ensures Value(Micros(usec)) == usec <==> usec < 1000000
    ensures usec >= 1000000 ==> Value(Micros(usec)) == 0
  {
    hide Digits;
    hide Value;
    hide Pow10;
    if usec < 1000000 {
      MicrosValue(usec);
    } else {
      PowersTo10();
      DigitsBound(usec);
      if |Digits(usec)| <= 6 {
        PowersGrow(|Digits(usec)|, 6);
      }
      ZerosFirst(6, "");
      assert Micros(usec) == Zeros(6) + "";
      NoValue();
    }
  }

  lemma NoValue()
    ensures Value("") == 0
  {
  }

  // Among texts with as many digits in their seconds: byte order is time order, for all proper times compared with u.
  ghost predicate Ordered(u: Stamp) {
    forall t: Stamp :: Proper(t) && |Digits(t.sec)| == |Digits(u.sec)| ==>
      (Less(StampText(t), StampText(u)) <==> IsAfter(t, u))
  }

  // It is so exactly if u is proper itself.
  lemma MicrosMatter(u: Stamp)
    ensures Ordered(u) <==> Proper(u)
  {
    hide Digits;
    hide Less;
    hide StampText;
    if Proper(u) {
      forall t: Stamp | Proper(t) && |Digits(t.sec)| == |Digits(u.sec)|
        ensures Less(StampText(t), StampText(u)) <==> IsAfter(t, u)
      {
        StampOrder(t, u, "", "");
        LessTotal("", "");
        assert StampText(t) + "" == StampText(t) && StampText(u) + "" == StampText(u);
      }
    } else {
      OverflowIsFirst(u);
      var t := Stamp(u.sec, 1);
      assert Proper(t) && |Digits(t.sec)| == |Digits(u.sec)|;
    }
  }

  lemma OverflowIsFirst(u: Stamp)
    requires !Proper(u)
    ensures var t := Stamp(u.sec, 1); IsAfter(t, u) && !Less(StampText(t), StampText(u))
  {
    hide Value;
    hide Micros;
    hide Digits;
    hide Less;
    MicrosExactly(1);
    MicrosExactly(u.usec);
    var x, y := Micros(1), Micros(u.usec);
    LessDigits(x, y);
    LessExtend(".", ".", x, y);
    LessExtend(Digits(u.sec), Digits(u.sec), "." + x, "." + y);
    assert StampText(Stamp(u.sec, 1)) == Digits(u.sec) + ("." + x);
    assert StampText(u) == Digits(u.sec) + ("." + y);
  }

  // Byte order is time order, for all proper times with m and n digits in their seconds.
  ghost predicate OrderedCounts(m: nat, n: nat) {
    forall t: Stamp, u: Stamp :: Proper(t) && Proper(u) && |Digits(t.sec)| == m && |Digits(u.sec)| == n ==>
      (Less(StampText(t), StampText(u)) <==> IsAfter(t, u))
  }

  // It is so exactly if m and n are equal; seconds have between one and twenty digits.
  lemma DigitCountsMatter(m: nat, n: nat)
    requires 1 <= m <= 20 && 1 <= n <= 20
    ensures OrderedCounts(m, n) <==> m == n
  {
    hide Digits;
    hide Less;
    hide StampText;
    hide Pow10;
    if m == n {
      forall t: Stamp, u: Stamp | Proper(t) && Proper(u) && |Digits(t.sec)| == m && |Digits(u.sec)| == n
        ensures Less(StampText(t), StampText(u)) <==> IsAfter(t, u)
      {
        MicrosMatter(u);
        assert Ordered(u);
      }
    } else if m < n {
      NineBeforeOne(m, n);
    } else {
      NineBeforeOne(n, m);
    }
  }

  // The nine with fewer digits comes behind the one with more.
  lemma NineBeforeOne(m: nat, n: nat)
    requires 1 <= m < n <= 20
    ensures 9 * Pow10(m - 1) < Pow10(n - 1) < TWO_64
    ensures var t, u := Stamp(9 * Pow10(m - 1), 0), Stamp(Pow10(n - 1), 0);
      && |Digits(t.sec)| == m && |Digits(u.sec)| == n && IsAfter(t, u)
      && Less(StampText(u), StampText(t)) && !Less(StampText(t), StampText(u))
  {
    hide Digits;
    hide Micros;
    hide Pow10;
    PowersTo20();
    PowersGrow(m, n - 1);
    PowersGrow(n - 1, 19);
    NextPower(m - 1);
    LeadingDigit(9, m - 1);
    LeadingDigit(1, n - 1);
    var t, u := Stamp(9 * Pow10(m - 1), 0), Stamp(Pow10(n - 1), 0);
    assert StampText(t)[0] == '9' && StampText(u)[0] == '1';
  }

  lemma NextPower(k: nat)
    ensures Pow10(k + 1) == 10 * Pow10(k)
  {
  }

  lemma {:induction false} LeadingDigit(d: nat, k: nat)
    requires 1 <= d < 10
    ensures |Digits(d * Pow10(k))| == k + 1 && Digits(d * Pow10(k))[0] == DigitChar(d)
  {
    hide Digits;
    hide Pow10;
    if k == 0 {
      OneDigit(d);
    } else {
      LeadingDigit(d, k - 1);
      NextPower(k - 1);
      TimesTen(d * Pow10(k - 1));
      TimesTenFirst(d, Pow10(k - 1));
    }
  }

  lemma OneDigit(d: nat)
    requires 1 <= d < 10
    ensures d * Pow10(0) == d && Digits(d) == [DigitChar(d)]
  {
  }

  lemma TimesTen(v: nat)
    requires v > 0
    ensures Digits(10 * v) == Digits(v) + ['0']
  {
  }

  lemma TimesTenFirst(d: nat, p: nat)
    requires d >= 1 && p >= 1
    ensures d * (10 * p) == 10 * (d * p) > 0
  {
  }
}

/** What the operations of an output do to the files on the disk. */
module FileOutputModel {
  import opened Common
  import opened CStrings
  import opened Decimal
  import opened AppendNumber
  import opened Fields
  import opened Builder
  import opened ByteOrder
  import opened SampleNames

  const SEMAPHORE_EXT := ".sem"

  const MAX_LENGTH_FULL_PATH_FILE_NAME := 255

  // strstr: the position of the first occurrence, or -1.
  function Strstr(s: string, pattern: string): (k: int)
    ensures -1 <= k <= |s| - |pattern| || k == -1
  {
    if |s| < |pattern| then -1
    else if s[..|pattern|] == pattern then 0
    else if s == "" then -1
    else
      var k := Strstr(s[1..], pattern);
      if k < 0 then -1 else k + 1
  }

  // _load_filter
  predicate LoadFilter(name: string) {
    var k := Strstr(name, SEMAPHORE_EXT);
    k >= 0 && |name| - k == |SEMAPHORE_EXT|
  }

  function WithSlash(directory: string): (folder: string)
    requires directory != ""
  {
    if directory[|directory| - 1] == '/' then directory else directory + "/"
  }

  // What scandir returns: the accepted names of the folder, in byte order.
  ghost predicate IsListing(entries: seq<string>, folder: string, disk: set<string>) {
    && (forall i, j :: 0 <= i < j < |entries| ==> Less(entries[i], entries[j]))
    && (forall e :: e in entries <==> folder + e in disk && LoadFilter(e) && '/' !in e && NUL !in e)
  }

  function ToRemove(n: nat, retains: nat): (k: nat)
    ensures k <= n
  {
    if n < retains then 0 else n - retains
  }

  // The name of the csv file that belongs to a semaphore.
  function Base(entry: string): (name: string) {
    if |entry| < |SEMAPHORE_EXT| then "" else entry[..|entry| - |SEMAPHORE_EXT|]
  }

  predicate TooLong(folder: string, entry: string) {
    |entry| + |folder| >= MAX_LENGTH_FULL_PATH_FILE_NAME
  }

  // The disk after the first k entries.
  function Remove(disk: set<string>, folder: string, entries: seq<string>, k: nat): (after: set<string>)
    requires k <= |entries|
  {
    if k == 0 then disk
    else
      var before, e := Remove(disk, folder, entries, k - 1), entries[k - 1];
      if TooLong(folder, e) then before else before - {folder + e} - {folder + Base(e)}
  }

  datatype Config = Config(directory: string, filename: string, sampled: bool, retains: nat, id: u64)

  datatype State = State(path: string, active: bool, messages: u32, disk: set<string>)

  function PathAt(c: Config, now: Stamp): (path: string) {
    Built([Arr(c.directory), Time(now.sec, now.usec), Char('_'), Int(c.id), Char('_'), Arr(c.filename)], "", 254)
  }

  function SemaphorePath(path: string): (sem: string) {
    Built([Arr(path), Arr(SEMAPHORE_EXT)], "", 254)
  }

  // _create_new_file, before it looks for old files; ok says whether fopen succeeds.
  function Opened(c: Config, st: State, now: Stamp, ok: bool): (t: State) {
    var path := PathAt(c, now);
    State(path, ok, 0, if ok then st.disk + {path} else st.disk)
  }

  function Created(c: Config, st: State, now: Stamp, ok: bool, entries: seq<string>): (t: State)
    requires c.directory != ""
  {
    var s := Opened(c, st, now, ok);
    if c.id == 1 && c.retains > 0 then
      s.(disk := Remove(s.disk, WithSlash(c.directory), entries, ToRemove(|entries|, c.retains)))
    else s
  }

  // _create_semaphore_file
  function Semaphored(st: State, ok: bool): (t: State) {
    if st.messages == 0 then st.(disk := st.disk - {st.path})
    else if ok then st.(disk := st.disk + {SemaphorePath(st.path)})
    else st
  }

  // file_output_flush
  function Flushed(c: Config, st: State, now: Stamp, semOk: bool, ok: bool, entries: seq<string>): (t: State)
    requires c.directory != ""
  {
    if !st.active || !c.sampled then st
    else Created(c, Semaphored(st.(active := false), semOk), now, ok, entries)
  }

  // file_output_release
  function Released(c: Config, st: State, semOk: bool, entries: seq<string>): (t: State)
    requires c.directory != ""
  {
    var s :=
      if !st.active then st
      else if c.sampled then Semaphored(st.(active := false), semOk)
      else st.(active := false);
    if c.id == 0 && c.retains > 0 then
      s.(disk := Remove(s.disk, WithSlash(c.directory), entries, ToRemove(|entries|, c.retains)))
    else s
  }

  function Written(st: State): (t: State) {
    if st.active then st.(messages := (st.messages + 1) % TWO_32) else st
  }
}

module FileOutput {
  import opened Common
  import opened CStrings
  import opened Decimal
  import opened AppendNumber
  import opened Fields
  import opened Appending
  import opened Builder
  import opened SampleNames
  import opened FileOutputModel

  class Output {
    const config: Config
    var path: string
    var active: bool
    var messages: u32
    var disk: set<string>

    ghost function Value(): (st: State)
      reads this
    {
      State(path, active, messages, disk)
    }

    // file_output_alloc_init
    constructor (config: Config, disk: set<string>, now: Stamp, ok: bool, entries: seq<string>)
      requires Usable(config) && Accepted(entries) && InTime(now)
      ensures this.config == config
      ensures Value() == Created(config, State("", false, 0, disk), now, ok, entries)
    {
      this.config, this.disk, path, active, messages := config, disk, "", false, 0;
      new;
      CreateNewFile(now, ok, entries);
    }

    method CreateNewFile(now: Stamp, ok: bool, entries: seq<string>)
      requires Usable(config) && Accepted(entries) && InTime(now)
      modifies this
      ensures Value() == Created(config, old(Value()), now, ok, entries)
    {
      hide Built;
      hide Digits;
      messages := 0;
      path := MakePath([Arr(config.directory), Time(now.sec, now.usec), Char('_'), Int(config.id), Char('_'), Arr(config.filename)]);
      active := ok;
      if ok {
        disk := disk + {path};
      }
      if config.id == 1 && config.retains > 0 {
        RemoveOldSampledFiles(entries);
      }
    }

    method RemoveOldSampledFiles(entries: seq<string>)
      requires Usable(config) && Accepted(entries)
      modifies this`disk
      ensures disk == Remove(old(disk), WithSlash(config.directory), entries, ToRemove(|entries|, config.retains))
    {
      hide CString;
      var toRemove: int := |entries| - config.retains;
      if toRemove < 0 {
        toRemove := 0;
      }
      var fileName := new char[MAX_LENGTH_FULL_PATH_FILE_NAME](_ => NUL);
      var offset := |config.directory|;
      Copy(fileName, 0, config.directory);
      if fileName[offset - 1] != '/' {
        fileName[offset] := '/';
        offset := offset + 1;
      }
      ghost var folder := WithSlash(config.directory);
      for i := 0 to toRemove
        invariant fileName[..offset] == folder
        invariant disk == Remove(old(disk), folder, entries, i)
      {
        var entry := entries[i];
        var len := |entry|;
        if len + offset < fileName.Length {
          disk := Unlink(disk, fileName, offset, folder, entry);
        }
      }
    }

    method CreateSemaphoreFile(ok: bool)
      modifies this`disk
      ensures Value() == Semaphored(old(Value()), ok)
    {
      hide Built;
      if messages == 0 {
        disk := disk - {path};
        return;
      }
      var sem := MakePath([Arr(path), Arr(SEMAPHORE_EXT)]);
      if ok {
        disk := disk + {sem};
      }
    }

    // file_output_flush
    method Flush(now: Stamp, semOk: bool, ok: bool, entries: seq<string>)
      requires Usable(config) && Accepted(entries) && InTime(now)
      modifies this
      ensures Value() == Flushed(config, old(Value()), now, semOk, ok, entries)
    {
      hide Created;
      hide Semaphored;
      if !active {
        return;
      }
      if config.sampled {
        active := false;
        CreateSemaphoreFile(semOk);
        CreateNewFile(now, ok, entries);
      }
    }

    // file_output_release
    method Release(semOk: bool, entries: seq<string>)
      requires Usable(config) && Accepted(entries)
      modifies this
      ensures Value() == Released(config, old(Value()), semOk, entries)
    {
      hide Semaphored;
      hide Remove;
      if active {
        active := false;
        if config.sampled {
          CreateSemaphoreFile(semOk);
        }
      }
      if config.id == 0 && config.retains > 0 {
        RemoveOldSampledFiles(entries);
      }
    }

    // file_output_write
    method Write()
      modifies this
      ensures Value() == Written(old(Value()))
    {
      if active {
        messages := (messages + 1) % TWO_32;
      }
    }
  }

  // The directory is a non-empty C string that fits in the file name buffer with a slash behind it.
  predicate Usable(c: Config) {
    c.directory != "" && NUL !in c.directory && |c.directory| + 1 < MAX_LENGTH_FULL_PATH_FILE_NAME
  }

  predicate Accepted(entries: seq<string>) {
    forall k :: 0 <= k < |entries| ==> LoadFilter(entries[k]) && NUL !in entries[k]
  }

  predicate InTime(now: Stamp) {
    |Digits(now.sec)| <= 12
  }

  method MakePath(fields: seq<Field>) returns (path: string)
    requires AllSurvive(fields)
    ensures path == Built(fields, "", 254)
  {
    hide Built;
    var buffer := new char[MAX_LENGTH_FULL_PATH_FILE_NAME];
    ghost var before := buffer[..];
    var end := Build(buffer, 0, 255, "", fields);
    path := buffer[..end];
    FrontOf(before, Built(fields, "", 254) + [NUL], end);
  }

  lemma FrontOf(buf: seq<char>, text: string, k: nat)
    requires |text| <= |buf| && k <= |text|
    ensures Overwrite(buf, 0, text)[..k] == text[..k]
  {
  }

  lemma CStringAfter(buf: seq<char>, at: nat, text: string)
    requires at + |text| < |buf| && NUL !in buf[..at] && NUL !in text
    ensures CString(Overwrite(buf, at, text + [NUL])) == buf[..at] + text
  {
    hide CString;
    CStringEnded(buf[..at] + text, buf[at + |text| + 1..]);
    assert Overwrite(buf, at, text + [NUL]) == (buf[..at] + text) + [NUL] + buf[at + |text| + 1..];
  }

  lemma CutShort(buf: seq<char>, at: nat, text: string, k: nat)
    requires at + |text| < |buf| && k <= |text|
    ensures Overwrite(buf, at, text + [NUL])[at + k := NUL]
         == Overwrite(Overwrite(buf, at, text + [NUL]), at, text[..k] + [NUL])
    ensures Overwrite(buf, at, text + [NUL])[..at] == buf[..at]
  {
  }

  // Deletes the semaphore and then, with the extension cut off, the csv file.
  method Unlink(disk: set<string>, fileName: array<char>, offset: nat, ghost folder: string, entry: string)
    returns (after: set<string>)
    requires offset == |folder| && |folder| + |entry| < fileName.Length && fileName[..offset] == folder
    requires NUL !in folder && NUL !in entry && |entry| >= |SEMAPHORE_EXT|
    modifies fileName
    ensures fileName[..offset] == folder
    ensures after == disk - {folder + entry} - {folder + Base(entry)}
  {
    hide Overwrite;
    hide CString;
    ghost var before := fileName[..];
    assert before[..offset] == folder;
    Copy(fileName, offset, entry + [NUL]);
    CStringAfter(before, offset, entry);
    after := disk - {CString(fileName[..])};
    var cut := |entry| - |SEMAPHORE_EXT|;
    CutShort(before, offset, entry, cut);
    ghost var copied := fileName[..];
    fileName[offset + cut] := NUL;
    CStringAfter(copied, offset, entry[..cut]);
    CutShort(copied, offset, entry[..cut], cut);
    assert entry[..cut][..cut] == entry[..cut];
    assert fileName[..][..offset] == folder;
    after := after - {CString(fileName[..])};
  }
}
