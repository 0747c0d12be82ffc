// Whole runs of the output that removes old samples, in a folder where other outputs leave theirs.

module RetentionRuns {
  import opened Common
  import opened CStrings
  import opened Decimal
  import opened AppendNumber
  import opened Fields
  import opened Builder
  import opened ByteOrder
  import opened SampleNames
  import opened FileOutputModel
  import opened Retention

  // The output that removes old samples, for a file name that the filter does not take for a semaphore.
  ghost predicate Sampling(c: Config) {
    && c.id == 1 && c.retains > 0 && c.sampled
    && c.directory != "" && c.directory[|c.directory| - 1] == '/'
    && '/' !in c.filename && NUL !in c.filename && Strstr(c.filename, SEMAPHORE_EXT) < 0
  }

  // The name buffer has room for the path of a file of this time, its semaphore and nine bytes more.
  predicate Fits(c: Config, t: Stamp) {
    |c.directory| + |Digits(t.sec)| + 10 + |c.filename| + 13 <= 254
  }

  function Csv(c: Config, t: Stamp): (name: string) {
    CsvName(Sample(t, 1), c.filename)
  }

  function Sem(c: Config, t: Stamp): (name: string) {
    SemName(Sample(t, 1), c.filename)
  }

  lemma OneDigit()
    ensures |Digits(1)| == 1
  {
  }

  lemma CsvLength(c: Config, t: Stamp)
    ensures |Csv(c, t)| == |Digits(t.sec)| + 10 + |c.filename|
  {
    hide Digits;
    hide Micros;
    OneDigit();
  }

  lemma JoinTwo(f: Field, rest: seq<Field>)
    requires rest != []
    ensures Join([f] + rest, "") == Render(f) + Join(rest, "")
  {
    assert ([f] + rest)[1..] == rest;
  }

  lemma JoinOne(f: Field)
    ensures Join([f], "") == Render(f)
  {
  }

  lemma JoinedPath(c: Config, t: Stamp)
    requires c.id == 1
    ensures var fields :=
        [Arr(c.directory), Time(t.sec, t.usec), Char('_'), Int(c.id), Char('_'), Arr(c.filename)];
      Join(fields, "") == c.directory + Csv(c, t)
  {
    hide Join;
    hide Digits;
    hide Micros;
    var f0, f1, f2, f3, f4, f5 :=
      Arr(c.directory), Time(t.sec, t.usec), Char('_'), Int(c.id), Char('_'), Arr(c.filename);
    JoinOne(f5);
    JoinTwo(f4, [f5]);
    JoinTwo(f3, [f4, f5]);
    JoinTwo(f2, [f3, f4, f5]);
    JoinTwo(f1, [f2, f3, f4, f5]);
    JoinTwo(f0, [f1, f2, f3, f4, f5]);
    assert [f0] + [f1, f2, f3, f4, f5] == [f0, f1, f2, f3, f4, f5];
    assert [f1] + [f2, f3, f4, f5] == [f1, f2, f3, f4, f5];
    assert [f2] + [f3, f4, f5] == [f2, f3, f4, f5];
    assert [f3] + [f4, f5] == [f3, f4, f5];
    assert [f4] + [f5] == [f4, f5];
  }

  lemma JoinedSemaphore(path: string)
    ensures Join([Arr(path), Arr(SEMAPHORE_EXT)], "") == path + SEMAPHORE_EXT
  {
    hide Join;
    JoinOne(Arr(SEMAPHORE_EXT));
    JoinTwo(Arr(path), [Arr(SEMAPHORE_EXT)]);
    assert [Arr(path)] + [Arr(SEMAPHORE_EXT)] == [Arr(path), Arr(SEMAPHORE_EXT)];
  }

  // The name buffer holds the whole path.
  lemma PathExactly(c: Config, t: Stamp)
    requires c.id == 1 && Fits(c, t)
    ensures PathAt(c, t) == c.directory + Csv(c, t)
    ensures SemaphorePath(PathAt(c, t)) == c.directory + Sem(c, t)
  {
    hide Join;
    hide Built;
    hide Enough;
    hide Digits;
    hide CsvName;
    CsvLength(c, t);
    JoinedPath(c, t);
    var fields := [Arr(c.directory), Time(t.sec, t.usec), Char('_'), Int(c.id), Char('_'), Arr(c.filename)];
    NineMore(fields, "", 254);
    BuiltExactly(fields, "", 254);
    var path := c.directory + Csv(c, t);
    JoinedSemaphore(path);
    NineMore([Arr(path), Arr(SEMAPHORE_EXT)], "", 254);
    BuiltExactly([Arr(path), Arr(SEMAPHORE_EXT)], "", 254);
    assert path + SEMAPHORE_EXT == c.directory + Sem(c, t);
  }

  // ----- listings -----

  ghost predicate Sorted(names: seq<string>) {
    forall i, j :: 0 <= i < j < |names| ==> Less(names[i], names[j])
  }

  lemma {:induction false} ListingUnique(a: seq<string>, b: seq<string>)
    requires Sorted(a) && Sorted(b) && forall e :: e in a <==> e in b
    ensures a == b
  {
    hide Less;
    if a == [] {
      if b != [] {
        HasFirst(b);
      }
    } else {
      assert a[0] in b;
      SameFirst(a, b);
      forall e
        ensures e in a[1..] <==> e in b[1..]
      {
        RestOf(a, e);
        RestOf(b, e);
      }
      ListingUnique(a[1..], b[1..]);
      assert a == [a[0]] + a[1..] && b == [b[0]] + b[1..];
    }
  }

  lemma HasFirst(b: seq<string>)
    requires b != []
    ensures b[0] in b
  {
  }

  lemma SameFirst(a: seq<string>, b: seq<string>)
    requires Sorted(a) && Sorted(b) && a != [] && b != [] && a[0] in b && b[0] in a
    ensures a[0] == b[0]
  {
    hide Less;
    var j :| 0 <= j < |b| && b[j] == a[0];
    var i :| 0 <= i < |a| && a[i] == b[0];
    LessTotal(a[0], b[0]);
  }

  lemma RestOf(a: seq<string>, e: string)
    requires a != [] && Sorted(a)
    ensures e in a[1..] <==> e in a && e != a[0]
  {
    hide Less;
    if e in a[1..] {
      var k :| 0 <= k < |a[1..]| && a[1..][k] == e;
      LessTotal(a[0], a[k + 1]);
      assert Less(a[0], a[k + 1]);
    }
    if e in a && e != a[0] {
      var k :| 0 <= k < |a| && a[k] == e;
      assert a[1..][k - 1] == e;
    }
  }

  function Members(names: seq<string>): (all: set<string>) {
    set e | e in names
  }

  // A name at its place.
  function Insert(names: seq<string>, x: string): (more: seq<string>) {
    if names == [] then [x]
    else if Less(x, names[0]) then [x] + names
    else if x == names[0] then names
    else [names[0]] + Insert(names[1..], x)
  }

  lemma {:induction false} InsertMembers(names: seq<string>, x: string)
    ensures forall e :: e in Insert(names, x) <==> e in names || e == x
  {
    hide Less;
    if names != [] {
      InsertMembers(names[1..], x);
      assert names == [names[0]] + names[1..];
    }
  }

  lemma {:induction false} InsertSorted(names: seq<string>, x: string)
    requires Sorted(names)
    ensures Sorted(Insert(names, x))
  {
    hide Less;
    if names == [] {
    } else if Less(x, names[0]) {
      forall k | 0 < k < |names|
        ensures Less(x, names[k])
      {
        LessTransitive(x, names[0], names[k]);
      }
    } else if x != names[0] {
      InsertSorted(names[1..], x);
      InsertMembers(names[1..], x);
      LessTotal(x, names[0]);
      var rest := Insert(names[1..], x);
      forall k | 0 <= k < |rest|
        ensures Less(names[0], rest[k])
      {
        assert rest[k] in rest;
      }
    }
  }

  // What a folder lists after a semaphore has been added.
  lemma AddToListing(names: seq<string>, folder: string, disk: set<string>, x: string)
    requires IsListing(names, folder, disk) && LoadFilter(x) && '/' !in x && NUL !in x
    ensures IsListing(Insert(names, x), folder, disk + {folder + x})
  {
    hide Less;
    hide LoadFilter;
    hide Insert;
    InsertMembers(names, x);
    InsertSorted(names, x);
    forall e
      ensures folder + e in disk + {folder + x} <==> folder + e in disk || e == x
    {
      if folder + e == folder + x {
        SamePath(folder, e, x);
      }
    }
  }

  // Changes at names that the filter refuses leave the listing alone.
  lemma SameListing(names: seq<string>, folder: string, disk: set<string>, other: set<string>, name: string)
    requires IsListing(names, folder, disk) && !LoadFilter(name)
    requires other == disk + {folder + name} || other == disk - {folder + name}
    ensures IsListing(names, folder, other)
  {
    hide LoadFilter;
    hide Less;
    forall e | LoadFilter(e)
      ensures folder + e in other <==> folder + e in disk
    {
      if folder + e == folder + name {
        SamePath(folder, e, name);
      }
    }
  }

  predicate Plain(s: string) {
    '/' !in s && NUL !in s
  }

  lemma DigitsArePlain(s: string)
    requires AllDigits(s)
    ensures Plain(s)
  {
    assert forall k :: 0 <= k < |s| ==> IsDigit(s[k]);
  }

  lemma SampleAccepted(c: Config, s: Sample)
    requires Sampling(c)
    ensures var name := SemName(s, c.filename); LoadFilter(name) && '/' !in name && NUL !in name
    ensures !LoadFilter(CsvName(s, c.filename))
  {
    hide LoadFilter;
    hide Strstr;
    hide Micros;
    hide Digits;
    hide AllDigits;
    SampleIsLoaded(s, c.filename);
    AcceptedName(SemName(s, c.filename));
    BaseOfSem(s, c.filename);
    MicrosDigits(s.t.usec);
    DigitsArePlain(Digits(s.t.sec));
    DigitsArePlain(Micros(s.t.usec));
    DigitsArePlain(Digits(s.id));
    PlainName(Digits(s.t.sec), Micros(s.t.usec), Digits(s.id), c.filename);
    assert SemName(s, c.filename)
        == Digits(s.t.sec) + "." + Micros(s.t.usec) + "_" + Digits(s.id) + "_" + c.filename + SEMAPHORE_EXT;
  }

  lemma PlainName(sec: string, usec: string, id: string, filename: string)
    requires Plain(sec) && Plain(usec) && Plain(id) && Plain(filename)
    ensures Plain(sec + "." + usec + "_" + id + "_" + filename + SEMAPHORE_EXT)
  {
  }

  // ----- the newest names -----

  // A folder lists some of the names announced so far; for each one that it does not list there are r greater ones.
  ghost predicate Keeps(listing: seq<string>, announced: set<string>, r: nat) {
    && (forall e :: e in listing ==> e in announced)
    && forall d :: d in announced && d !in listing ==> 0 < r <= |listing| && Less(d, listing[|listing| - r])
  }

  // It lists exactly the r greatest, or all if there are no more.
  ghost predicate Newest(listing: seq<string>, announced: set<string>, r: nat) {
    && |listing| <= r && (forall e :: e in listing ==> e in announced)
    && forall d :: d in announced && d !in listing ==> |listing| == r && forall e :: e in listing ==> Less(d, e)
  }

  // Counted from the end, names only move up.
  lemma {:induction false} InsertMovesUp(names: seq<string>, x: string, r: nat)
    requires Sorted(names) && 0 < r <= |names|
    ensures var more := Insert(names, x);
      |names| <= |more| <= |names| + 1
      && (more[|more| - r] == names[|names| - r] || Less(names[|names| - r], more[|more| - r]))
  {
    hide Less;
    if !Less(x, names[0]) && x != names[0] {
      LessTotal(x, names[0]);
      InsertLength(names[1..], x);
      InsertMembers(names[1..], x);
      if r < |names| {
        InsertMovesUp(names[1..], x, r);
      } else {
        var rest := Insert(names[1..], x);
        assert rest[0] in rest;
      }
    }
  }

  lemma {:induction false} InsertLength(names: seq<string>, x: string)
    ensures |names| <= |Insert(names, x)| <= |names| + 1 && |Insert(names, x)| > 0
  {
    hide Less;
    if names != [] {
      InsertLength(names[1..], x);
    }
  }

  lemma AnnounceKeeps(listing: seq<string>, announced: set<string>, r: nat, x: string)
    requires Sorted(listing) && Keeps(listing, announced, r)
    ensures Keeps(Insert(listing, x), announced + {x}, r)
  {
    hide Less;
    hide Insert;
    InsertMembers(listing, x);
    var more := Insert(listing, x);
    forall d | d in announced && d !in more
      ensures 0 < r <= |more| && Less(d, more[|more| - r])
    {
      InsertMovesUp(listing, x, r);
      if more[|more| - r] != listing[|listing| - r] {
        LessTransitive(d, listing[|listing| - r], more[|more| - r]);
      }
    }
  }

  // A removal leaves the newest.
  lemma RemovalLeavesNewest(listing: seq<string>, announced: set<string>, r: nat)
    requires Sorted(listing) && Keeps(listing, announced, r) && r > 0
    ensures Newest(listing[ToRemove(|listing|, r)..], announced, r)
  {
    hide Less;
    var n := ToRemove(|listing|, r);
    var rest := listing[n..];
    forall d | d in announced && d !in rest
      ensures |rest| == r && forall e :: e in rest ==> Less(d, e)
    {
      forall e | e in rest
        ensures Less(d, e)
      {
        var j :| 0 <= j < |rest| && rest[j] == e;
        if d in listing {
          EarlierIsLess(listing, n, d, n + j);
        } else if j > 0 {
          assert Less(listing[n], listing[n + j]);
          LessTransitive(d, listing[n], e);
        }
      }
      if d in listing {
        NothingCut(listing, n, d);
      }
    }
  }

  lemma EarlierIsLess(listing: seq<string>, n: nat, d: string, j: nat)
    requires Sorted(listing) && n <= j < |listing| && d in listing && d !in listing[n..]
    ensures Less(d, listing[j])
  {
    hide Less;
    assert listing == listing[..n] + listing[n..];
    var i :| 0 <= i < n && listing[..n][i] == d;
    assert listing[i] == d;
  }

  lemma NothingCut(listing: seq<string>, n: nat, d: string)
    requires n <= |listing| && d in listing && d !in listing[n..]
    ensures n > 0
  {
    assert listing[0..] == listing;
  }

  lemma NewestKeeps(listing: seq<string>, announced: set<string>, r: nat)
    requires Newest(listing, announced, r) && r > 0
    ensures Keeps(listing, announced, r)
  {
    hide Less;
    if listing != [] {
      HasFirst(listing);
    }
  }

  // ----- runs -----

  // The output and what happened so far: the time of its current file and the messages written since it was opened,
  // what the folder lists, and all names that it ever listed.
  datatype World = World(output: State, current: Stamp, written: nat, listing: seq<string>, announced: set<string>)

  // A message, a flush of this output, a semaphore of another output, and a csv file of another output, which comes
  // or goes. In a flush, fopen may fail for the semaphore and for the new file.
  datatype Event =
    | Message
    | Flush(now: Stamp, semOk: bool, ok: bool, entries: seq<string>)
    | Announce(sample: Sample)
    | Change(sample: Sample, there: bool)

  ghost predicate Possible(c: Config, w: World, e: Event)
    requires c.directory != ""
  {
    match e
    case Message => true
    case Flush(now, semOk, ok, entries) =>
      w.output.active ==>
        Fits(c, now)
        && IsListing(entries, c.directory, Opened(c, Semaphored(w.output.(active := false), semOk), now, ok).disk)
    case Announce(sample) => !TooLong(c.directory, SemName(sample, c.filename))
    case Change(sample, there) => true
  }

  function Next(c: Config, w: World, e: Event): (v: World)
    requires c.directory != ""
  {
    match e
    case Message => w.(output := Written(w.output), written := if w.output.active then w.written + 1 else w.written)
    case Flush(now, semOk, ok, entries) =>
      var st := Flushed(c, w.output, now, semOk, ok, entries);
      if !w.output.active || !c.sampled then w.(output := st)
      else
        World(st, now, 0, entries[ToRemove(|entries|, c.retains)..], w.announced + Members(entries))
    case Announce(sample) =>
      var name := SemName(sample, c.filename);
      w.(output := w.output.(disk := w.output.disk + {c.directory + name}),
         listing := Insert(w.listing, name), announced := w.announced + {name})
    case Change(sample, there) =>
      var path, disk := c.directory + CsvName(sample, c.filename), w.output.disk;
      w.(output := w.output.(disk := if there then disk + {path} else disk - {path}))
  }

  ghost predicate AllFit(c: Config, names: seq<string>) {
    forall k :: 0 <= k < |names| ==> !TooLong(c.directory, names[k])
  }

  ghost predicate Invariant(c: Config, w: World) {
    && IsListing(w.listing, c.directory, w.output.disk) && AllFit(c, w.listing)
    && Keeps(w.listing, w.announced, c.retains)
    && (w.output.active ==>
          && Fits(c, w.current) && w.output.path == c.directory + Csv(c, w.current)
          && w.output.messages == w.written % TWO_32)
  }

  // What the folder lists once the current file is closed.
  function Closed(c: Config, w: World, semOk: bool): (names: seq<string>) {
    if w.written % TWO_32 != 0 && semOk then Insert(w.listing, Sem(c, w.current)) else w.listing
  }

  // Closing the current file announces it, unless the number of its messages is a multiple of 2^32: then it is deleted.
  lemma CloseExactly(c: Config, w: World, semOk: bool)
    requires Sampling(c) && Invariant(c, w) && w.output.active
    ensures var disk := Semaphored(w.output.(active := false), semOk).disk;
      && disk == (if w.written % TWO_32 == 0 then w.output.disk - {w.output.path}
                  else if semOk then w.output.disk + {c.directory + Sem(c, w.current)} else w.output.disk)
      && IsListing(Closed(c, w, semOk), c.directory, disk)
  {
    hide LoadFilter;
    hide Strstr;
    hide Less;
    hide Digits;
    hide SemaphorePath;
    hide PathAt;
    hide CsvName;
    hide Insert;
    hide Keeps;
    hide AllFit;
    PathExactly(c, w.current);
    SampleAccepted(c, Sample(w.current, 1));
    if w.written % TWO_32 == 0 {
      SameListing(w.listing, c.directory, w.output.disk, w.output.disk - {w.output.path}, Csv(c, w.current));
    } else if semOk {
      AddToListing(w.listing, c.directory, w.output.disk, Sem(c, w.current));
    }
  }

  lemma ClosedKeeps(c: Config, w: World, semOk: bool)
    requires Sampling(c) && Invariant(c, w) && w.output.active
    ensures AllFit(c, Closed(c, w, semOk))
    ensures Keeps(Closed(c, w, semOk), w.announced + Members(Closed(c, w, semOk)), c.retains)
  {
    hide LoadFilter;
    hide Strstr;
    hide Less;
    hide Fits;
    hide Insert;
    hide Keeps;
    hide Csv;
    hide Sem;
    hide TooLong;
    var x := Sem(c, w.current);
    NotTooLong(c, w.current);
    InsertMembers(w.listing, x);
    AnnounceKeeps(w.listing, w.announced, c.retains, x);
    SetOf(w.listing, w.announced, x, c.retains);
    InsertFits(c, w.listing, x);
  }

  lemma InsertFits(c: Config, names: seq<string>, x: string)
    requires AllFit(c, names) && !TooLong(c.directory, x)
    ensures AllFit(c, Insert(names, x))
  {
    hide Less;
    hide TooLong;
    hide Insert;
    InsertMembers(names, x);
    var more := Insert(names, x);
    forall k | 0 <= k < |more|
      ensures !TooLong(c.directory, more[k])
    {
      assert more[k] in more;
    }
  }

  lemma SetOf(names: seq<string>, announced: set<string>, x: string, r: nat)
    requires Keeps(names, announced, r)
    ensures announced + Members(names) == announced
    ensures announced + Members(Insert(names, x)) == announced + {x}
  {
    hide Less;
    hide Insert;
    InsertMembers(names, x);
  }

  lemma NotTooLong(c: Config, t: Stamp)
    requires Fits(c, t)
    ensures !TooLong(c.directory, Sem(c, t))
  {
    hide Digits;
    hide CsvName;
    CsvLength(c, t);
  }

  // A flush announces the current file exactly if the number of its messages is not a multiple of 2^32 and its
  // semaphore can be created; it leaves exactly the newest of all names ever announced.
  lemma FlushKeepsNewest(c: Config, w: World, e: Event)
    requires Sampling(c) && Invariant(c, w) && Possible(c, w, e) && e.Flush? && w.output.active
    ensures var v := Next(c, w, e);
      && Invariant(c, v) && Newest(v.listing, v.announced, c.retains)
      && v.announced == w.announced + (if w.written % TWO_32 != 0 && e.semOk then {Sem(c, w.current)} else {})
  {
    hide LoadFilter;
    hide Strstr;
    hide Less;
    hide Digits;
    hide Semaphored;
    hide PathAt;
    hide CsvName;
    hide Remove;
    hide Insert;
    hide Keeps;
    hide Newest;
    hide Closed;
    hide TooLong;
    var closed, s := Closed(c, w, e.semOk), Semaphored(w.output.(active := false), e.semOk);
    CloseExactly(c, w, e.semOk);
    ClosedKeeps(c, w, e.semOk);
    PathExactly(c, e.now);
    SampleAccepted(c, Sample(e.now, 1));
    var disk := Opened(c, s, e.now, e.ok).disk;
    if e.ok {
      SameListing(closed, c.directory, s.disk, disk, Csv(c, e.now));
    }
    ListingUnique(e.entries, closed);
    RemovalExactly(disk, c.directory, closed, ToRemove(|closed|, c.retains));
    RemovalLeavesNewest(closed, w.announced + Members(closed), c.retains);
    NewestKeeps(closed[ToRemove(|closed|, c.retains)..], w.announced + Members(closed), c.retains);
    AnnouncedByClosing(c, w, e.semOk);
  }

  lemma AnnouncedByClosing(c: Config, w: World, semOk: bool)
    requires Keeps(w.listing, w.announced, c.retains)
    ensures w.announced + Members(Closed(c, w, semOk))
         == w.announced + (if w.written % TWO_32 != 0 && semOk then {Sem(c, w.current)} else {})
  {
    hide Less;
    hide Keeps;
    hide Insert;
    hide Sem;
    SetOf(w.listing, w.announced, Sem(c, w.current), c.retains);
  }

  lemma OtherEventKeeps(c: Config, w: World, e: Event)
    requires Sampling(c) && Invariant(c, w) && Possible(c, w, e) && (e.Flush? ==> !w.output.active)
    ensures Invariant(c, Next(c, w, e))
  {
    hide LoadFilter;
    hide Strstr;
    hide Less;
    hide Fits;
    hide CsvName;
    hide Insert;
    hide Keeps;
    hide AllFit;
    hide TooLong;
    match e
    case Message =>
    case Flush(now, semOk, ok, entries) =>
    case Announce(sample) =>
      var x := SemName(sample, c.filename);
      SampleAccepted(c, sample);
      AddToListing(w.listing, c.directory, w.output.disk, x);
      InsertFits(c, w.listing, x);
      AnnounceKeeps(w.listing, w.announced, c.retains, x);
    case Change(sample, there) =>
      SampleAccepted(c, sample);
      SameListing(w.listing, c.directory, w.output.disk, Next(c, w, e).output.disk, CsvName(sample, c.filename));
  }

  ghost predicate IsRun(c: Config, trace: seq<World>, events: seq<Event>) {
    && c.directory != "" && |trace| == |events| + 1
    && forall k :: 0 <= k < |events| ==> Possible(c, trace[k], events[k]) && trace[k + 1] == Next(c, trace[k], events[k])
  }

  lemma {:induction false} EveryRunKeepsInvariant(c: Config, trace: seq<World>, events: seq<Event>)
    requires Sampling(c) && IsRun(c, trace, events) && Invariant(c, trace[0])
    ensures forall k :: 0 <= k < |trace| ==> Invariant(c, trace[k])
  {
    hide Sampling;
    hide Invariant;
    hide Possible;
    hide Next;
    if events != [] {
      var n := |events| - 1;
      EveryRunKeepsInvariant(c, trace[..n + 1], events[..n]);
      assert trace[..n + 1][n] == trace[n];
      if events[n].Flush? && trace[n].output.active {
        FlushKeepsNewest(c, trace[n], events[n]);
      } else {
        OtherEventKeeps(c, trace[n], events[n]);
      }
    }
  }

  // The world right after file_output_alloc_init, in a folder with old samples.
  function Begun(c: Config, disk: set<string>, now: Stamp, ok: bool, entries: seq<string>): (w: World)
    requires c.directory != ""
  {
    World(Created(c, State("", false, 0, disk), now, ok, entries), now, 0,
          entries[ToRemove(|entries|, c.retains)..], Members(entries))
  }

  lemma BeginsWithNewest(c: Config, disk: set<string>, now: Stamp, ok: bool, entries: seq<string>)
    requires Sampling(c) && Fits(c, now) && IsListing(entries, c.directory, disk) && AllFit(c, entries)
    ensures var w := Begun(c, disk, now, ok, entries); Invariant(c, w) && Newest(w.listing, w.announced, c.retains)
  {
    hide LoadFilter;
    hide Strstr;
    hide Less;
    hide Digits;
    hide PathAt;
    hide CsvName;
    hide Remove;
    hide Keeps;
    hide Newest;
    hide TooLong;
    PathExactly(c, now);
    SampleAccepted(c, Sample(now, 1));
    var disk0 := Opened(c, State("", false, 0, disk), now, ok).disk;
    if ok {
      SameListing(entries, c.directory, disk, disk0, Csv(c, now));
    }
    RemovalExactly(disk0, c.directory, entries, ToRemove(|entries|, c.retains));
    AllAnnounced(entries, c.retains);
    RemovalLeavesNewest(entries, Members(entries), c.retains);
    NewestKeeps(entries[ToRemove(|entries|, c.retains)..], Members(entries), c.retains);
  }

  lemma AllAnnounced(entries: seq<string>, r: nat)
    ensures Keeps(entries, Members(entries), r)
  {
    hide Less;
  }

  // After every flush of any run that begins with the first file, whatever is on the disk then: the folder lists
  // exactly the newest of all names that it ever listed, as many as are to be retained.
  lemma EveryFlushKeepsNewest(c: Config, disk: set<string>, now: Stamp, ok: bool, entries: seq<string>,
                              trace: seq<World>, events: seq<Event>, k: nat, listed: seq<string>)
    requires Sampling(c) && Fits(c, now) && IsListing(entries, c.directory, disk) && AllFit(c, entries)
    requires IsRun(c, trace, events) && trace[0] == Begun(c, disk, now, ok, entries)
    requires k < |events| && events[k].Flush? && trace[k].output.active
    requires IsListing(listed, c.directory, trace[k + 1].output.disk)
    ensures Newest(listed, trace[k + 1].announced, c.retains)
  {
    hide Sampling;
    hide Fits;
    hide Next;
    hide Possible;
    hide Newest;
    hide Keeps;
    hide Begun;
    hide LoadFilter;
    hide Less;
    BeginsWithNewest(c, disk, now, ok, entries);
    EveryRunKeepsInvariant(c, trace, events);
    FlushKeepsNewest(c, trace[k], events[k]);
    ListingUnique(listed, trace[k + 1].listing);
  }

  // In terms of time: no sample that is gone is newer than one that stays, for proper times with as many digits.
  lemma GoneIsNotNewer(listed: seq<string>, announced: set<string>, r: nat, gone: Sample, stays: Sample, filename: string)
    requires Newest(listed, announced, r)
    requires SemName(gone, filename) in announced && SemName(gone, filename) !in listed && SemName(stays, filename) in listed
    requires Proper(gone.t) && Proper(stays.t) && |Digits(gone.t.sec)| == |Digits(stays.t.sec)|
    ensures |listed| == r && !IsAfter(stays.t, gone.t)
  {
    hide Less;
    hide Digits;
    hide SemName;
    NamesInTimeOrder(gone, stays, filename);
  }

  function Messages(events: seq<Event>): (n: nat) {
    if events == [] then 0
    else Messages(events[..|events| - 1]) + (if events[|events| - 1].Message? then 1 else 0)
  }

  // Until the next flush the messages are counted, one by one, whatever the other outputs do.
  lemma {:induction false} MessagesAreCounted(c: Config, trace: seq<World>, events: seq<Event>)
    requires IsRun(c, trace, events) && trace[0].output.active
    requires forall k :: 0 <= k < |events| ==> !events[k].Flush?
    ensures var v := trace[|events|];
      && v.output.active && v.current == trace[0].current && v.written == trace[0].written + Messages(events)
  {
    hide Insert;
    hide CsvName;
    if events != [] {
      var n := |events| - 1;
      MessagesAreCounted(c, trace[..n + 1], events[..n]);
      assert trace[..n + 1][n] == trace[n];
    }
  }

  // From its first message to its flush: a file is lost exactly if the number of its messages is a multiple of 2^32.
  lemma LostExactly(c: Config, trace: seq<World>, events: seq<Event>, now: Stamp, ok: bool, entries: seq<string>)
    requires Sampling(c) && IsRun(c, trace, events) && Invariant(c, trace[0])
    requires trace[0].output.active && trace[0].written == 0
    requires forall k :: 0 <= k < |events| ==> !events[k].Flush?
    requires Sem(c, trace[0].current) !in trace[|events|].announced
    requires Possible(c, trace[|events|], Flush(now, true, ok, entries))
    ensures Sem(c, trace[0].current) !in Next(c, trace[|events|], Flush(now, true, ok, entries)).announced
       <==> Messages(events) % TWO_32 == 0
  {
    hide Sampling;
    hide Invariant;
    hide Possible;
    hide Sem;
    hide Next;
    MessagesAreCounted(c, trace, events);
    EveryRunKeepsInvariant(c, trace, events);
    FlushKeepsNewest(c, trace[|events|], Flush(now, true, ok, entries));
  }

  // The last file is treated like any other one when the output is released: it is announced, or deleted if the number
  // of its messages is a multiple of 2^32.
  lemma ReleaseExactly(c: Config, w: World, semOk: bool, entries: seq<string>)
    requires Sampling(c) && Invariant(c, w)
    ensures var t := Released(c, w.output, semOk, entries);
      && !t.active
      && (!w.output.active ==> t.disk == w.output.disk)
      && (w.output.active ==>
            && IsListing(Closed(c, w, semOk), c.directory, t.disk)
            && (w.written % TWO_32 == 0 ==> t.disk == w.output.disk - {c.directory + Csv(c, w.current)})
            && (w.written % TWO_32 != 0 && semOk ==> t.disk == w.output.disk + {c.directory + Sem(c, w.current)})
            && (w.written % TWO_32 != 0 && !semOk ==> t.disk == w.output.disk))
  {
    hide IsListing;
    hide Keeps;
    hide AllFit;
    hide Semaphored;
    hide Closed;
    hide Sem;
    hide Csv;
    hide Strstr;
    if w.output.active {
      CloseExactly(c, w, semOk);
      OnlyTheDisk(w.output.(active := false), semOk);
    }
  }

  lemma OnlyTheDisk(st: State, ok: bool)
    ensures Semaphored(st, ok) == st.(disk := Semaphored(st, ok).disk)
  {
    hide SemaphorePath;
  }

  // Output 0 removes old samples when it is released: then too the newest ones are left.
  lemma ReleaseKeepsNewest(c: Config, st: State, semOk: bool, entries: seq<string>, announced: set<string>)
    requires c.id == 0 && c.retains > 0 && c.directory != "" && c.directory[|c.directory| - 1] == '/'
    requires IsListing(entries, c.directory, if st.active && c.sampled then Semaphored(st.(active := false), semOk).disk else st.disk)
    requires AllFit(c, entries) && Keeps(entries, announced, c.retains)
    ensures var rest := entries[ToRemove(|entries|, c.retains)..];
      IsListing(rest, c.directory, Released(c, st, semOk, entries).disk) && Newest(rest, announced, c.retains)
  {
    hide LoadFilter;
    hide Less;
    hide Semaphored;
    hide Remove;
    hide Keeps;
    hide Newest;
    hide TooLong;
    var disk := if st.active && c.sampled then Semaphored(st.(active := false), semOk).disk else st.disk;
    RemovalExactly(disk, c.directory, entries, ToRemove(|entries|, c.retains));
    RemovalLeavesNewest(entries, announced, c.retains);
  }

  // Without an open file neither a message nor a flush does anything; an output that is not sampled keeps its file.
  lemma IdleOrNotSampled(c: Config, st: State, now: Stamp, semOk: bool, ok: bool, entries: seq<string>)
    requires c.directory != ""
    ensures !st.active ==> Written(st) == st && Flushed(c, st, now, semOk, ok, entries) == st
    ensures !c.sampled ==> Flushed(c, st, now, semOk, ok, entries) == st
    ensures !c.sampled && c.id != 0 ==> Released(c, st, semOk, entries) == st.(active := false)
  {
    hide Created;
  }

  // Only output 1 looks for old files when it opens one; any other output just has its new file on the disk.
  lemma OtherOutputsRemoveNothing(c: Config, st: State, now: Stamp, ok: bool, entries: seq<string>)
    requires c.directory != "" && c.id != 1
    ensures var t := Created(c, st, now, ok, entries);
      t == State(PathAt(c, now), ok, 0, if ok then st.disk + {PathAt(c, now)} else st.disk)
  {
    hide PathAt;
  }

  // The new file of a flush is there, unless a sample of the very same name is among the old ones.
  lemma NewFileIsThere(c: Config, w: World, e: Event)
    requires Sampling(c) && Invariant(c, w) && Possible(c, w, e) && e.Flush? && w.output.active
    requires e.ok && Sem(c, e.now) !in e.entries
    ensures c.directory + Csv(c, e.now) in Next(c, w, e).output.disk
  {
    hide LoadFilter;
    hide Strstr;
    hide Less;
    hide Semaphored;
    hide PathAt;
    hide CsvName;
    hide Remove;
    hide Keeps;
    hide AllFit;
    hide TooLong;
    hide IsListing;
    var path, n := c.directory + Csv(c, e.now), ToRemove(|e.entries|, c.retains);
    PathExactly(c, e.now);
    RemoveMembers(Opened(c, Semaphored(w.output.(active := false), e.semOk), e.now, true).disk, c.directory, e.entries, n, path);
    forall k | 0 <= k < n
      ensures path != c.directory + e.entries[k] && path != c.directory + Base(e.entries[k])
    {
      NotTheSample(c, e.now, e.entries, k, Opened(c, Semaphored(w.output.(active := false), e.semOk), e.now, true).disk);
    }
  }

  lemma NotTheSample(c: Config, now: Stamp, entries: seq<string>, k: nat, disk: set<string>)
    requires Sampling(c) && k < |entries| && IsListing(entries, c.directory, disk) && Sem(c, now) !in entries
    ensures c.directory + Csv(c, now) != c.directory + entries[k] && c.directory + Csv(c, now) != c.directory + Base(entries[k])
  {
    hide LoadFilter;
    hide Strstr;
    hide Less;
    hide CsvName;
    hide Base;
    var name := entries[k];
    assert name in entries;
    SampleAccepted(c, Sample(now, 1));
    AcceptedName(name);
    if c.directory + Csv(c, now) == c.directory + name {
      SamePath(c.directory, Csv(c, now), name);
    }
    if c.directory + Csv(c, now) == c.directory + Base(name) {
      SamePath(c.directory, Csv(c, now), Base(name));
    }
  }
}
