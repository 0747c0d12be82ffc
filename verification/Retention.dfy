// Retention keeps the newest samples: src/modules/output/file/file_output.c.

module Retention {
  import opened Common
  import opened CStrings
  import opened Decimal
  import opened AppendNumber
  import opened Fields
  import opened Builder
  import opened Reading
  import opened ByteOrder
  import opened SampleNames
  import opened FileOutputModel

  // ----- the filter -----

  lemma {:induction false} FilterExactly(base: string)
    ensures LoadFilter(base + SEMAPHORE_EXT) <==> Strstr(base, SEMAPHORE_EXT) < 0
  {
    var s := base + SEMAPHORE_EXT;
    if base == "" {
      assert s == SEMAPHORE_EXT && s[..4] == SEMAPHORE_EXT;
    } else {
      FilterExactly(base[1..]);
      assert s[1..] == base[1..] + SEMAPHORE_EXT;
      if |base| >= 4 {
        assert s[..4] == base[..4];
      } else {
        assert s[..4][|base|] == '.' && SEMAPHORE_EXT[|base|] != '.';
      }
    }
  }

  // An accepted name is a base name, itself not accepted, with the extension.
  lemma {:induction false} AcceptedName(name: string)
    requires LoadFilter(name)
    ensures |name| >= 4 && name == Base(name) + SEMAPHORE_EXT && !LoadFilter(Base(name))
  {
    StrstrFinds(name);
    assert name == Base(name) + SEMAPHORE_EXT;
    FilterExactly(Base(name));
  }

  lemma {:induction false} StrstrFinds(s: string)
    requires Strstr(s, SEMAPHORE_EXT) >= 0
    ensures var k := Strstr(s, SEMAPHORE_EXT); s[k..k + 4] == SEMAPHORE_EXT
  {
    if s[..4] != SEMAPHORE_EXT {
      StrstrFinds(s[1..]);
      var k := Strstr(s[1..], SEMAPHORE_EXT);
      assert s[1..][k..k + 4] == s[k + 1..k + 5];
    }
  }

  // Where no dot of p is followed by an s, the extension does not begin in p.
  lemma {:induction false} NotInPrefix(p: string, s: string)
    requires forall k :: 0 <= k < |p| && p[k] == '.' ==> k + 1 < |p| && p[k + 1] != 's'
    ensures Strstr(p + s, SEMAPHORE_EXT) < 0 <==> Strstr(s, SEMAPHORE_EXT) < 0
  {
    if p == "" {
      assert p + s == s;
    } else {
      NotInPrefix(p[1..], s);
      assert (p + s)[1..] == p[1..] + s;
      if |p + s| >= 4 {
        assert (p + s)[..4][0] == p[0];
        if p[0] == '.' {
          assert (p + s)[..4][1] == p[1];
        }
      }
    }
  }

  datatype Sample = Sample(t: Stamp, id: u64)

  function CsvName(s: Sample, filename: string): (name: string) {
    StampText(s.t) + ("_" + Digits(s.id) + "_" + filename)
  }

  function SemName(s: Sample, filename: string): (name: string) {
    CsvName(s, filename) + SEMAPHORE_EXT
  }

  lemma MicrosDigits(usec: nat)
    ensures AllDigits(Micros(usec))
  {
    hide Digits;
  }

  // The semaphore of a sample is looked at exactly when the configured file name does not contain the extension.
  lemma SampleIsLoaded(s: Sample, filename: string)
    ensures LoadFilter(SemName(s, filename)) <==> Strstr(filename, SEMAPHORE_EXT) < 0
  {
    hide Digits;
    hide Strstr;
    hide Micros;
    hide LoadFilter;
    MicrosDigits(s.t.usec);
    var p := StampText(s.t) + "_" + Digits(s.id) + "_";
    assert CsvName(s, filename) == p + filename;
    forall k | 0 <= k < |p|
      ensures p[k] == '.' ==> k + 1 < |p| && p[k + 1] != 's'
    {
      DotPlace(s, k);
    }
    NotInPrefix(p, filename);
    FilterExactly(CsvName(s, filename));
  }

  // The only dot before the file name is that of the time, and a digit follows it.
  lemma DotPlace(s: Sample, k: nat)
    requires k < |StampText(s.t) + "_" + Digits(s.id) + "_"|
    ensures var p := StampText(s.t) + "_" + Digits(s.id) + "_"; p[k] == '.' ==> k + 1 < |p| && p[k + 1] != 's'
  {
    hide Digits;
    hide Micros;
    MicrosDigits(s.t.usec);
    var d, m, i := Digits(s.t.sec), Micros(s.t.usec), Digits(s.id);
    var p := StampText(s.t) + "_" + i + "_";
    assert p == d + "." + m + "_" + i + "_";
    if k < |d| {
      assert p[k] == d[k];
    } else if k == |d| {
      assert p[k + 1] == m[0];
    } else if k < |d| + 7 {
      assert p[k] == m[k - |d| - 1];
    } else if |d| + 7 < k < |d| + 8 + |i| {
      assert p[k] == i[k - |d| - 8];
    }
  }

  // ----- one removal -----

  lemma {:induction false} RemoveMembers(disk: set<string>, folder: string, entries: seq<string>, n: nat, p: string)
    requires n <= |entries|
    ensures p in Remove(disk, folder, entries, n) <==>
            p in disk && forall k :: 0 <= k < n ==>
              TooLong(folder, entries[k]) || (p != folder + entries[k] && p != folder + Base(entries[k]))
  {
    hide Base;
    hide TooLong;
    if n > 0 {
      RemoveMembers(disk, folder, entries, n - 1, p);
    }
  }

  lemma SamePath(folder: string, a: string, b: string)
    requires folder + a == folder + b
    ensures a == b
  {
    assert (folder + a)[|folder|..] == a && (folder + b)[|folder|..] == b;
  }

  // Exactly the first n semaphores and their csv files are deleted; what is listed afterwards is the rest.
  lemma RemovalExactly(disk: set<string>, folder: string, entries: seq<string>, n: nat)
    requires IsListing(entries, folder, disk) && n <= |entries|
    requires forall k :: 0 <= k < n ==> !TooLong(folder, entries[k])
    ensures var after := Remove(disk, folder, entries, n);
      && (forall p :: p in after <==>
            p in disk && forall k :: 0 <= k < n ==> p != folder + entries[k] && p != folder + Base(entries[k]))
      && IsListing(entries[n..], folder, after)
  {
    hide Remove;
    hide LoadFilter;
    hide Less;
    hide Base;
    hide TooLong;
    var after, rest := Remove(disk, folder, entries, n), entries[n..];
    forall p
      ensures p in after <==>
              p in disk && forall k :: 0 <= k < n ==> p != folder + entries[k] && p != folder + Base(entries[k])
    {
      RemoveMembers(disk, folder, entries, n, p);
    }
    forall e
      ensures e in rest <==> folder + e in after && LoadFilter(e) && '/' !in e && NUL !in e
    {
      if e in rest {
        RestStays(disk, folder, entries, n, e);
      }
      if folder + e in after && LoadFilter(e) && '/' !in e && NUL !in e {
        InRest(folder, entries, n, e);
      }
    }
  }

  lemma InRest(folder: string, entries: seq<string>, n: nat, e: string)
    requires n <= |entries| && e in entries && forall k :: 0 <= k < n ==> folder + e != folder + entries[k]
    ensures e in entries[n..]
  {
    var j :| 0 <= j < |entries| && entries[j] == e;
    assert folder + e == folder + entries[j];
    assert e == entries[n..][j - n];
  }

  lemma RestStays(disk: set<string>, folder: string, entries: seq<string>, n: nat, e: string)
    requires IsListing(entries, folder, disk) && n <= |entries| && e in entries[n..]
    ensures e in entries
    ensures forall k :: 0 <= k < n ==> folder + e != folder + entries[k] && folder + e != folder + Base(entries[k])
  {
    hide LoadFilter;
    hide Less;
    hide Base;
    var j :| n <= j < |entries| && entries[j] == e;
    forall k | 0 <= k < n
      ensures folder + e != folder + entries[k] && folder + e != folder + Base(entries[k])
    {
      LessTotal(e, e);
      assert Less(entries[k], entries[j]);
      assert entries[k] in entries;
      AcceptedName(entries[k]);
      assert e in entries;
      if folder + e == folder + entries[k] {
        SamePath(folder, e, entries[k]);
      }
      if folder + e == folder + Base(entries[k]) {
        SamePath(folder, e, Base(entries[k]));
      }
    }
  }

  // The folder is the configured directory, with one slash at its end.
  lemma FolderEndsWithSlash(directory: string)
    requires directory != ""
    ensures var folder := WithSlash(directory);
      folder[|folder| - 1] == '/' && (folder == directory || (folder == directory + "/" && directory[|directory| - 1] != '/'))
  {
  }

  // What a folder lists are samples of one file name, whose seconds have d digits.
  ghost predicate AreSamples(samples: seq<Sample>, d: nat, filename: string, entries: seq<string>) {
    |samples| == |entries| && forall k :: 0 <= k < |samples| ==>
      entries[k] == SemName(samples[k], filename) && Proper(samples[k].t) && |Digits(samples[k].t.sec)| == d
  }

  // The order of the names never contradicts the time.
  lemma NamesInTimeOrder(s: Sample, t: Sample, filename: string)
    requires Proper(s.t) && Proper(t.t) && |Digits(s.t.sec)| == |Digits(t.t.sec)|
    requires Less(SemName(s, filename), SemName(t, filename))
    ensures !IsAfter(t.t, s.t)
  {
    hide Less;
    hide Digits;
    hide StampText;
    var x, y := "_" + Digits(s.id) + "_" + filename + SEMAPHORE_EXT, "_" + Digits(t.id) + "_" + filename + SEMAPHORE_EXT;
    StampOrder(s.t, t.t, x, y);
    assert SemName(s, filename) == StampText(s.t) + x;
    assert SemName(t, filename) == StampText(t.t) + y;
  }

  // A removal leaves the retained number of samples, and no deleted one is newer than one that stays.
  lemma RemovalKeepsNewest(disk: set<string>, folder: string, entries: seq<string>, retains: nat,
                           samples: seq<Sample>, d: nat, filename: string)
    requires IsListing(entries, folder, disk) && AreSamples(samples, d, filename, entries)
    requires forall k :: 0 <= k < |entries| ==> !TooLong(folder, entries[k])
    ensures var n, after := ToRemove(|entries|, retains), Remove(disk, folder, entries, ToRemove(|entries|, retains));
      && |samples| - n == (if |samples| <= retains then |samples| else retains)
      && (forall k :: 0 <= k < |samples| ==> (folder + SemName(samples[k], filename) in after <==> k >= n))
      && (forall k :: 0 <= k < n ==> folder + CsvName(samples[k], filename) !in after)
      && forall i, j :: 0 <= i < n <= j < |samples| ==> !IsAfter(samples[j].t, samples[i].t)
  {
    hide Remove;
    hide LoadFilter;
    hide Less;
    hide TooLong;
    hide Base;
    hide CsvName;
    hide Digits;
    var n := ToRemove(|entries|, retains);
    RemovalExactly(disk, folder, entries, n);
    forall k | 0 <= k < |samples|
      ensures folder + SemName(samples[k], filename) in Remove(disk, folder, entries, n) <==> k >= n
      ensures k < n ==> folder + CsvName(samples[k], filename) !in Remove(disk, folder, entries, n)
    {
      BaseOfSem(samples[k], filename);
      assert entries[k] in entries;
      if k >= n {
        assert entries[k] == entries[n..][k - n];
        assert entries[k] in entries[n..];
      }
    }
    forall i, j | 0 <= i < n <= j < |samples|
      ensures !IsAfter(samples[j].t, samples[i].t)
    {
      NamesInTimeOrder(samples[i], samples[j], filename);
    }
  }

  lemma BaseOfSem(s: Sample, filename: string)
    ensures Base(SemName(s, filename)) == CsvName(s, filename)
  {
    hide CsvName;
  }
}
