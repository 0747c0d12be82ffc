// What the parser of src/modules/dynamic_conf/server.c says about a faulty update command.

module Rejections {
  import opened Common
  import opened CStrings
  import opened Identities
  import opened UpdateCodec

  // A line as it is written: what stands before its first equals sign, and what stands behind it, if it has one.
  datatype RawLine = RawLine(name: string, value: Option<string>)

  function Text(line: RawLine): (s: string) {
    if line.value == None then line.name else line.name + "=" + line.value.value
  }

  ghost predicate Plain(s: string) {
    forall k :: 0 <= k < |s| ==> s[k] != NUL && s[k] != '\n'
  }

  ghost predicate ProperLine(line: RawLine) {
    ProperName(line.name) && (line.value.Some? ==> Plain(line.value.value))
  }

  // name is that of parameter id, which a command can set.
  ghost predicate IsName(table: Table, id: nat, name: string) {
    && id < |table.identities| && table.identities[id].name == name && table.identities[id].kind != NoSupport
    && forall k :: 0 <= k < id ==> table.identities[k].name != name
  }

  // What is wrong with a line, if there is room for so many more bytes.
  ghost predicate Faulty(line: RawLine, room: int, table: Table, reason: Reason) {
    match reason
    case NoEqualsSign => line.value == None
    case NotSupported => line.value.Some? && forall id :: !IsName(table, id, line.name)
    case EmptyValue => line.value == Some("") && exists id :: IsName(table, id, line.name)
    case BadValue =>
      line.value.Some? && line.value.value != ""
      && exists id :: IsName(table, id, line.name) && !Allowed(table, id, line.value.value)
    case TooLong =>
      line.value.Some? && line.value.value != "" && 4 + |line.value.value| + 1 > room
      && exists id :: IsName(table, id, line.name) && Allowed(table, id, line.value.value)
    case _ => false
  }

  lemma NameIsFound(table: Table, id: nat, name: string)
    requires IsName(table, id, name)
    ensures Lookup(table.identities, name) == Some(id)
  {
    hide Lookup;
    var r := Lookup(table.identities, name);
    assert table.identities[id].name == name;
    assert r.Some? ==> r.value == id;
  }

  lemma NameIsNotFound(table: Table, name: string)
    requires forall id :: !IsName(table, id, name)
    ensures var r := Lookup(table.identities, name); r == None || table.identities[r.value].kind == NoSupport
  {
    hide Lookup;
    var r := Lookup(table.identities, name);
    assert r.Some? ==> !IsName(table, r.value, name);
  }

  lemma AllowedIsValid(table: Table, id: nat, value: string)
    requires id < |table.identities|
    ensures Allowed(table, id, value) <==> ValidValue(table, id, value)
  {
  }

  lemma MissingSign(t: string, pos: nat, name: string, out: string, capacity: nat, table: Table)
    requires ProperName(name) && Holds(t, pos, name + "\n")
    ensures ParseLine(t, pos, out, capacity, table) == Halt(Rejected(NoEqualsSign), out)
  {
    hide Find;
    hide Lookup;
    hide CString;
    hide ParseValue;
    var e := pos + |name|;
    assert t[pos + |name|] == (name + "\n")[|name|];
    forall k | pos <= k < e
      ensures t[k] != '\n' && t[k] != '='
    {
      assert t[pos + (k - pos)] == (name + "\n")[k - pos] == name[k - pos];
    }
    FindExactly(t, pos, true, e);
  }

  // The parts of a line with an equals sign: name from pos, value from e + 1, newline at v.
  lemma Parts(t: string, pos: nat, name: string, value: string)
    requires ProperName(name) && Plain(value) && Holds(t, pos, name + "=" + value + "\n")
    ensures var e, v := pos + |name|, pos + |name| + 1 + |value|;
      && v < |t| && t[e] == '=' && Find(t, pos, true) == e && Find(t, e + 1, false) == v
      && CString(t[pos..e]) == name && t[e + 1..v] == value && CString(t[e + 1..v]) == value
  {
    hide Find;
    hide CString;
    hide Holds;
    LineLayout(t, pos, name, value);
    var e, v := pos + |name|, pos + |name| + 1 + |value|;
    assert forall k :: pos <= k < e ==> t[k] == t[pos..e][k - pos];
    assert forall k :: e < k < v ==> t[k] == t[e + 1..v][k - e - 1];
    CStringWhole(name);
    CStringWhole(value);
    FindExactly(t, pos, true, e);
    FindExactly(t, e + 1, false, v);
  }

  // A faulty line ends the parse with its reason.
  lemma FaultyLine(t: string, pos: nat, line: RawLine, reason: Reason, out: string, capacity: nat, table: Table)
    requires ProperLine(line) && Holds(t, pos, Text(line) + "\n") && |out| <= capacity
    requires Faulty(line, capacity - |out|, table, reason)
    ensures ParseLine(t, pos, out, capacity, table) == Halt(Rejected(reason), out)
  {
    hide Find;
    hide CString;
    hide Lookup;
    hide Holds;
    hide ValidValue;
    hide Allowed;
    if line.value == None {
      MissingSign(t, pos, line.name, out, capacity, table);
    } else {
      var name, value := line.name, line.value.value;
      Parts(t, pos, name, value);
      if reason == NotSupported {
        NameIsNotFound(table, name);
      } else if reason == EmptyValue {
        var id :| IsName(table, id, name);
        NameInTable(table, id, name);
      } else if reason == BadValue {
        var id :| IsName(table, id, name) && !Allowed(table, id, value);
        NameInTable(table, id, name);
        AllowedIsValid(table, id, value);
      } else {
        var id :| IsName(table, id, name) && Allowed(table, id, value);
        NameInTable(table, id, name);
        AllowedIsValid(table, id, value);
      }
    }
  }

  lemma NameInTable(table: Table, id: nat, name: string)
    requires IsName(table, id, name)
    ensures id < |table.identities| && table.identities[id].kind != NoSupport && Lookup(table.identities, name) == Some(id)
  {
    hide Lookup;
    NameIsFound(table, id, name);
  }

  // Valid lines are passed over, as long as something follows.
  lemma {:induction false} ValidLinesPassed(t: string, pos: nat, ps: seq<Setting>, next: string, out: string, capacity: nat,
                                            table: Table)
    requires ValidSettings(ps, table) && next != "" && next[0] != NUL && |out + Records(ps)| <= capacity
    requires forall k :: 0 <= k < |ps| ==> ps[k].ident < |table.identities|
    requires Holds(t, pos, Lines(ps, table) + next)
    ensures pos + |Lines(ps, table)| < |t| && Holds(t, pos + |Lines(ps, table)|, next)
    ensures ParseFrom(t, pos, out, capacity, table)
         == ParseFrom(t, pos + |Lines(ps, table)|, out + Records(ps), capacity, table)
    decreases |ps|
  {
    hide Lines;
    hide Holds;
    hide ValidSettings;
    hide ValidSetting;
    hide Record;
    hide Records;
    hide ParseLine;
    hide Line;
    LinesBegin(t, pos, ps, next, table);
    if ps == [] {
      NoLines(table, out);
    } else {
      SettingsSplit(ps, table);
      var at, more := pos + |Line(ps[0], table)|, out + Record(ps[0].ident, ps[0].value);
      RecordsSplit(ps, out);
      LinesAfter(t, at, ps[1..], next, table);
      ParseLineExact(t, pos, ps[0], out, capacity, table);
      ValidLinesPassed(t, at, ps[1..], next, more, capacity, table);
    }
  }

  lemma NoLines(table: Table, out: string)
    ensures Lines([], table) == "" && out + Records([]) == out
  {
  }

  lemma LinesBegin(t: string, pos: nat, ps: seq<Setting>, next: string, table: Table)
    requires forall k :: 0 <= k < |ps| ==> ps[k].ident < |table.identities|
    requires Holds(t, pos, Lines(ps, table) + next) && next != ""
    ensures pos + |Lines(ps, table)| < |t| && Holds(t, pos + |Lines(ps, table)|, next)
    ensures ps != [] ==>
              && Holds(t, pos, Line(ps[0], table))
              && Holds(t, pos + |Line(ps[0], table)|, Lines(ps[1..], table) + next)
              && |Lines(ps, table)| == |Line(ps[0], table)| + |Lines(ps[1..], table)|
  {
    hide Line;
    HoldsConcat(t, pos, Lines(ps, table), next);
    if ps != [] {
      ConcatAssociative(Line(ps[0], table), Lines(ps[1..], table), next);
      HoldsConcat(t, pos, Line(ps[0], table), Lines(ps[1..], table) + next);
    }
  }

  lemma LinesAfter(t: string, at: nat, ps: seq<Setting>, next: string, table: Table)
    requires ValidSettings(ps, table) && next != "" && next[0] != NUL
    requires forall k :: 0 <= k < |ps| ==> ps[k].ident < |table.identities|
    requires Holds(t, at, Lines(ps, table) + next)
    ensures at < |t| && t[at] != NUL
  {
    hide Lines;
    assert t[at + 0] == (Lines(ps, table) + next)[0];
    if ps != [] {
      FirstOfLines(ps, table);
    } else {
      NoLines(table, "");
    }
  }

  // The text of a command: valid lines, a faulty one, and whatever comes behind it.
  function FaultyText(ps: seq<Setting>, line: RawLine, rest: string, table: Table): (s: string)
    requires forall k :: 0 <= k < |ps| ==> ps[k].ident < |table.identities|
  {
    "{\n" + (Lines(ps, table) + (Text(line) + "\n")) + rest + "}"
  }

  // The first faulty line decides: whatever follows it, the command is rejected for its reason.
  lemma FirstFaultDecides(ps: seq<Setting>, line: RawLine, reason: Reason, rest: string, table: Table,
                          buffer: string, len: nat, capacity: nat)
    requires ValidSettings(ps, table) && |Records(ps)| <= capacity
    requires forall k :: 0 <= k < |ps| ==> ps[k].ident < |table.identities|
    requires ProperLine(line) && Faulty(line, capacity - |Records(ps)|, table, reason)
    requires rest == "" || rest[|rest| - 1] == '\n'
    requires var text := FaultyText(ps, line, rest, table);
      len <= |buffer| && Holds(buffer, 0, text) && (len == |text| || (len == |text| + 1 && buffer[len - 1] == NUL))
    ensures Parse(buffer, len, capacity, table) == (Rejected(reason), Records(ps))
  {
    hide Parse;
    hide Holds;
    hide ValidSettings;
    hide Faulty;
    hide Lines;
    hide Records;
    hide FaultyText;
    hide Trimmed;
    hide Text;
    hide ParseLine;
    var text, next := FaultyText(ps, line, rest, table), Text(line) + "\n";
    var n := |text|;
    FaultyLayout(ps, line, rest, table, buffer, len);
    ParseFramed(buffer, len, n, capacity, table);
    var t := buffer[n - 1 := NUL];
    FirstNotNul(line);
    NoLines(table, "");
    ConcatEmpty(Records(ps));
    ValidLinesPassed(t, 2, ps, next, "", capacity, table);
    FaultyLine(t, 2 + |Lines(ps, table)|, line, reason, Records(ps), capacity, table);
  }

  lemma FirstNotNul(line: RawLine)
    requires ProperLine(line)
    ensures (Text(line) + "\n")[0] != NUL
  {
    if line.name != "" {
      assert Text(line)[0] == line.name[0];
    }
  }

  lemma FaultyLayout(ps: seq<Setting>, line: RawLine, rest: string, table: Table, buffer: string, len: nat)
    requires forall k :: 0 <= k < |ps| ==> ps[k].ident < |table.identities|
    requires rest == "" || rest[|rest| - 1] == '\n'
    requires var text := FaultyText(ps, line, rest, table);
      len <= |buffer| && Holds(buffer, 0, text) && (len == |text| || (len == |text| + 1 && buffer[len - 1] == NUL))
    ensures var n := |FaultyText(ps, line, rest, table)|;
      && 2 < n <= len && Trimmed(buffer, len) == n && buffer[0] == '{' && buffer[n - 1] == '}' && buffer[n - 2] == '\n'
      && Holds(buffer[n - 1 := NUL], 2, Lines(ps, table) + (Text(line) + "\n"))
  {
    hide Lines;
    hide Text;
    var text, inner := FaultyText(ps, line, rest, table), Lines(ps, table) + (Text(line) + "\n");
    var n := |text|;
    assert buffer[0 + 0] == text[0] && buffer[0 + (n - 1)] == text[n - 1] && buffer[0 + (n - 2)] == text[n - 2];
    assert rest == "" ==> text[n - 2] == inner[|inner| - 1];
    assert rest != "" ==> text[n - 2] == rest[|rest| - 1];
    forall k | 0 <= k < |inner|
      ensures buffer[n - 1 := NUL][2 + k] == inner[k]
    {
      assert buffer[0 + (2 + k)] == text[2 + k] == inner[k];
    }
  }

  // There is nothing in between: a line is faulty for exactly one reason, or it is that of a valid setting with room
  // for its record.
  lemma FaultyOrValid(line: RawLine, room: int, table: Table)
    requires ProperLine(line) && |table.identities| <= 0x1_0000
    ensures (exists reason :: Faulty(line, room, table, reason)) <==>
            !(exists p: Setting :: ValidSetting(p, table) && Text(line) + "\n" == Line(p, table) && |Record(p.ident, p.value)| <= room)
    ensures forall a, b :: Faulty(line, room, table, a) && Faulty(line, room, table, b) ==> a == b
  {
    UniqueName(table, line.name);
    hide Lookup;
    hide IsName;
    if p: Setting :| ValidSetting(p, table) && Text(line) + "\n" == Line(p, table) && |Record(p.ident, p.value)| <= room {
      ValidIsNotFaulty(line, p, room, table);
    } else {
      SomeFault(line, room, table);
    }
  }

  lemma UniqueName(table: Table, name: string)
    ensures forall a, b :: IsName(table, a, name) && IsName(table, b, name) ==> a == b
  {
  }

  // Where a line has its first equals sign is determined by the line.
  lemma SameParts(a: string, b: string, c: string, d: string)
    requires ProperName(a) && ProperName(c) && a + "=" + b == c + "=" + d
    ensures a == c && b == d
  {
    hide Find;
    var s := a + "=" + b;
    SignAt(a, b);
    SignAt(c, d);
    assert a == s[..|a|] && b == s[|a| + 1..];
    assert c == s[..|c|] && d == s[|c| + 1..];
  }

  lemma SignAt(a: string, b: string)
    requires ProperName(a)
    ensures Find(a + "=" + b, 0, true) == |a|
  {
    hide Find;
    FindExactly(a + "=" + b, 0, true, |a|);
  }

  lemma ValidIsNotFaulty(line: RawLine, p: Setting, room: int, table: Table)
    requires ProperLine(line) && ValidSetting(p, table) && Text(line) + "\n" == Line(p, table)
    requires |Record(p.ident, p.value)| <= room
    ensures forall reason :: !Faulty(line, room, table, reason)
  {
    hide Lookup;
    hide ValidValue;
    hide Allowed;
    var name := table.identities[p.ident].name;
    var s := name + "=" + p.value;
    assert Text(line) == (Text(line) + "\n")[..|Text(line)|] == (s + "\n")[..|s|] == s;
    assert s[|name|] == '=';
    assert line.value.Some?;
    SameParts(line.name, line.value.value, name, p.value);
    UniqueName(table, name);
    AllowedIsValid(table, p.ident, p.value);
    assert IsName(table, p.ident, name) by {
      hide ProperName;
      hide ProperValue;
    }
  }

  lemma SomeFault(line: RawLine, room: int, table: Table)
    requires ProperLine(line) && |table.identities| <= 0x1_0000
    ensures (exists reason :: Faulty(line, room, table, reason))
         || (exists p: Setting :: ValidSetting(p, table) && Text(line) + "\n" == Line(p, table) && |Record(p.ident, p.value)| <= room)
  {
    hide Lookup;
    hide ValidValue;
    hide Allowed;
    if line.value == None {
      assert Faulty(line, room, table, NoEqualsSign);
    } else if forall id :: !IsName(table, id, line.name) {
      assert Faulty(line, room, table, NotSupported);
    } else if line.value == Some("") {
      assert Faulty(line, room, table, EmptyValue);
    } else {
      var id :| IsName(table, id, line.name);
      var p := Setting(id, line.value.value);
      NameIsFound(table, id, line.name);
      AllowedIsValid(table, id, p.value);
      if !Allowed(table, id, p.value) {
        assert Faulty(line, room, table, BadValue);
      } else if 4 + |p.value| + 1 > room {
        assert Faulty(line, room, table, TooLong);
      } else {
        assert ValidSetting(p, table) && Text(line) + "\n" == Line(p, table);
      }
    }
  }

  // Before any line is looked at: nothing at all, no braces around, or no newline before the closing one.
  lemma FrameExactly(text: string, capacity: nat, table: Table)
    requires NUL !in text
    ensures var r := Parse(text, |text|, capacity, table).0;
      && (r == Rejected(NoParameter) <==> text == "")
      && (r == Rejected(NotSurrounded) <==> text != "" && !(|text| >= 2 && text[0] == '{' && text[|text| - 1] == '}'))
      && (r == Rejected(LastNotEnded) <==>
            |text| >= 2 && text[0] == '{' && text[|text| - 1] == '}' && text[|text| - 2] != '\n')
  {
    hide ParseFrom;
    if |text| >= 2 {
      LinesNeverSay(text[|text| - 1 := NUL], 2, [], capacity, table);
    }
  }

  lemma {:induction false} LinesNeverSay(t: string, pos: nat, out: string, capacity: nat, table: Table)
    ensures pos < |t| ==> var r := ParseFrom(t, pos, out, capacity, table).0;
      r != Rejected(NoParameter) && r != Rejected(NotSurrounded) && r != Rejected(LastNotEnded)
    decreases |t| - pos
  {
    hide Find;
    hide CString;
    hide Lookup;
    hide ValidValue;
    hide Record;
    if pos < |t| {
      var p := ParseLine(t, pos, out, capacity, table);
      if p.Next? {
        LinesNeverSay(t, p.pos, p.out, capacity, table);
      }
    }
  }
}
