// Every accepted update text is a well-formed command, from src/modules/dynamic_conf/server.c to the callback.

module ServerCommands {
  import opened Common
  import opened CStrings
  import opened Identities
  import opened UpdateCodec
  import opened SupervisorModel
  import opened Supervision

  // Entry 0 of the parameter table is the placeholder that no command may name.
  ghost predicate ProperTable(table: Table) {
    0 < |table.identities| <= 0x1_0000 && table.identities[0].kind == NoSupport
  }

  ghost predicate Supported(ps: seq<Setting>, table: Table) {
    forall k :: 0 <= k < |ps| ==> ps[k].ident < |table.identities| && table.identities[ps[k].ident].kind != NoSupport
  }

  ghost predicate AllAllowed(ps: seq<Setting>, table: Table) {
    forall k :: 0 <= k < |ps| ==>
      ps[k].ident < |table.identities| && ps[k].value != "" && Allowed(table, ps[k].ident, CString(ps[k].value))
  }

  lemma {:induction false} RecordsConcat(a: seq<Setting>, b: seq<Setting>)
    ensures Records(a + b) == Records(a) + Records(b)
  {
    hide Record;
    if a == [] {
      assert a + b == b;
    } else {
      assert (a + b)[1..] == a[1..] + b;
      RecordsConcat(a[1..], b);
      ConcatAssociative(Record(a[0].ident, a[0].value), Records(a[1..]), Records(b));
    }
  }

  lemma RecordsOfOne(p: Setting)
    ensures Records([p]) == Record(p.ident, p.value)
  {
    hide Record;
    assert [p][1..] == [];
  }

  // One accepted line adds the record of one supported setting.
  lemma LineIsSetting(t: string, pos: nat, out: string, capacity: nat, table: Table) returns (p: Setting)
    requires pos < |t|
    requires ParseLine(t, pos, out, capacity, table).Next? || ParseLine(t, pos, out, capacity, table) == Halt(Encoded, ParseLine(t, pos, out, capacity, table).out)
    ensures p.ident < |table.identities| && table.identities[p.ident].kind != NoSupport
    ensures p.value != "" && Allowed(table, p.ident, CString(p.value))
    ensures ParseLine(t, pos, out, capacity, table).out == out + Record(p.ident, p.value)
  {
    hide Find;
    hide CString;
    hide Lookup;
    hide Record;
    var e := Find(t, pos, true);
    var id := Lookup(table.identities, CString(t[pos..e])).value;
    p := Setting(id, t[e + 1..Find(t, e + 1, false)]);
  }

  // Whatever is accepted is the records of supported parameters with allowed values.
  lemma {:induction false} EncodedIsRecords(t: string, pos: nat, before: seq<Setting>, capacity: nat, table: Table)
    returns (ps: seq<Setting>)
    requires pos < |t| && ParseFrom(t, pos, Records(before), capacity, table).0 == Encoded
    requires Supported(before, table) && AllAllowed(before, table)
    ensures ps != [] && Supported(ps, table) && AllAllowed(ps, table)
    ensures ParseFrom(t, pos, Records(before), capacity, table).1 == Records(ps)
    decreases |t| - pos
  {
    hide ParseLine;
    hide Records;
    hide Record;
    var p := LineIsSetting(t, pos, Records(before), capacity, table);
    ps := before + [p];
    RecordsConcat(before, [p]);
    RecordsOfOne(p);
    var r := ParseLine(t, pos, Records(before), capacity, table);
    if r.Next? {
      ps := EncodedIsRecords(t, r.pos, ps, capacity, table);
    }
  }

  lemma {:induction false} ParsedFits(t: string, pos: nat, out: string, capacity: nat, table: Table)
    requires pos < |t| && |out| <= capacity
    ensures |ParseFrom(t, pos, out, capacity, table).1| <= capacity
    decreases |t| - pos
  {
    hide ParseLine;
    var r := ParseLine(t, pos, out, capacity, table);
    if r.Next? {
      ParsedFits(t, r.pos, r.out, capacity, table);
    }
  }

  // The start of a message can be read back, whatever parameter follows.
  lemma MessageLayout(id: nat, parameter: string)
    requires id < 0x1_0000 && |parameter| < 0x1_0000
    ensures var m := Message(id, parameter);
      && |m| == 4 + |parameter| && m[4..4 + |parameter|] == parameter
      && Value16(m[0], m[1]) == id && Value16(m[2], m[3]) == |parameter|
  {
    hide Bytes16;
    hide Value16;
    Bytes16RoundTrip(id);
    Bytes16RoundTrip(|parameter|);
    var m := Message(id, parameter);
    assert m[0] == Bytes16(id)[0] && m[1] == Bytes16(id)[1];
    assert m[2] == Bytes16(|parameter|)[0] && m[3] == Bytes16(|parameter|)[1];
  }

  // A parameter as the callback gets it: supported, and with an allowed value.
  ghost predicate SoundParam(p: Param, table: Table) {
    p.ident < |table.identities| && table.identities[p.ident].kind != NoSupport && Allowed(table, p.ident, CString(p.data))
  }

  // Whatever update text the control process accepts, the message it publishes reads back as an update that names
  // at least one parameter, never the placeholder, and gives each of them an allowed value.
  lemma AcceptedUpdateIsBuiltByServer(buffer: string, len: nat, table: Table, size: nat)
    requires len <= |buffer| && ProperTable(table) && size > 0
    requires Parse(buffer, len, 10000, table).0 == Encoded
    ensures var m := Message(CMD_UPDATE, Parse(buffer, len, 10000, table).1);
      && |m| <= 10004 && ReadMessage(m, size).Some? && ReadMessage(m, size).value.Update?
      && BuiltByServer(ReadMessage(m, size).value)
      && forall p :: p in ReadMessage(m, size).value.params ==> SoundParam(p, table)
  {
    hide Parse;
    hide Records;
    hide Decode;
    hide Message;
    hide ReadMessage;
    hide SoundParam;
    hide BuiltByServer;
    var ps := AcceptedRecords(buffer, len, table);
    RecordsDecode(ps, size, table);
    ReadUpdate(Records(ps), size);
  }

  lemma ReadUpdate(parameter: string, size: nat)
    requires |parameter| < 0x1_0000 && Decode(parameter, size).Some?
    ensures |Message(CMD_UPDATE, parameter)| == 4 + |parameter|
    ensures ReadMessage(Message(CMD_UPDATE, parameter), size) == Some(Update(Decode(parameter, size).value))
  {
    hide Decode;
    hide Message;
    hide Value16;
    MessageLayout(CMD_UPDATE, parameter);
  }

  lemma AcceptedRecords(buffer: string, len: nat, table: Table) returns (ps: seq<Setting>)
    requires len <= |buffer| && Parse(buffer, len, 10000, table).0 == Encoded
    ensures ps != [] && Supported(ps, table) && AllAllowed(ps, table) && Parse(buffer, len, 10000, table).1 == Records(ps)
    ensures |Records(ps)| <= 10000
  {
    hide ParseFrom;
    hide Record;
    var t := buffer[Trimmed(buffer, len) - 1 := NUL];
    ps := EncodedIsRecords(t, 2, [], 10000, table);
    ParsedFits(t, 2, [], 10000, table);
  }

  lemma RecordsDecode(ps: seq<Setting>, size: nat, table: Table)
    requires ps != [] && Supported(ps, table) && AllAllowed(ps, table)
    requires ProperTable(table) && size > 0 && |Records(ps)| <= 10000
    ensures Decode(Records(ps), size).Some?
    ensures BuiltByServer(Update(Decode(Records(ps), size).value))
    ensures forall p :: p in Decode(Records(ps), size).value ==> SoundParam(p, table)
  {
    hide Records;
    hide Decode;
    hide Allowed;
    hide CString;
    forall k | 0 <= k < |ps|
      ensures ps[k].ident < 0x1_0000 && |ps[k].value| + 1 < 0x1_0000 && ps[k].ident != 0
    {
      RecordsBound(ps, k);
    }
    DecodeExact(ps, size);
    var params := Decode(Records(ps), size).value;
    forall k | 0 <= k < |params|
      ensures SoundParam(params[k], table)
    {
      SameText(ps[k].value);
    }
  }

  // The null character that ends a value does not change what C sees of it.
  lemma {:induction false} SameText(s: string)
    ensures CString(s + [NUL]) == CString(s)
  {
    if s != "" {
      assert (s + [NUL])[1..] == s[1..] + [NUL];
      SameText(s[1..]);
    }
  }

  // ----- what reaches the configuration -----

  // The value of the last setting of an identity, if there is one.
  function LastValue(ps: seq<Setting>, ident: nat): (r: Option<string>) {
    if ps == [] then None
    else if ps[|ps| - 1].ident == ident then Some(ps[|ps| - 1].value)
    else LastValue(ps[..|ps| - 1], ident)
  }

  function Get(config: Config, ident: nat): (r: Option<string>) {
    if ident in config then Some(config[ident]) else None
  }

  // The value of the last setting of an identity that the override takes over, if there is one.
  function LastAccepted(ps: seq<Setting>, table: Table, ident: nat): (r: Option<string>)
    requires ident < |table.identities|
    ensures r.Some? ==> Overridable(table, ident, r.value)
  {
    if ps == [] then None
    else if ps[|ps| - 1].ident == ident && Overridable(table, ident, ps[|ps| - 1].value) then Some(ps[|ps| - 1].value)
    else LastAccepted(ps[..|ps| - 1], table, ident)
  }

  // What a parameter is after an update: the last value taken over, or what it was.
  function After(config: Config, ps: seq<Setting>, table: Table, ident: nat): (r: Option<string>)
    requires ident < |table.identities|
  {
    if LastAccepted(ps, table, ident).Some? then LastAccepted(ps, table, ident) else Get(config, ident)
  }

  lemma {:induction false} LastAcceptedWins(config: Config, table: Table, ps: seq<Setting>, ident: nat)
    requires ident < |table.identities| && forall k :: 0 <= k < |ps| ==> NUL !in ps[k].value
    ensures Get(OverrideAll(config, table, Params(ps)), ident) == After(config, ps, table, ident)
  {
    hide CString;
    hide Params;
    hide Override;
    hide Overridable;
    if ps != [] {
      hide OverrideAll;
      var p := ps[|ps| - 1];
      LastAcceptedWins(config, table, ps[..|ps| - 1], ident);
      ValueText(p.value);
      OverrideLast(config, table, ps);
      OverrideGet(OverrideAll(config, table, Params(ps[..|ps| - 1])), table, p, ident);
    }
  }

  lemma ValueText(s: string)
    requires NUL !in s
    ensures CString(s + [NUL]) == s
  {
    CStringEnded(s, []);
    assert s + [NUL] + [] == s + [NUL];
  }

  lemma OverrideGet(config: Config, table: Table, p: Setting, ident: nat)
    requires ident < |table.identities| && CString(p.value + [NUL]) == p.value
    ensures Get(Override(config, table, Param(p.ident, |p.value| + 1, p.value + [NUL])), ident)
         == if p.ident == ident && Overridable(table, ident, p.value) then Some(p.value) else Get(config, ident)
  {
    hide CString;
    hide Overridable;
  }

  lemma OverrideLast(config: Config, table: Table, ps: seq<Setting>)
    requires ps != []
    ensures var n, p := |ps| - 1, ps[|ps| - 1];
      OverrideAll(config, table, Params(ps))
      == Override(OverrideAll(config, table, Params(ps[..n])), table, Param(p.ident, |p.value| + 1, p.value + [NUL]))
  {
    hide Override;
    assert Params(ps)[..|ps| - 1] == Params(ps[..|ps| - 1]);
  }

  // It is the last value given if and only if that value is taken over, or nothing is and it was there before.
  lemma {:induction false} LastGivenExactly(config: Config, table: Table, ps: seq<Setting>, ident: nat)
    requires ident < |table.identities| && LastValue(ps, ident).Some?
    ensures After(config, ps, table, ident) == LastValue(ps, ident) <==>
              || Overridable(table, ident, LastValue(ps, ident).value)
              || (LastAccepted(ps, table, ident) == None && Get(config, ident) == LastValue(ps, ident))
  {
    hide Overridable;
    if ps[|ps| - 1].ident != ident {
      LastGivenExactly(config, table, ps[..|ps| - 1], ident);
    }
  }

  // The settings that reach the callback: its list has room for as many as there are parameters.
  function Taken(ps: seq<Setting>, table: Table): (qs: seq<Setting>) {
    ps[..Min(|ps|, |table.identities|)]
  }

  // From text to configuration: after the main process has run its callback on an update built from a
  // list of settings, every parameter has the last value that was taken over, or is as before.
  lemma UpdateReachesConfiguration(ps: seq<Setting>, table: Table, buffer: string, len: nat, cell: int, config: Config, ident: nat)
    requires ps != [] && ValidSettings(ps, table) && ProperTable(table) && |Records(ps)| <= 10000
    requires len == |CommandText(ps, table)| <= |buffer| && Holds(buffer, 0, CommandText(ps, table))
    requires ident < |table.identities|
    ensures var m := Message(CMD_UPDATE, Parse(buffer, len, 10000, table).1);
      var c := ReadMessage(m, |table.identities|);
      && c == Some(Update(Params(Taken(ps, table))))
      && Get(SupervisorModel.Receive(cell, config, table, c.value).config, ident) == After(config, Taken(ps, table), table, ident)
  {
    hide Parse;
    hide Records;
    hide Decode;
    hide Message;
    hide ReadMessage;
    hide Params;
    hide OverrideAll;
    hide AnyNeedsRestart;
    hide CommandText;
    hide Holds;
    var size := |table.identities|;
    UpdateRoundTrip(ps, table, buffer, len, 10000, size);
    EncodeExact(ps, table, buffer, len, 10000);
    ReadUpdate(Records(ps), size);
    SettingsAreSupported(ps, table);
    LastAcceptedWins(config, table, Taken(ps, table), ident);
    TakenParams(ps, table);
  }

  lemma TakenParams(ps: seq<Setting>, table: Table)
    ensures Params(ps)[..Min(|ps|, |table.identities|)] == Params(Taken(ps, table))
  {
  }

  lemma SettingsAreSupported(ps: seq<Setting>, table: Table)
    requires ValidSettings(ps, table)
    ensures Supported(ps, table) && forall k :: 0 <= k < |ps| ==> NUL !in ps[k].value
  {
    hide Lookup;
    assert forall k :: 0 <= k < |ps| ==> ValidSetting(ps[k], table);
  }

  lemma StartAndStopAreBuiltByServer(size: nat)
    ensures ReadMessage(Message(2, ""), size) == Some(Start)
    ensures ReadMessage(Message(1, ""), size) == Some(Stop)
  {
    MessageLayout(CMD_START, "");
    MessageLayout(CMD_STOP, "");
    hide Message;
    hide Value16;
    hide Decode;
  }

  // A message of any other kind is reported as such, with its number.
  lemma OtherMessagesAreUnknown(id: nat, parameter: string, size: nat)
    requires (id == 0 || 3 < id < 0x1_0000) && |parameter| < 0x1_0000
    ensures ReadMessage(Message(id, parameter), size) == Some(Unknown(id))
  {
    MessageLayout(id, parameter);
    hide Message;
    hide Value16;
    hide Decode;
  }
}
