// The update command of src/modules/dynamic_conf/server.c: text to identity/length/value records, and back.

module UpdateCodec {
  import opened Common
  import opened CStrings
  import opened Identities

  datatype Reason =
    | NoParameter | NotSurrounded | LastNotEnded | NoEqualsSign | NotSupported | EmptyValue | BadValue | TooLong

  // Overrun: the scan left the memory of the buffer.
  datatype Parsed = Rejected(reason: Reason) | Encoded | Overrun

  function Bytes16(n: nat): (r: string)
    ensures |r| == 2
  {
    [(n % 256) as char, (n / 256 % 256) as char]
  }

  function Value16(lo: char, hi: char): (n: nat) {
    (lo as int) % 256 + 256 * ((hi as int) % 256)
  }

  // Two bytes, the lower one first, hold a number modulo 2^16.
  lemma Bytes16RoundTrip(n: nat)
    ensures Bytes16(n)[0] as int == n % 256 && Bytes16(n)[1] as int == n / 256 % 256
    ensures Value16(Bytes16(n)[0], Bytes16(n)[1]) == n % 0x1_0000
  {
    var lo, hi := n % 256, n / 256 % 256;
    assert (lo as char) as int % 256 == lo && (hi as char) as int % 256 == hi;
    assert n == 256 * (n / 256) + lo && n / 256 == 256 * (n / 0x1_0000) + hi;
  }

  // First position from pos on holding a newline or, with stopAtEquals, an equals sign; |t| if there is none.
  function Find(t: string, pos: nat, stopAtEquals: bool): (r: nat)
    requires pos <= |t|
    ensures pos <= r <= |t|
    ensures r < |t| ==> t[r] == '\n' || (stopAtEquals && t[r] == '=')
    ensures forall k :: pos <= k < r ==> t[k] != '\n' && (stopAtEquals ==> t[k] != '=')
    decreases |t| - pos
  {
    if pos == |t| || t[pos] == '\n' || (stopAtEquals && t[pos] == '=') then pos
    else Find(t, pos + 1, stopAtEquals)
  }

  function Record(id: nat, value: string): (r: string)
    ensures |r| == 5 + |value|
  {
    Bytes16(id) + Bytes16(|value| + 1) + value + [NUL]
  }

  // What became of one parameter: the parse stops, or goes on with the next line.
  datatype Progress = Halt(result: Parsed, out: string) | Next(pos: nat, out: string)

  // The value that starts at pos, for parameter id, with what has been produced so far.
  function ParseValue(t: string, pos: nat, id: nat, out: string, capacity: nat, table: Table): (r: Progress)
    requires pos <= |t| && id < |table.identities|
    ensures r.Next? ==> pos < r.pos < |t|
    ensures |out| <= capacity ==> |r.out| <= capacity
    ensures out <= r.out
  {
    var v := Find(t, pos, false);
    if v == |t| then Halt(Overrun, out)
    else if v == pos then Halt(Rejected(EmptyValue), out)
    else if !ValidValue(table, id, CString(t[pos..v])) then Halt(Rejected(BadValue), out)
    else if |out| + 4 + (v - pos + 1) > capacity then Halt(Rejected(TooLong), out)
    else
      var more := out + Record(id, t[pos..v]);
      if v + 1 == |t| then Halt(Overrun, more)
      else if t[v + 1] == NUL then Halt(Encoded, more)
      else Next(v + 1, more)
  }

  // One iteration of the loop: the line that starts at pos.
  function ParseLine(t: string, pos: nat, out: string, capacity: nat, table: Table): (r: Progress)
    requires pos < |t|
    ensures r.Next? ==> pos < r.pos < |t|
    ensures |out| <= capacity ==> |r.out| <= capacity
    ensures out <= r.out
  {
    var e := Find(t, pos, true);
    if e == |t| then Halt(Overrun, out)
    else if t[e] == '\n' then Halt(Rejected(NoEqualsSign), out)
    else
      var id := Lookup(table.identities, CString(t[pos..e]));
      if id == None || table.identities[id.value].kind == NoSupport then Halt(Rejected(NotSupported), out)
      else ParseValue(t, e + 1, id.value, out, capacity, table)
  }

  function ParseFrom(t: string, pos: nat, out: string, capacity: nat, table: Table): (r: (Parsed, string))
    requires pos < |t|
    decreases |t| - pos
  {
    match ParseLine(t, pos, out, capacity, table)
    case Halt(result, more) => (result, more)
    case Next(next, more) => ParseFrom(t, next, more, capacity, table)
  }

  // Length of the text without the null character that may end it.
  function Trimmed(buffer: string, len: nat): (n: nat)
    requires 0 < len <= |buffer|
    ensures n <= len
  {
    if buffer[len - 1] == NUL then len - 1 else len
  }

  // _parse_update_parameters on a buffer of which the first len characters were received.
  function Parse(buffer: string, len: nat, capacity: nat, table: Table): (r: (Parsed, string))
    requires len <= |buffer|
  {
    if len == 0 then (Rejected(NoParameter), [])
    else
      var n := Trimmed(buffer, len);
      if n < 2 || buffer[0] != '{' || buffer[n - 1] != '}' then (Rejected(NotSurrounded), [])
      else if buffer[n - 2] != '\n' then (Rejected(LastNotEnded), [])
      else ParseFrom(buffer[n - 1 := NUL], 2, [], capacity, table)
  }

  const MAX_BUFFER: nat := 10004  // sizeof(command_t)

  // From start on the buffer still holds the text t.
  ghost predicate Untouched(buffer: array<char>, start: nat, t: string)
    reads buffer
  {
    |t| == buffer.Length && forall k :: start <= k < buffer.Length ==> buffer[k] == t[k]
  }

  // Moves a pointer over the text up to a newline or, with stopAtEquals, an equals sign.
  method Advance(buffer: array<char>, start: nat, stopAtEquals: bool, ghost t: string) returns (p: nat)
    requires start <= buffer.Length && Untouched(buffer, start, t)
    ensures p == Find(t, start, stopAtEquals)
  {
    p := start;
    while p < buffer.Length && buffer[p] != '\n' && !(stopAtEquals && buffer[p] == '=')
      invariant start <= p <= buffer.Length
      invariant Find(t, p, stopAtEquals) == Find(t, start, stopAtEquals)
    {
      p := p + 1;
    }
  }

  // memcpy
  method CopyChars(dst: array<char>, at: nat, src: array<char>, start: nat, n: nat)
    requires dst != src && at + n <= dst.Length && start + n <= src.Length
    modifies dst
    ensures dst[at..at + n] == src[start..start + n]
    ensures forall k :: 0 <= k < dst.Length && !(at <= k < at + n) ==> dst[k] == old(dst[k])
  {
    for k := 0 to n
      invariant dst[at..at + k] == src[start..start + k]
      invariant forall j :: 0 <= j < dst.Length && !(at <= j < at + k) ==> dst[j] == old(dst[j])
    {
      dst[at + k] := src[start + k];
    }
  }

  // Appends one record to parameter.
  method Store(parameter: array<char>, offset: nat, id: nat, buffer: array<char>, val: nat, valLen: nat)
    requires parameter != buffer && offset + 4 + valLen <= parameter.Length && 0 < valLen && val + valLen <= buffer.Length
    requires buffer[val + valLen - 1] == NUL
    modifies parameter
    ensures parameter[..offset + 4 + valLen] == old(parameter[..offset]) + Record(id, buffer[val..val + valLen - 1])
    ensures parameter[offset + 4 + valLen..] == old(parameter[offset + 4 + valLen..])
  {
    hide Bytes16;
    hide Record;
    var identBytes, lenBytes := Bytes16(id), Bytes16(valLen);
    parameter[offset], parameter[offset + 1] := identBytes[0], identBytes[1];
    parameter[offset + 2], parameter[offset + 3] := lenBytes[0], lenBytes[1];
    CopyChars(parameter, offset + 4, buffer, val, valLen);
    ghost var stored := parameter[..offset + 4 + valLen];
    assert stored[offset + 4..] == parameter[offset + 4..offset + 4 + valLen];
    assert buffer[val..val + valLen] == buffer[val..val + valLen - 1] + [NUL];
    RecordAssembled(stored, old(parameter[..offset]), id, buffer[val..val + valLen - 1]);
  }

  lemma RecordAssembled(s: string, before: string, id: nat, value: string)
    requires |s| == |before| + 5 + |value|
    requires forall k :: 0 <= k < |before| ==> s[k] == before[k]
    requires s[|before|] == Bytes16(id)[0] && s[|before| + 1] == Bytes16(id)[1]
    requires s[|before| + 2] == Bytes16(|value| + 1)[0] && s[|before| + 3] == Bytes16(|value| + 1)[1]
    requires s[|before| + 4..] == value + [NUL]
    ensures s == before + Record(id, value)
  {
    hide Bytes16;
    var a := |before|;
    assert s[..a] == before;
    assert s[a..a + 4] == Bytes16(id) + Bytes16(|value| + 1);
    RecordParts(id, value);
    Concat3(s, a, a + 4);
  }

  lemma RecordParts(id: nat, value: string)
    ensures Record(id, value) == (Bytes16(id) + Bytes16(|value| + 1)) + (value + [NUL])
  {
    hide Bytes16;
  }

  lemma Concat3(s: string, a: nat, b: nat)
    requires a <= b <= |s|
    ensures s == s[..a] + (s[a..b] + s[b..])
  {
  }

  // Second half of the loop body: cuts the value at pos in place and stores the record.
  method CutValue(buffer: array<char>, pos: nat, id: nat, parameter: array<char>, offset: nat, table: Table, ghost t: string)
    returns (p: Progress, size: nat)
    requires pos <= buffer.Length && offset <= parameter.Length && buffer != parameter
    requires id < |table.identities| && Untouched(buffer, pos, t)
    modifies buffer, parameter
    ensures p == ParseValue(t, pos, id, old(parameter[..offset]), parameter.Length, table)
    ensures offset <= size <= parameter.Length && parameter[..size] == p.out
    ensures parameter[size..] == old(parameter[size..])
    ensures forall k :: 0 <= k < buffer.Length ==> buffer[k] == old(buffer[k]) || buffer[k] == NUL
    ensures p.Next? ==> Untouched(buffer, p.pos, t)
  {
    hide CString;
    hide ValidValue;
    hide Record;
    hide Find;
    size := offset;
    var v := Advance(buffer, pos, false, t);
    if v == buffer.Length {
      return Halt(Overrun, parameter[..size]), size;
    }
    if v == pos {
      return Halt(Rejected(EmptyValue), parameter[..size]), size;
    }
    buffer[v] := NUL;
    assert buffer[pos..v] == t[pos..v];
    var valLen := v - pos + 1;
    if !ValidValue(table, id, CString(buffer[pos..v])) {
      return Halt(Rejected(BadValue), parameter[..size]), size;
    }
    if size + 2 + 2 + valLen > parameter.Length {
      return Halt(Rejected(TooLong), parameter[..size]), size;
    }
    Store(parameter, size, id, buffer, pos, valLen);
    size := size + 4 + valLen;
    if v + 1 == buffer.Length {
      return Halt(Overrun, parameter[..size]), size;
    }
    p := if buffer[v + 1] == NUL then Halt(Encoded, parameter[..size]) else Next(v + 1, parameter[..size]);
  }

  // The loop body: cuts the name at pos in place, looks it up and goes on with the value.
  method CutLine(buffer: array<char>, pos: nat, parameter: array<char>, offset: nat, table: Table, ghost t: string)
    returns (p: Progress, size: nat)
    requires pos < buffer.Length && offset <= parameter.Length && buffer != parameter
    requires Untouched(buffer, pos, t)
    modifies buffer, parameter
    ensures p == ParseLine(t, pos, old(parameter[..offset]), parameter.Length, table)
    ensures offset <= size <= parameter.Length && parameter[..size] == p.out
    ensures parameter[size..] == old(parameter[size..])
    ensures forall k :: 0 <= k < buffer.Length ==> buffer[k] == old(buffer[k]) || buffer[k] == NUL
    ensures p.Next? ==> Untouched(buffer, p.pos, t)
  {
    hide CString;
    hide Lookup;
    hide Find;
    hide ParseValue;
    size := offset;
    var e := Advance(buffer, pos, true, t);
    if e == buffer.Length {
      return Halt(Overrun, parameter[..size]), size;
    }
    var found := buffer[e];
    buffer[e] := NUL;
    if found == '\n' {
      return Halt(Rejected(NoEqualsSign), parameter[..size]), size;
    }
    assert buffer[pos..e] == t[pos..e];
    var id := Lookup(table.identities, CString(buffer[pos..e]));
    if id == None || table.identities[id.value].kind == NoSupport {
      return Halt(Rejected(NotSupported), parameter[..size]), size;
    }
    p, size := CutValue(buffer, e + 1, id.value, parameter, size, table, t);
  }

  // The do-while loop of _parse_update_parameters, from the first name on.
  method CutLines(buffer: array<char>, start: nat, parameter: array<char>, table: Table, ghost t: string)
    returns (r: Parsed, size: nat)
    requires start < buffer.Length && buffer != parameter && Untouched(buffer, start, t)
    modifies buffer, parameter
    ensures size <= parameter.Length
    ensures (r, parameter[..size]) == ParseFrom(t, start, [], parameter.Length, table)
    ensures parameter[size..] == old(parameter[size..])
    ensures forall k :: 0 <= k < buffer.Length ==> buffer[k] == old(buffer[k]) || buffer[k] == NUL
  {
    var pos := start;
    size := 0;
    assert parameter[..0] == [];
    while true
      invariant pos < buffer.Length && size <= parameter.Length && Untouched(buffer, pos, t)
      invariant forall k :: 0 <= k < buffer.Length ==> buffer[k] == old(buffer[k]) || buffer[k] == NUL
      invariant ParseFrom(t, pos, parameter[..size], parameter.Length, table)
             == ParseFrom(t, start, [], parameter.Length, table)
      invariant parameter[size..] == old(parameter[size..])
      decreases buffer.Length - pos
    {
      var p: Progress;
      ghost var before := parameter[size..];
      label L:
      ghost var was := size;
      p, size := CutLine(buffer, pos, parameter, size, table, t);
      assert parameter[size..] == old@L(parameter[size..]) == before[size - was..];
      assert old(parameter[was..])[size - was..] == old(parameter[size..]);
      if p.Halt? {
        return p.result, size;
      }
      pos := p.pos;
    }
  }

  // _parse_update_parameters
  method ParseUpdateParameters(buffer: array<char>, bufferLen: nat, parameter: array<char>, table: Table)
    returns (r: Parsed, size: nat)
    requires bufferLen <= buffer.Length <= MAX_BUFFER && buffer != parameter
    modifies buffer, parameter
    ensures size <= parameter.Length
    ensures (r, parameter[..size]) == Parse(old(buffer[..]), bufferLen, parameter.Length, table)
    ensures parameter[size..] == old(parameter[size..])
    ensures forall k :: 0 <= k < buffer.Length ==> buffer[k] == old(buffer[k]) || buffer[k] == NUL
  {
    hide ParseFrom;
    if bufferLen == 0 {
      return Rejected(NoParameter), 0;
    }
    var n := bufferLen;
    if buffer[bufferLen - 1] == NUL {
      n := n - 1;
    }
    if n < 2 || buffer[0] != '{' || buffer[n - 1] != '}' {
      return Rejected(NotSurrounded), 0;
    }
    buffer[n - 1] := NUL;
    if buffer[n - 2] != '\n' {
      return Rejected(LastNotEnded), 0;
    }
    ghost var t := old(buffer[..])[n - 1 := NUL];
    r, size := CutLines(buffer, 2, parameter, table, t);
  }

  // ----- decoding -----

  datatype Param = Param(ident: nat, dataLen: nat, data: string)

  // parse_command_parameters with room for size parameters; None if a record reaches past the buffer,
  // which the caller excludes: it decodes only what the server has encoded.
  function Decode(buffer: string, size: nat): (r: Option<seq<Param>>)
    ensures r.Some? ==> |r.value| <= size
    decreases size
  {
    if buffer == [] || size == 0 then Some([])
    else if |buffer| < 4 then None
    else
      var len := Value16(buffer[2], buffer[3]);
      if |buffer| < 4 + len then None
      else
        var rest := Decode(buffer[4 + len..], size - 1);
        if rest == None then None
        else Some([Param(Value16(buffer[0], buffer[1]), len, buffer[4..4 + len])] + rest.value)
  }

  // Decoding at an offset: one record there, then the rest.
  lemma DecodeAt(b: string, offset: nat, size: nat)
    requires offset < |b| && size > 0 && Decode(b[offset..], size).Some?
    ensures offset + 4 <= |b|
    ensures var len := Value16(b[offset + 2], b[offset + 3]);
      && offset + 4 + len <= |b|
      && Decode(b[offset + 4 + len..], size - 1).Some?
      && Decode(b[offset..], size).value
         == [Param(Value16(b[offset], b[offset + 1]), len, b[offset + 4..offset + 4 + len])]
            + Decode(b[offset + 4 + len..], size - 1).value
  {
    var rest := b[offset..];
    var len := Value16(rest[2], rest[3]);
    assert rest[4..4 + len] == b[offset + 4..offset + 4 + len];
    assert rest[4 + len..] == b[offset + 4 + len..];
  }

  // parse_command_parameters on the bufferSize characters that begin at start.
  method ParseCommandParameters(buffer: array<char>, start: nat, bufferSize: nat, lst: array<Param>) returns (ret: nat)
    requires start + bufferSize <= buffer.Length
    requires Decode(buffer[start..start + bufferSize], lst.Length).Some?
    modifies lst
    ensures ret <= lst.Length
    ensures Decode(buffer[start..start + bufferSize], lst.Length) == Some(lst[..ret])
    ensures forall k :: ret <= k < lst.Length ==> lst[k] == old(lst[k])
  {
    hide Decode;
    hide Value16;
    ghost var b := buffer[start..start + bufferSize];
    ghost var whole := Decode(b, lst.Length).value;
    var offset := 0;
    ret := 0;
    assert b[0..] == b && lst[..0] + whole == whole;
    while offset < bufferSize && ret < lst.Length
      invariant offset <= bufferSize && ret <= lst.Length
      invariant Decode(b[offset..], lst.Length - ret).Some?
      invariant lst[..ret] + Decode(b[offset..], lst.Length - ret).value == whole
      invariant forall k :: ret <= k < lst.Length ==> lst[k] == old(lst[k])
    {
      ghost var done := lst[..ret];
      DecodeAt(b, offset, lst.Length - ret);
      var ident := Value16(buffer[start + offset], buffer[start + offset + 1]);
      offset := offset + 2;
      var dataLen := Value16(buffer[start + offset], buffer[start + offset + 1]);
      offset := offset + 2;
      var data := buffer[start + offset..start + offset + dataLen];
      assert data == b[offset..offset + dataLen];
      lst[ret] := Param(ident, dataLen, data);
      offset := offset + dataLen;
      ret := ret + 1;
      assert lst[..ret] == done + [lst[ret - 1]];
      ConcatParams(done, [lst[ret - 1]], Decode(b[offset..], lst.Length - ret).value);
    }
    DecodeEnd(b[offset..], lst.Length - ret);
    assert lst[..ret] + [] == lst[..ret];
  }

  lemma ConcatParams(a: seq<Param>, b: seq<Param>, c: seq<Param>)
    ensures a + (b + c) == (a + b) + c
  {
  }

  lemma DecodeEnd(rest: string, size: nat)
    requires rest == [] || size == 0
    ensures Decode(rest, size) == Some([])
  {
  }

  // ----- what the pair is for -----

  // One line of an update command: the identity to set and its new value.
  datatype Setting = Setting(ident: nat, value: string)

  ghost predicate ProperName(s: string) {
    forall k :: 0 <= k < |s| ==> s[k] != NUL && s[k] != '\n' && s[k] != '='
  }

  ghost predicate ProperValue(s: string) {
    s != [] && forall k :: 0 <= k < |s| ==> s[k] != NUL && s[k] != '\n'
  }

  ghost predicate ValidSetting(p: Setting, table: Table) {
    && p.ident < |table.identities| <= 0x1_0000
    && ProperName(table.identities[p.ident].name)
    && Lookup(table.identities, table.identities[p.ident].name) == Some(p.ident)
    && table.identities[p.ident].kind != NoSupport
    && ProperValue(p.value)
    && ValidValue(table, p.ident, p.value)
  }

  ghost predicate ValidSettings(ps: seq<Setting>, table: Table) {
    forall k :: 0 <= k < |ps| ==> ValidSetting(ps[k], table)
  }

  // name=value, one per line
  function Lines(ps: seq<Setting>, table: Table): (r: string)
    requires forall k :: 0 <= k < |ps| ==> ps[k].ident < |table.identities|
    ensures ps != [] ==> |r| > 0 && r[|r| - 1] == '\n'
  {
    if ps == [] then []
    else Line(ps[0], table) + Lines(ps[1..], table)
  }

  function CommandText(ps: seq<Setting>, table: Table): (r: string)
    requires forall k :: 0 <= k < |ps| ==> ps[k].ident < |table.identities|
  {
    "{\n" + Lines(ps, table) + "}"
  }

  function Records(ps: seq<Setting>): (r: string) {
    if ps == [] then [] else Record(ps[0].ident, ps[0].value) + Records(ps[1..])
  }

  function Params(ps: seq<Setting>): (r: seq<Param>)
    ensures |r| == |ps|
  {
    seq(|ps|, k requires 0 <= k < |ps| => Param(ps[k].ident, |ps[k].value| + 1, ps[k].value + [NUL]))
  }

  lemma {:induction false} FindExactly(t: string, pos: nat, stopAtEquals: bool, r: nat)
    requires pos <= r < |t| && (t[r] == '\n' || (stopAtEquals && t[r] == '='))
    requires forall k :: pos <= k < r ==> t[k] != '\n' && (stopAtEquals ==> t[k] != '=')
    ensures Find(t, pos, stopAtEquals) == r
    decreases r - pos
  {
    if pos < r {
      FindExactly(t, pos + 1, stopAtEquals, r);
    }
  }

  lemma ParseLineAt(t: string, pos: nat, e: nat, v: nat, id: nat, out: string, capacity: nat, table: Table)
    requires pos <= e && e + 1 < v < |t| - 1 && t[e] == '=' && t[v] == '\n'
    requires forall k :: pos <= k < e ==> t[k] != '\n' && t[k] != '='
    requires forall k :: e < k < v ==> t[k] != '\n'
    requires Lookup(table.identities, CString(t[pos..e])) == Some(id) && table.identities[id].kind != NoSupport
    requires ValidValue(table, id, CString(t[e + 1..v])) && |out| + 4 + (v - e) <= capacity
    ensures var more := out + Record(id, t[e + 1..v]);
      ParseLine(t, pos, out, capacity, table) == if t[v + 1] == NUL then Halt(Encoded, more) else Next(v + 1, more)
  {
    hide Find;
    hide CString;
    hide Record;
    hide ValidValue;
    hide Lookup;
    FindExactly(t, pos, true, e);
    FindExactly(t, e + 1, false, v);
  }

  function Line(p: Setting, table: Table): (r: string)
    requires p.ident < |table.identities|
    ensures |r| == |table.identities[p.ident].name| + |p.value| + 2
  {
    table.identities[p.ident].name + "=" + p.value + "\n"
  }

  // t holds s from pos on.
  ghost predicate Holds(t: string, pos: nat, s: string) {
    pos + |s| <= |t| && forall k :: 0 <= k < |s| ==> t[pos + k] == s[k]
  }

  lemma LineLayout(t: string, pos: nat, name: string, value: string)
    requires Holds(t, pos, name + "=" + value + "\n")
    ensures var e, v := pos + |name|, pos + |name| + 1 + |value|;
      && v < |t| && t[e] == '=' && t[v] == '\n'
      && t[pos..e] == name && t[e + 1..v] == value
  {
    var line := name + "=" + value + "\n";
    var e, v := pos + |name|, pos + |name| + 1 + |value|;
    assert forall k :: 0 <= k < |name| ==> t[pos + k] == line[k] == name[k];
    assert forall k :: 0 <= k < |value| ==> t[pos + (|name| + 1 + k)] == line[|name| + 1 + k] == value[k];
    assert t[pos + |name|] == line[|name|] && t[pos + (|line| - 1)] == line[|line| - 1];
  }

  lemma ProperSlices(t: string, pos: nat, e: nat, v: nat)
    requires pos <= e < v < |t| && ProperName(t[pos..e]) && ProperValue(t[e + 1..v])
    ensures e + 1 < v
    ensures forall k :: pos <= k < e ==> t[k] != '\n' && t[k] != '='
    ensures forall k :: e < k < v ==> t[k] != '\n'
    ensures CString(t[pos..e]) == t[pos..e] && CString(t[e + 1..v]) == t[e + 1..v]
  {
    assert forall k :: pos <= k < e ==> t[k] == t[pos..e][k - pos];
    assert forall k :: e < k < v ==> t[k] == t[e + 1..v][k - e - 1];
    CStringWhole(t[pos..e]);
    CStringWhole(t[e + 1..v]);
  }

  // One well-formed line is turned into its record.
  lemma ParseLineExact(t: string, pos: nat, p: Setting, out: string, capacity: nat, table: Table)
    requires ValidSetting(p, table) && Holds(t, pos, Line(p, table)) && pos + |Line(p, table)| < |t|
    requires |out + Record(p.ident, p.value)| <= capacity
    ensures var next, more := pos + |Line(p, table)|, out + Record(p.ident, p.value);
      ParseLine(t, pos, out, capacity, table) == if t[next] == NUL then Halt(Encoded, more) else Next(next, more)
  {
    hide CString;
    hide Holds;
    hide ParseLine;
    hide Lookup;
    hide Record;
    hide ProperName;
    hide ProperValue;
    hide ValidValue;
    var name := table.identities[p.ident].name;
    var e, v := pos + |name|, pos + |name| + 1 + |p.value|;
    LineLayout(t, pos, name, p.value);
    ProperSlices(t, pos, e, v);
    ParseLineAt(t, pos, e, v, p.ident, out, capacity, table);
  }

  lemma SettingsSplit(ps: seq<Setting>, table: Table)
    requires ps != [] && ValidSettings(ps, table)
    ensures ps[0].ident < |table.identities| && ValidSetting(ps[0], table)
    ensures ValidSettings(ps[1..], table)
    ensures forall k :: 0 <= k < |ps[1..]| ==> ps[1..][k].ident < |table.identities|
  {
    hide ProperName;
    hide ProperValue;
    hide Lookup;
    hide ValidValue;
    assert forall k :: 0 <= k < |ps| ==> ValidSetting(ps[k], table);
  }

  lemma LinesSplit(t: string, pos: nat, ps: seq<Setting>, table: Table)
    requires ps != [] && forall k :: 0 <= k < |ps| ==> ps[k].ident < |table.identities|
    requires Holds(t, pos, Lines(ps, table) + [NUL])
    ensures Holds(t, pos, Line(ps[0], table))
    ensures Holds(t, pos + |Line(ps[0], table)|, Lines(ps[1..], table) + [NUL])
  {
    hide Holds;
    hide Line;
    ConcatAssociative(Line(ps[0], table), Lines(ps[1..], table), [NUL]);
    HoldsConcat(t, pos, Line(ps[0], table), Lines(ps[1..], table) + [NUL]);
  }

  lemma NextCharacter(t: string, pos: nat, ps: seq<Setting>, table: Table)
    requires ValidSettings(ps, table) && Holds(t, pos, Lines(ps, table) + [NUL])
    ensures pos < |t| && (t[pos] == NUL <==> ps == [])
  {
    assert t[pos + 0] == (Lines(ps, table) + [NUL])[0];
    if ps != [] {
      FirstOfLines(ps, table);
      assert (Lines(ps, table) + [NUL])[0] == Lines(ps, table)[0];
    }
  }

  lemma ConcatAssociative(a: string, b: string, c: string)
    ensures a + (b + c) == (a + b) + c
    ensures c == [] ==> a + (b + c) == a + b
  {
  }

  lemma ConcatEmpty(s: string)
    ensures [] + s == s
  {
  }

  lemma RecordsSplit(ps: seq<Setting>, out: string)
    requires ps != []
    ensures out + Records(ps) == (out + Record(ps[0].ident, ps[0].value)) + Records(ps[1..])
    ensures |ps| == 1 ==> out + Records(ps) == out + Record(ps[0].ident, ps[0].value)
  {
    hide Record;
    ConcatAssociative(out, Record(ps[0].ident, ps[0].value), Records(ps[1..]));
  }

  lemma {:induction false} ParseLinesExact(t: string, pos: nat, ps: seq<Setting>, out: string, capacity: nat, table: Table)
    requires ps != [] && ValidSettings(ps, table)
    requires Holds(t, pos, Lines(ps, table) + [NUL])
    requires |out + Records(ps)| <= capacity
    ensures ParseFrom(t, pos, out, capacity, table) == (Encoded, out + Records(ps))
    decreases |ps|
  {
    hide Lines;
    hide Holds;
    hide ValidSettings;
    hide ValidSetting;
    hide Record;
    hide Records;
    hide ParseLine;
    hide Line;
    SettingsSplit(ps, table);
    SettingsInTable(ps, table);
    LinesSplit(t, pos, ps, table);
    var next, more := pos + |Line(ps[0], table)|, out + Record(ps[0].ident, ps[0].value);
    RecordsSplit(ps, out);
    NextCharacter(t, next, ps[1..], table);
    ParseLineExact(t, pos, ps[0], out, capacity, table);
    if |ps| > 1 {
      ParseLinesExact(t, next, ps[1..], more, capacity, table);
    }
  }

  lemma HoldsConcat(t: string, pos: nat, a: string, b: string)
    requires Holds(t, pos, a + b)
    ensures Holds(t, pos, a) && Holds(t, pos + |a|, b)
  {
    forall k | 0 <= k < |a|
      ensures t[pos + k] == a[k]
    {
      assert (a + b)[k] == a[k];
    }
    forall k | 0 <= k < |b|
      ensures t[pos + |a| + k] == b[k]
    {
      assert (a + b)[|a| + k] == b[k] && t[pos + (|a| + k)] == (a + b)[|a| + k];
    }
  }

  lemma FirstOfLines(ps: seq<Setting>, table: Table)
    requires ps != [] && ValidSettings(ps, table)
    ensures Lines(ps, table)[0] != NUL
  {
    var name := table.identities[ps[0].ident].name;
    assert ValidSetting(ps[0], table);
    assert name != [] ==> Lines(ps, table)[0] == name[0];
    assert name == [] ==> Lines(ps, table)[0] == '=';
  }

  lemma SettingsInTable(ps: seq<Setting>, table: Table)
    requires ValidSettings(ps, table)
    ensures forall k :: 0 <= k < |ps| ==> ps[k].ident < |table.identities|
  {
    assert forall k :: 0 <= k < |ps| ==> ValidSetting(ps[k], table);
  }

  lemma ParseFramed(buffer: string, len: nat, n: nat, capacity: nat, table: Table)
    requires 0 < len <= |buffer| && 2 < n <= len && Trimmed(buffer, len) == n
    requires buffer[0] == '{' && buffer[n - 1] == '}' && buffer[n - 2] == '\n'
    ensures Parse(buffer, len, capacity, table) == ParseFrom(buffer[n - 1 := NUL], 2, [], capacity, table)
  {
    hide ParseFrom;
    hide Trimmed;
  }

  // Encoding: the text of a list of settings, ended by a null character or not and whatever follows
  // it in memory, yields exactly their records.
  lemma EncodeExact(ps: seq<Setting>, table: Table, buffer: string, len: nat, capacity: nat)
    requires ps != [] && ValidSettings(ps, table) && |Records(ps)| <= capacity
    requires len <= |buffer| && Holds(buffer, 0, CommandText(ps, table))
    requires len == |CommandText(ps, table)| || (len == |CommandText(ps, table)| + 1 && buffer[len - 1] == NUL)
    ensures Parse(buffer, len, capacity, table) == (Encoded, Records(ps))
  {
    hide Parse;
    hide ParseFrom;
    hide Holds;
    hide CommandText;
    hide Lines;
    hide Records;
    hide Trimmed;
    hide ValidSettings;
    hide ValidSetting;
    TextLayout(ps, table, buffer, len);
    SettingsInTable(ps, table);
    var n := |CommandText(ps, table)|;
    ParseFramed(buffer, len, n, capacity, table);
    ConcatEmpty(Records(ps));
    ParseLinesExact(buffer[n - 1 := NUL], 2, ps, [], capacity, table);
  }

  // What stands where in the text of a command.
  lemma CommandParts(ps: seq<Setting>, table: Table)
    requires ps != [] && ValidSettings(ps, table)
    ensures forall k :: 0 <= k < |ps| ==> ps[k].ident < |table.identities|
    ensures var text, lines := CommandText(ps, table), Lines(ps, table);
      && |text| == |lines| + 3 && |lines| > 0 && text[0] == '{' && text[|text| - 1] == '}' && text[|text| - 2] == '\n'
      && forall k :: 0 <= k < |lines| ==> text[2 + k] == lines[k]
  {
    var text, lines := CommandText(ps, table), Lines(ps, table);
    hide Lines;
    assert text[|text| - 2] == lines[|lines| - 1];
  }

  lemma TextLayout(ps: seq<Setting>, table: Table, buffer: string, len: nat)
    requires ps != [] && ValidSettings(ps, table)
    requires len <= |buffer| && Holds(buffer, 0, CommandText(ps, table))
    requires len == |CommandText(ps, table)| || (len == |CommandText(ps, table)| + 1 && buffer[len - 1] == NUL)
    ensures var n := |CommandText(ps, table)|;
      && 2 < n <= len && Trimmed(buffer, len) == n && buffer[0] == '{' && buffer[n - 1] == '}' && buffer[n - 2] == '\n'
      && Holds(buffer[n - 1 := NUL], 2, Lines(ps, table) + [NUL])
  {
    hide CommandText;
    hide Lines;
    hide ValidSetting;
    CommandParts(ps, table);
    var text, lines := CommandText(ps, table), Lines(ps, table);
    var n := |text|;
    assert buffer[0 + 0] == text[0] && buffer[0 + (n - 1)] == text[n - 1] && buffer[0 + (n - 2)] == text[n - 2];
    var t := buffer[n - 1 := NUL];
    forall k | 0 <= k < |lines + [NUL]|
      ensures t[2 + k] == (lines + [NUL])[k]
    {
      assert k < |lines| ==> buffer[0 + (2 + k)] == text[2 + k] == lines[k];
    }
  }

  lemma RecordLayout(id: nat, value: string, tail: string)
    ensures var b := Record(id, value) + tail;
      && |b| == 5 + |value| + |tail|
      && Value16(b[0], b[1]) == id % 0x1_0000
      && Value16(b[2], b[3]) == (|value| + 1) % 0x1_0000
      && b[4..4 + |value| + 1] == value + [NUL]
      && b[4 + |value| + 1..] == tail
  {
    var b := Record(id, value) + tail;
    Bytes16RoundTrip(id);
    Bytes16RoundTrip(|value| + 1);
    assert b[0] == Bytes16(id)[0] && b[1] == Bytes16(id)[1];
    assert b[2] == Bytes16(|value| + 1)[0] && b[3] == Bytes16(|value| + 1)[1];
    hide Bytes16;
    hide Value16;
  }

  lemma DecodeRecord(id: nat, value: string, tail: string, size: nat)
    requires id < 0x1_0000 && |value| + 1 < 0x1_0000 && size > 0
    ensures Decode(Record(id, value) + tail, size) ==
            if Decode(tail, size - 1) == None then None
            else Some([Param(id, |value| + 1, value + [NUL])] + Decode(tail, size - 1).value)
  {
    RecordLayout(id, value, tail);
    hide Record;
    hide Bytes16;
    hide Value16;
  }

  function Min(a: nat, b: nat): nat {
    if a <= b then a else b
  }

  lemma {:induction false} DecodeExact(ps: seq<Setting>, size: nat)
    requires forall k :: 0 <= k < |ps| ==> ps[k].ident < 0x1_0000 && |ps[k].value| + 1 < 0x1_0000
    ensures Decode(Records(ps), size) == Some(Params(ps)[..Min(|ps|, size)])
    decreases |ps|
  {
    hide Record;
    hide Records;
    hide Decode;
    hide Params;
    RecordsCons(ps);
    if ps == [] || size == 0 {
      DecodeEnd(Records(ps), size);
    } else {
      var p, rest := ps[0], ps[1..];
      DecodeRecord(p.ident, p.value, Records(rest), size);
      DecodeExact(rest, size - 1);
      ParamsStep(ps, Min(|rest|, size - 1));
    }
  }

  lemma RecordsCons(ps: seq<Setting>)
    ensures Records(ps) == if ps == [] then [] else Record(ps[0].ident, ps[0].value) + Records(ps[1..])
  {
  }

  lemma ParamsStep(ps: seq<Setting>, n: nat)
    requires ps != [] && n <= |ps| - 1
    ensures Params(ps)[..n + 1] == [Param(ps[0].ident, |ps[0].value| + 1, ps[0].value + [NUL])] + Params(ps[1..])[..n]
  {
  }

  // The scan leaves the received text only when nothing stands between the braces: for any other text,
  // in a buffer that ends with it, the parse is decided inside the text.
  lemma OverrunOnlyOnEmptyBraces(buffer: string, len: nat, capacity: nat, table: Table)
    requires len <= |buffer|
    ensures Parse(buffer, len, capacity, table).0 == Overrun ==>
              len > 0 && Trimmed(buffer, len) == 3 && buffer[..3] == "{\n}"
  {
    if len > 0 {
      var n := Trimmed(buffer, len);
      if n > 3 && buffer[0] == '{' && buffer[n - 1] == '}' && buffer[n - 2] == '\n' {
        NoOverrun(buffer[n - 1 := NUL], 2, n - 2, [], capacity, table);
      }
    }
  }

  lemma {:induction false} NoOverrun(t: string, pos: nat, last: nat, out: string, capacity: nat, table: Table)
    requires pos <= last < |t| - 1 && t[last] == '\n' && t[last + 1] == NUL
    ensures ParseFrom(t, pos, out, capacity, table).0 != Overrun
    decreases last - pos
  {
    hide CString;
    hide Lookup;
    hide Record;
    hide ValidValue;
    var e := Find(t, pos, true);
    assert e <= last;
    if t[e] == '=' {
      var v := Find(t, e + 1, false);
      assert v <= last;
      var p := ParseLine(t, pos, out, capacity, table);
      if p.Next? {
        assert p.pos == v + 1 && v < last;
        NoOverrun(t, p.pos, last, p.out, capacity, table);
      }
    }
  }

  // With nothing but the braces the scan goes on into whatever lies behind the text.
  lemma EmptyBracesOverrun(buffer: string, len: nat, capacity: nat, table: Table)
    requires 0 < len <= |buffer| && Trimmed(buffer, len) == 3 && buffer[..3] == "{\n}"
    requires forall k :: 3 <= k < |buffer| ==> buffer[k] != '\n' && buffer[k] != '='
    ensures Parse(buffer, len, capacity, table) == (Overrun, [])
  {
    assert buffer[0] == buffer[..3][0] && buffer[1] == buffer[..3][1] && buffer[2] == buffer[..3][2];
    NothingFound(buffer[2 := NUL], 2);
  }

  // The scan of a buffer that holds just the text leaves it if and only if there is nothing between the braces.
  lemma OverrunExactly(buffer: string, capacity: nat, table: Table)
    ensures Parse(buffer, |buffer|, capacity, table).0 == Overrun <==> buffer == "{\n}" || buffer == "{\n}" + [NUL]
  {
    OverrunOnlyOnEmptyBraces(buffer, |buffer|, capacity, table);
    if buffer == "{\n}" || buffer == "{\n}" + [NUL] {
      assert Trimmed(buffer, |buffer|) == 3 && buffer[..3] == "{\n}";
      EmptyBracesOverrun(buffer, |buffer|, capacity, table);
    } else if |buffer| > 0 && Trimmed(buffer, |buffer|) == 3 && buffer[..3] == "{\n}" {
      BracesWhole(buffer);
    }
  }

  lemma BracesWhole(buffer: string)
    requires |buffer| > 0 && Trimmed(buffer, |buffer|) == 3 && buffer[..3] == "{\n}"
    ensures buffer == "{\n}" || buffer == "{\n}" + [NUL]
  {
    if |buffer| == 3 {
      assert buffer == buffer[..3];
    } else {
      assert buffer == buffer[..3] + [buffer[3]];
    }
  }

  lemma {:induction false} NothingFound(t: string, pos: nat)
    requires pos <= |t| && forall k :: pos <= k < |t| ==> t[k] != '\n' && t[k] != '='
    ensures Find(t, pos, true) == |t|
    decreases |t| - pos
  {
    if pos < |t| {
      NothingFound(t, pos + 1);
    }
  }

  // End to end: what the control process reads as text is what the main process decodes,
  // the first `size` of them if there are more than the decoder has room for.
  lemma UpdateRoundTrip(ps: seq<Setting>, table: Table, buffer: string, len: nat, capacity: nat, size: nat)
    requires ps != [] && ValidSettings(ps, table) && |Records(ps)| <= capacity <= 10000
    requires len <= |buffer| && Holds(buffer, 0, CommandText(ps, table))
    requires len == |CommandText(ps, table)| || (len == |CommandText(ps, table)| + 1 && buffer[len - 1] == NUL)
    ensures Parse(buffer, len, capacity, table).0 == Encoded
    ensures |Parse(buffer, len, capacity, table).1| <= capacity
    ensures Decode(Parse(buffer, len, capacity, table).1, size)
         == Some(Params(ps)[..Min(|ps|, size)])
  {
    EncodeExact(ps, table, buffer, len, capacity);
    forall k | 0 <= k < |ps|
      ensures ps[k].ident < 0x1_0000 && |ps[k].value| + 1 < 0x1_0000
    {
      assert ValidSetting(ps[k], table);
      RecordsBound(ps, k);
    }
    DecodeExact(ps, size);
  }

  lemma {:induction false} RecordsBound(ps: seq<Setting>, k: nat)
    requires k < |ps|
    ensures |ps[k].value| + 5 <= |Records(ps)|
  {
    if k > 0 {
      RecordsBound(ps[1..], k - 1);
    }
  }
}
