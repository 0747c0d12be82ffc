// The bounded field builder of src/lib/string_builder.h.

/** What each append function writes, and how much room it needs for it. */
module Fields {
  import opened Common
  import opened Decimal
  import opened AppendNumber

  type Mac = m: seq<u8> | |m| == 6 witness [0, 0, 0, 0, 0, 0]

  const INET_ADDRSTRLEN := 16

  // __CHAR, __ARR, __STR, __INT, __HEX, __MAC, __IPv4 and __TIME; strings are without their final NUL.
  datatype Field =
    | Char(c: char)
    | Arr(text: string)
    | Str(text: string)
    | Int(val: u64)
    | Hex(byte: u8)
    | MacAddress(mac: Mac)
    | IPv4(ip: u32)
    | Time(sec: u64, usec: u64)

  function Take(s: string, k: nat): (t: string) {
    if |s| <= k then s else s[..k]
  }

  function HexChar(d: nat): (c: char)
    requires d < 16
  {
    "0123456789ABCDEF"[d]
  }

  function HexText(v: u8): (s: string)
    ensures |s| == 2
  {
    [HexChar(v / 16), HexChar(v % 16)]
  }

  function MacText(m: Mac): (s: string)
    ensures |s| == 19
  {
    "\"" + HexText(m[0]) + ":" + HexText(m[1]) + ":" + HexText(m[2]) + ":" + HexText(m[3]) + ":" +
    HexText(m[4]) + ":" + HexText(m[5]) + "\""
  }

  // The bytes of an address in the memory of a little-endian machine.
  function Byte(ip: u32, k: nat): (b: u8)
    requires k < 4
  {
    match k
    case 0 => ip % 256
    case 1 => ip / 256 % 256
    case 2 => ip / 65536 % 256
    case 3 => ip / 16777216
  }

  function IPv4Text(ip: u32): (s: string) {
    Digits(Byte(ip, 0)) + "." + Digits(Byte(ip, 1)) + "." + Digits(Byte(ip, 2)) + "." + Digits(Byte(ip, 3))
  }

  function Zeros(k: nat): (s: string)
    ensures |s| == k
  {
    seq(k, _ => '0')
  }

  // The microseconds, filled up to six digits; all zero if they do not fit in six.
  function Micros(usec: nat): (s: string)
    ensures |s| == 6
  {
    Zeros(6 - |Number(6, usec)|) + Number(6, usec)
  }

  lemma {:induction false} ZerosFirst(k: nat, s: string)
    requires AllDigits(s)
    ensures AllDigits(Zeros(k) + s) && Value(Zeros(k) + s) == Value(s)
  {
    if s == "" {
      assert Zeros(k) + s == Zeros(k);
      if k > 0 {
        ZerosFirst(k - 1, s);
        assert Zeros(k)[..k - 1] == Zeros(k - 1) + "";
      } else {
        assert Zeros(k) == "";
      }
    } else {
      ZerosFirst(k, s[..|s| - 1]);
      assert (Zeros(k) + s)[..k + |s| - 1] == Zeros(k) + s[..|s| - 1];
    }
  }

  // What is written if there is room for everything.
  function Render(f: Field): (s: string) {
    match f
    case Char(c) => [c]
    case Arr(text) => text
    case Str(text) => "\"" + text + "\""
    case Int(val) => Digits(val)
    case Hex(byte) => HexText(byte)
    case MacAddress(mac) => MacText(mac)
    case IPv4(ip) => IPv4Text(ip)
    case Time(sec, usec) => Digits(sec) + "." + Micros(usec)
  }

  // What is written in a room of so many bytes.
  function Fit(f: Field, room: nat): (s: string)
    ensures |s| <= room
  {
    match f
    case Char(c) => if room == 0 then "" else [c]
    case Arr(text) => Take(text, room)
    case Str(text) => if room < 2 then "" else "\"" + Take(text, room - 2) + "\""
    case Int(val) => Number(room, val)
    case Hex(byte) => if room < 2 then "" else HexText(byte)
    case MacAddress(mac) => if room < 19 then "" else MacText(mac)
    case IPv4(ip) =>
      IPv4Length(ip);
      if room < INET_ADDRSTRLEN then "" else IPv4Text(ip)
    case Time(sec, usec) =>
      if room < 12 then ""
      else if room < |Number(room, sec)| + 7 then Number(room, sec)
      else Number(room, sec) + "." + Micros(usec)
  }

  // The assertion of append_timeval: beyond it the program aborts.
  predicate Survives(f: Field, room: nat) {
    f.Time? && room >= 12 ==> |Number(room, f.sec)| <= 12
  }

  // The room that a field needs.
  function Need(f: Field): (n: nat) {
    match f
    case IPv4(_) => INET_ADDRSTRLEN
    case Time(sec, _) => if |Digits(sec)| + 7 < 12 then 12 else |Digits(sec)| + 7
    case _ => |Render(f)|
  }

  lemma ByteDigits(v: u8)
    ensures |Digits(v)| <= 3
  {
    if v >= 100 {
      assert v / 10 / 10 < 10;
      assert |Digits(v / 10 / 10)| == 1 && |Digits(v / 10)| == 2;
    }
  }

  lemma IPv4Length(ip: u32)
    ensures 7 <= |IPv4Text(ip)| <= 15
  {
    hide Digits;
    hide Byte;
    ByteDigits(Byte(ip, 0));
    ByteDigits(Byte(ip, 1));
    ByteDigits(Byte(ip, 2));
    ByteDigits(Byte(ip, 3));
  }

  // No append function writes more than its room, nor more than the whole field, and it writes the whole
  // field exactly when it has the room needed.
  lemma FitExactly(f: Field, room: nat)
    ensures |Fit(f, room)| <= |Render(f)|
    ensures room >= Need(f) ==> Fit(f, room) == Render(f)
    ensures room < Need(f) ==> |Fit(f, room)| < |Render(f)|
    ensures |Render(f)| <= Need(f) <= |Render(f)| + 9
  {
    hide Digits;
    hide MacText;
    hide HexText;
    hide Micros;
    if f.IPv4? {
      hide IPv4Text;
      IPv4Length(f.ip);
    }
  }

  // What is written without that room: of a text as much as fits, between its quotes if it has them; of a time the
  // seconds, or only what comes behind them if even they do not fit in twelve bytes or more; of anything else nothing.
  lemma CutExactly(f: Field, room: nat)
    requires room < Need(f)
    ensures var s := Fit(f, room);
      match f
      case Arr(text) => s == text[..room]
      case Str(text) => if room < 2 then s == "" else |s| == room && s[0] == s[room - 1] == '"' && s[1..room - 1] == text[..room - 2]
      case Time(sec, usec) => s == (if room < 12 then "" else if |Digits(sec)| <= room then Digits(sec) else "." + Micros(usec))
      case _ => s == ""
  {
    hide Digits;
    hide MacText;
    hide HexText;
    hide Micros;
    hide IPv4Text;
  }
}

/** The append functions, over the bytes of the buffer from position at on; room is dst_size. */
module Appending {
  import opened Common
  import opened Decimal
  import opened AppendNumber
  import opened Fields

  lemma Chain(buf: seq<char>, at: nat, s: string, t: string)
    requires at + |s| + |t| <= |buf|
    ensures Overwrite(Overwrite(buf, at, s), at + |s|, t) == Overwrite(buf, at, s + t)
  {
  }

  lemma OneChar(buf: seq<char>, at: nat, c: char)
    requires at < |buf|
    ensures buf[at := c] == Overwrite(buf, at, [c])
  {
  }

  method Copy(dst: array<char>, at: nat, text: string)
    requires at + |text| <= dst.Length
    modifies dst
    ensures dst[..] == Overwrite(old(dst[..]), at, text)
  {
    forall k | 0 <= k < |text| {
      dst[at + k] := text[k];
    }
  }

  // The next character after text, which was written over before from position at on.
  method Put(dst: array<char>, at: nat, ghost text: string, next: nat, c: char, ghost before: seq<char>)
    requires next == at + |text| < dst.Length == |before| && dst[..] == Overwrite(before, at, text)
    modifies dst
    ensures dst[..] == Overwrite(before, at, text + [c])
  {
    hide Overwrite;
    OneChar(dst[..], next, c);
    Chain(before, at, text, [c]);
    dst[next] := c;
  }

  method AppendChar(dst: array<char>, at: nat, room: nat, c: char) returns (n: nat)
    requires at + room <= dst.Length
    modifies dst
    ensures n == |Fit(Char(c), room)| && dst[..] == Overwrite(old(dst[..]), at, Fit(Char(c), room))
  {
    hide Overwrite;
    if room == 0 {
      Nothing(dst[..], at);
      return 0;
    }
    OneChar(dst[..], at, c);
    dst[at] := c;
    n := 1;
  }

  method AppendString(dst: array<char>, at: nat, room: nat, src: string) returns (n: nat)
    requires at + room <= dst.Length
    modifies dst
    ensures n == |Fit(Str(src), room)| && dst[..] == Overwrite(old(dst[..]), at, Fit(Str(src), room))
  {
    hide Overwrite;
    ghost var before := dst[..];
    Nothing(before, at);
    assert "" + ['"'] == "\"";
    if room < 2 {
      return 0;
    } else if room == 2 {
      Put(dst, at, "", at, '"', before);
      Put(dst, at, "\"", at + 1, '"', before);
      assert Take(src, 0) == "" && "\"" + "" + "\"" == "\"" + ['"'];
      return 2;
    }
    var size := if |src| > room - 2 then room - 2 else |src|;
    Put(dst, at, "", at, '"', before);
    Copy(dst, at + 1, src[..size]);
    Chain(before, at, "\"", src[..size]);
    assert src[..size] == Take(src, room - 2);
    Put(dst, at, "\"" + src[..size], at + size + 1, '"', before);
    n := size + 2;
  }

  method AppendStringWithoutQuote(dst: array<char>, at: nat, room: nat, src: string) returns (n: nat)
    requires at + room <= dst.Length
    modifies dst
    ensures n == |Take(src, room)| && dst[..] == Overwrite(old(dst[..]), at, Take(src, room))
  {
    hide Overwrite;
    if room == 0 {
      Nothing(dst[..], at);
      return 0;
    }
    n := |src|;
    if n > room {
      n := room;
    }
    Copy(dst, at, src[..n]);
    assert src[..n] == Take(src, room);
  }

  method AppendHex(dst: array<char>, at: nat, room: nat, val: u8) returns (n: nat)
    requires at + room <= dst.Length
    modifies dst
    ensures n == |Fit(Hex(val), room)| && dst[..] == Overwrite(old(dst[..]), at, Fit(Hex(val), room))
  {
    hide Overwrite;
    hide HexChar;
    ghost var before := dst[..];
    Nothing(before, at);
    if room < 2 {
      return 0;
    }
    Put(dst, at, "", at, HexChar(val / 16), before);
    Put(dst, at, "" + [HexChar(val / 16)], at + 1, HexChar(val % 16), before);
    assert "" + [HexChar(val / 16)] + [HexChar(val % 16)] == HexText(val);
    n := 2;
  }

  method PutHex(dst: array<char>, at: nat, ghost text: string, next: nat, val: u8, ghost before: seq<char>)
    requires next == at + |text| && next + 2 <= dst.Length == |before| && dst[..] == Overwrite(before, at, text)
    modifies dst
    ensures dst[..] == Overwrite(before, at, text + HexText(val))
  {
    hide Overwrite;
    hide HexText;
    Chain(before, at, text, HexText(val));
    var _ := AppendHex(dst, next, 2, val);
  }

  method AppendMac(dst: array<char>, at: nat, room: nat, m: Mac) returns (n: nat)
    requires at + room <= dst.Length
    modifies dst
    ensures n == |Fit(MacAddress(m), room)| && dst[..] == Overwrite(old(dst[..]), at, Fit(MacAddress(m), room))
  {
    hide Overwrite;
    hide HexText;
    ghost var before := dst[..];
    Nothing(before, at);
    if room < 19 {
      return 0;
    }
    Put(dst, at, "", at, '"', before);
    ghost var text := "\"";
    assert "" + ['"'] == "\"";
    PutHex(dst, at, text, at + 1, m[0], before);
    text := text + HexText(m[0]);
    Put(dst, at, text, at + 3, ':', before);
    text := text + ":";
    PutHex(dst, at, text, at + 4, m[1], before);
    text := text + HexText(m[1]);
    Put(dst, at, text, at + 6, ':', before);
    text := text + ":";
    PutHex(dst, at, text, at + 7, m[2], before);
    text := text + HexText(m[2]);
    Put(dst, at, text, at + 9, ':', before);
    text := text + ":";
    PutHex(dst, at, text, at + 10, m[3], before);
    text := text + HexText(m[3]);
    Put(dst, at, text, at + 12, ':', before);
    text := text + ":";
    PutHex(dst, at, text, at + 13, m[4], before);
    text := text + HexText(m[4]);
    Put(dst, at, text, at + 15, ':', before);
    text := text + ":";
    PutHex(dst, at, text, at + 16, m[5], before);
    text := text + HexText(m[5]);
    Put(dst, at, text, at + 18, '"', before);
    n := 19;
  }

  method PutNumber(dst: array<char>, at: nat, ghost text: string, next: nat, room: nat, val: u8, ghost before: seq<char>)
    returns (n: nat)
    requires next == at + |text| && room >= 3 && next + room <= dst.Length == |before|
    requires dst[..] == Overwrite(before, at, text)
    modifies dst
    ensures n == |Digits(val)| <= 3 && dst[..] == Overwrite(before, at, text + Digits(val))
  {
    hide Overwrite;
    hide Digits;
    ByteDigits(val);
    Chain(before, at, text, Digits(val));
    n := Append(dst, next, room, val);
  }

  method AppendIPv4(dst: array<char>, at: nat, room: nat, ip: u32) returns (n: nat)
    requires at + room <= dst.Length
    modifies dst
    ensures n == |Fit(IPv4(ip), room)| && dst[..] == Overwrite(old(dst[..]), at, Fit(IPv4(ip), room))
  {
    hide Overwrite;
    hide Digits;
    hide Byte;
    ghost var before := dst[..];
    Nothing(before, at);
    if room < INET_ADDRSTRLEN {
      return 0;
    }
    ghost var text := "";
    n := 0;
    var k := PutNumber(dst, at, text, at + n, room - n, Byte(ip, 0), before);
    text, n := text + Digits(Byte(ip, 0)), n + k;
    Put(dst, at, text, at + n, '.', before);
    text, n := text + ".", n + 1;
    k := PutNumber(dst, at, text, at + n, room - n, Byte(ip, 1), before);
    text, n := text + Digits(Byte(ip, 1)), n + k;
    Put(dst, at, text, at + n, '.', before);
    text, n := text + ".", n + 1;
    k := PutNumber(dst, at, text, at + n, room - n, Byte(ip, 2), before);
    text, n := text + Digits(Byte(ip, 2)), n + k;
    Put(dst, at, text, at + n, '.', before);
    text, n := text + ".", n + 1;
    k := PutNumber(dst, at, text, at + n, room - n, Byte(ip, 3), before);
    text, n := text + Digits(Byte(ip, 3)), n + k;
    assert "" + Digits(Byte(ip, 0)) == Digits(Byte(ip, 0));
  }

  lemma Cover(buf: seq<char>, at: nat, text: string)
    requires at + 6 <= |buf| && |text| <= 6
    ensures Overwrite(Overwrite(buf, at, Zeros(6)), at + 6 - |text|, text) == Overwrite(buf, at, Zeros(6 - |text|) + text)
  {
  }

  lemma Front(buf: seq<char>, text: string)
    requires |text| <= |buf|
    ensures Overwrite(buf, 0, text)[..|text|] == text
  {
  }

  method WriteZeros(dst: array<char>, at: nat)
    requires at + 6 <= dst.Length
    modifies dst
    ensures dst[..] == Overwrite(old(dst[..]), at, Zeros(6))
  {
    dst[at], dst[at + 1], dst[at + 2], dst[at + 3], dst[at + 4], dst[at + 5] := '0', '0', '0', '0', '0', '0';
  }

  // The six digits of the microseconds: zeros first, then the number over the end of them.
  method WriteMicros(dst: array<char>, at: nat, usec: u64)
    requires at + 6 <= dst.Length
    modifies dst
    ensures dst[..] == Overwrite(old(dst[..]), at, Micros(usec))
  {
    hide Overwrite;
    hide Zeros;
    hide Number;
    ghost var before := dst[..];
    var tmp := new char[6];
    ghost var empty := tmp[..];
    var len := Append(tmp, 0, 6, usec);
    Front(empty, Number(6, usec));
    assert tmp[..len] == tmp[..][..len];
    WriteZeros(dst, at);
    ghost var zeros := dst[..];
    var base := at + 6 - len;
    Nothing(zeros, base);
    for i := 0 to len
      invariant tmp[..len] == Number(6, usec)
      invariant dst[..] == Overwrite(zeros, base, tmp[..i])
    {
      Put(dst, base, tmp[..i], base + i, tmp[i], zeros);
      assert tmp[..i] + [tmp[i]] == tmp[..i + 1];
    }
    Cover(before, at, Number(6, usec));
  }

  // append_timeval; beyond the precondition its assertion aborts the program.
  method AppendTimeval(dst: array<char>, at: nat, room: nat, sec: u64, usec: u64) returns (n: nat)
    requires at + room <= dst.Length && Survives(Time(sec, usec), room)
    modifies dst
    ensures n == |Fit(Time(sec, usec), room)| && dst[..] == Overwrite(old(dst[..]), at, Fit(Time(sec, usec), room))
  {
    hide Overwrite;
    hide Number;
    hide Micros;
    ghost var before := dst[..];
    Nothing(before, at);
    if room < 12 {
      return 0;
    }
    var offset := Append(dst, at, room, sec);
    assert offset <= 12;
    if room < offset + 7 {
      return offset;
    }
    ghost var text := Number(room, sec);
    Put(dst, at, text, at + offset, '.', before);
    WriteMicros(dst, at + offset + 1, usec);
    Chain(before, at, text + ".", Micros(usec));
    n := offset + 7;
  }
}

/** The macros STRING_BUILDER, whose separator is empty, and STRING_BUILDER_WITH_SEPARATOR. */
module Builder {
  import opened CStrings
  import opened Decimal
  import opened AppendNumber
  import opened Fields
  import opened Appending

  // What the macro writes in a room of so many bytes.
  function Built(fields: seq<Field>, separator: string, room: nat): (s: string)
    ensures |s| <= room
  {
    if fields == [] then ""
    else
      var s := Fit(fields[0], room);
      if |fields| == 1 then s
      else
        var t := s + Take(separator, room - |s|);
        t + Built(fields[1..], separator, room - |t|)
  }

  // The plain rendering of all fields.
  function Join(fields: seq<Field>, separator: string): (s: string) {
    if fields == [] then ""
    else if |fields| == 1 then Render(fields[0])
    else Render(fields[0]) + separator + Join(fields[1..], separator)
  }

  // The assertion of append_timeval never fires.
  predicate AllSurvive(fields: seq<Field>) {
    forall k :: 0 <= k < |fields| && fields[k].Time? ==> |Digits(fields[k].sec)| <= 12
  }

  method AppendField(dst: array<char>, at: nat, room: nat, f: Field) returns (n: nat)
    requires at + room <= dst.Length && Survives(f, room)
    modifies dst
    ensures n == |Fit(f, room)| && dst[..] == Overwrite(old(dst[..]), at, Fit(f, room))
  {
    hide Overwrite;
    match f
    case Char(c) => n := AppendChar(dst, at, room, c);
    case Arr(text) => n := AppendStringWithoutQuote(dst, at, room, text);
    case Str(text) => n := AppendString(dst, at, room, text);
    case Int(val) => n := Append(dst, at, room, val);
    case Hex(byte) => n := AppendHex(dst, at, room, byte);
    case MacAddress(mac) => n := AppendMac(dst, at, room, mac);
    case IPv4(ip) => n := AppendIPv4(dst, at, room, ip);
    case Time(sec, usec) => n := AppendTimeval(dst, at, room, sec, usec);
  }

  lemma NoRoom(f: Field)
    ensures Fit(f, 0) == ""
  {
  }

  // __BUILDER: a field after text, which was written over before from position valid on; n is the end of the room.
  method AddField(dst: array<char>, valid: nat, ghost text: string, i: nat, n: nat, f: Field, ghost before: seq<char>)
    returns (j: nat)
    requires i == valid + |text| <= n <= dst.Length == |before| && dst[..] == Overwrite(before, valid, text)
    requires Survives(f, n - i)
    modifies dst
    ensures j == i + |Fit(f, n - i)| && dst[..] == Overwrite(before, valid, text + Fit(f, n - i))
  {
    hide Overwrite;
    hide Fit;
    NoRoom(f);
    Chain(before, valid, text, Fit(f, n - i));
    assert text + "" == text;
    j := i;
    if n > i {
      var w := AppendField(dst, i, n - i, f);
      j := i + w;
    }
  }

  // __SEPARATOR
  method AddSeparator(dst: array<char>, valid: nat, ghost text: string, i: nat, n: nat, separator: string, ghost before: seq<char>)
    returns (j: nat)
    requires i == valid + |text| <= n <= dst.Length == |before| && dst[..] == Overwrite(before, valid, text)
    modifies dst
    ensures j == i + |Take(separator, n - i)| && dst[..] == Overwrite(before, valid, text + Take(separator, n - i))
  {
    hide Overwrite;
    Chain(before, valid, text, Take(separator, n - i));
    var w := AppendStringWithoutQuote(dst, i, n - i, separator);
    j := i + w;
  }

  // The text so far is followed by what is built from field k on.
  ghost predicate Follows(fields: seq<Field>, separator: string, room: nat, k: nat, text: string) {
    k <= |fields| && |text| <= room
    && text + Built(fields[k..], separator, room - |text|) == Built(fields, separator, room)
  }

  lemma FollowsStep(fields: seq<Field>, separator: string, room: nat, k: nat, text: string)
    requires Follows(fields, separator, room, k, text) && k < |fields|
    ensures var s := text + Fit(fields[k], room - |text|);
      Follows(fields, separator, room, k + 1, if k + 1 < |fields| then s + Take(separator, room - |s|) else s)
  {
    hide Fit;
    hide Take;
    var rest := fields[k..];
    assert rest[0] == fields[k] && rest[1..] == fields[k + 1..];
    var f := Fit(fields[k], room - |text|);
    if k + 1 < |fields| {
      var t := f + Take(separator, room - |text| - |f|);
      assert text + (t + Built(fields[k + 1..], separator, room - |text| - |t|))
          == (text + f) + Take(separator, room - |text| - |f|) + Built(fields[k + 1..], separator, room - |text| - |t|);
    } else {
      assert text + f + Built(fields[k + 1..], separator, room - |text| - |f|) == text + f;
    }
  }

  // dst_size is size; nothing outside of [valid, size) is written, and the text is terminated.
  method Build(dst: array<char>, valid: nat, size: nat, separator: string, fields: seq<Field>) returns (end: nat)
    requires valid < size <= dst.Length && AllSurvive(fields)
    modifies dst
    ensures end == valid + |Built(fields, separator, size - 1 - valid)| < size
    ensures dst[..] == Overwrite(old(dst[..]), valid, Built(fields, separator, size - 1 - valid) + [NUL])
  {
    hide Overwrite;
    hide Fit;
    hide Digits;
    hide Built;
    var i, n := valid, size - 1;
    ghost var before, text := dst[..], "";
    Nothing(before, valid);
    assert fields[0..] == fields;
    for k := 0 to |fields|
      invariant i == valid + |text| <= n
      invariant dst[..] == Overwrite(before, valid, text)
      invariant Follows(fields, separator, n - valid, k, text)
    {
      FollowsStep(fields, separator, n - valid, k, text);
      ghost var s := Fit(fields[k], n - i);
      i := AddField(dst, valid, text, i, n, fields[k], before);
      text := text + s;
      if k + 1 < |fields| {
        s := Take(separator, n - i);
        i := AddSeparator(dst, valid, text, i, n, separator, before);
        text := text + s;
      }
    }
    AllDone(fields, separator, n - valid, text);
    Put(dst, valid, text, i, NUL, before);
    end := i;
  }

  lemma AllDone(fields: seq<Field>, separator: string, room: nat, text: string)
    requires Follows(fields, separator, room, |fields|, text)
    ensures text == Built(fields, separator, room)
  {
    assert fields[|fields|..] == [];
  }

  // Room for every field at its place.
  predicate Enough(fields: seq<Field>, separator: string, room: int) {
    fields == [] ||
    (Need(fields[0]) <= room &&
     (|fields| == 1 ||
      (|Render(fields[0])| + |separator| <= room && Enough(fields[1..], separator, room - |Render(fields[0])| - |separator|))))
  }

  // The text is the joined rendering exactly when there is room for every field; it is shorter otherwise.
  lemma {:induction false} BuiltExactly(fields: seq<Field>, separator: string, room: nat)
    ensures |Built(fields, separator, room)| <= |Join(fields, separator)|
    ensures Enough(fields, separator, room) ==> Built(fields, separator, room) == Join(fields, separator)
    ensures !Enough(fields, separator, room) ==> |Built(fields, separator, room)| < |Join(fields, separator)|
  {
    hide Fit;
    hide Render;
    hide Need;
    if fields == [] {
    } else {
      var s := Fit(fields[0], room);
      FitExactly(fields[0], room);
      if |fields| > 1 {
        var t := Take(separator, room - |s|);
        BuiltExactly(fields[1..], separator, room - |s| - |t|);
        if |fields| > 1 && Enough(fields, separator, room) {
          assert s == Render(fields[0]) && t == separator;
        }
      }
    }
  }

  // Nine bytes more than the text are always enough.
  lemma {:induction false} NineMore(fields: seq<Field>, separator: string, room: int)
    requires |Join(fields, separator)| + 9 <= room
    ensures Enough(fields, separator, room)
  {
    hide Fit;
    hide Render;
    hide Need;
    if fields == [] {
    } else {
      FitExactly(fields[0], 0);
      if |fields| > 1 {
        NineMore(fields[1..], separator, room - |Render(fields[0])| - |separator|);
      }
    }
  }
}

/** Reading printed numbers back. */
module Reading {
  import opened Common
  import opened Decimal
  import opened AppendNumber
  import opened Fields
  import opened Builder

  // The position of the first c, or the length.
  function First(s: string, c: char): (k: nat)
    ensures k <= |s| && c !in s[..k] && (k < |s| ==> s[k] == c)
  {
    if s == "" || s[0] == c then 0
    else
      assert s[..First(s[1..], c) + 1] == [s[0]] + s[1..][..First(s[1..], c)];
      First(s[1..], c) + 1
  }

  function ValueOrZero(s: string): (v: nat) {
    if AllDigits(s) then Value(s) else 0
  }

  function Read(s: string, separator: char): (values: seq<nat>) {
    var k := First(s, separator);
    if k == |s| then [ValueOrZero(s)] else [ValueOrZero(s[..k])] + Read(s[k + 1..], separator)
  }

  lemma {:induction false} FirstAfter(s: string, c: char, rest: string)
    requires c !in s
    ensures First(s + [c] + rest, c) == |s| && First(s, c) == |s|
  {
    if s != "" {
      FirstAfter(s[1..], c, rest);
      assert (s + [c] + rest)[1..] == s[1..] + [c] + rest;
    }
  }

  lemma ReadOne(v: nat, c: char, rest: string)
    requires !IsDigit(c)
    ensures Read(Digits(v), c) == [v]
    ensures Read(Digits(v) + [c] + rest, c) == [v] + Read(rest, c)
  {
    hide Digits;
    hide First;
    var s := Digits(v);
    FirstAfter(s, c, rest);
    RoundTrip(v);
    assert (s + [c] + rest)[..|s|] == s && (s + [c] + rest)[|s| + 1..] == rest;
  }

  function Ints(values: seq<u64>): (fields: seq<Field>)
    ensures |fields| == |values|
  {
    seq(|values|, k requires 0 <= k < |values| => Int(values[k]))
  }

  // A line of numbers reads back as these numbers, if there was room for it.
  lemma {:induction false} NumbersReadBack(values: seq<u64>, c: char)
    requires values != [] && !IsDigit(c)
    ensures Read(Join(Ints(values), [c]), c) == values
  {
    hide Digits;
    hide First;
    hide Read;
    if |values| == 1 {
      ReadOne(values[0], c, "");
    } else {
      NumbersReadBack(values[1..], c);
      assert Ints(values)[1..] == Ints(values[1..]);
      ReadOne(values[0], c, Join(Ints(values[1..]), [c]));
      assert values == [values[0]] + values[1..];
    }
  }

  // An address reads back as its four bytes, which determine it.
  lemma IPv4ReadsBack(ip: u32)
    ensures Read(IPv4Text(ip), '.') == [Byte(ip, 0), Byte(ip, 1), Byte(ip, 2), Byte(ip, 3)]
    ensures ip == Byte(ip, 0) + 0x100 * Byte(ip, 1) + 0x1_0000 * Byte(ip, 2) + 0x100_0000 * Byte(ip, 3)
  {
    hide Byte;
    BytesOf(ip);
    hide Digits;
    hide First;
    hide Read;
    var d0, d1, d2, d3 := Digits(Byte(ip, 0)), Digits(Byte(ip, 1)), Digits(Byte(ip, 2)), Digits(Byte(ip, 3));
    ReadOne(Byte(ip, 3), '.', "");
    ReadOne(Byte(ip, 2), '.', d3);
    ReadOne(Byte(ip, 1), '.', d2 + ['.'] + d3);
    ReadOne(Byte(ip, 0), '.', d1 + ['.'] + (d2 + ['.'] + d3));
    assert IPv4Text(ip) == d0 + ['.'] + (d1 + ['.'] + (d2 + ['.'] + d3));
  }

  // A hexadecimal digit, and a byte written with two of them.
  function HexDigitValue(c: char): (v: nat) {
    if '0' <= c <= '9' then c as int - '0' as int
    else if 'A' <= c <= 'F' then 10 + c as int - 'A' as int
    else 0
  }

  function ReadHex(s: string, at: nat): (v: nat)
    requires at + 2 <= |s|
  {
    16 * HexDigitValue(s[at]) + HexDigitValue(s[at + 1])
  }

  lemma HexDigitReadsBack(d: nat)
    requires d < 16
    ensures HexDigitValue(HexChar(d)) == d
  {
  }

  lemma HexReadsBack(v: u8)
    ensures ReadHex(HexText(v), 0) == v
  {
    hide HexChar;
    hide HexDigitValue;
    HexDigitReadsBack(v / 16);
    HexDigitReadsBack(v % 16);
  }

  // A MAC address is quoted, its bytes stand in their order and are separated by colons; hence the text determines it.
  lemma MacReadsBack(m: Mac)
    ensures var s := MacText(m);
      && s[0] == s[18] == '"' && (forall k :: 0 <= k < 5 ==> s[3 * k + 3] == ':')
      && forall k :: 0 <= k < 6 ==> ReadHex(s, 3 * k + 1) == m[k]
  {
    hide HexText;
    hide HexDigitValue;
    var s := MacText(m);
    forall k | 0 <= k < 6
      ensures ReadHex(s, 3 * k + 1) == m[k]
    {
      var h := HexText(m[k]);
      assert s[3 * k + 1] == h[0] && s[3 * k + 2] == h[1];
      HexReadsBack(m[k]);
    }
  }

  // A quoted text stands between its quotes.
  lemma QuotedReadsBack(text: string)
    ensures var s := Render(Str(text)); |s| == |text| + 2 && s[0] == s[|s| - 1] == '"' && s[1..|s| - 1] == text
  {
  }

  lemma BytesOf(ip: u32)
    ensures ip == Byte(ip, 0) + 0x100 * Byte(ip, 1) + 0x1_0000 * Byte(ip, 2) + 0x100_0000 * Byte(ip, 3)
  {
  }
}
