// Licence files: what key_generator.c writes and src/modules/license/license.c reads.

/** Bytes as characters below 256, and the C library functions used on them. */
module LicenseText {
  import opened CStrings
  import opened Decimal
  import opened Fields

  const SHIFT := 8 * 4 - 3

  predicate IsBytes(s: string) {
    forall k :: 0 <= k < |s| ==> s[k] as int < 256
  }

  // _encrypt, for one character
  function Encrypt(c: char): (e: char)
    requires c as int < 256
    ensures e as int < 256
  {
    ((c as int - SHIFT) % 256) as char
  }

  function Decrypt(c: char): (d: char)
    requires c as int < 256
    ensures d as int < 256
  {
    ((c as int + SHIFT) % 256) as char
  }

  function EncryptAll(s: string): (e: string)
    requires IsBytes(s)
    ensures |e| == |s| && IsBytes(e)
  {
    seq(|s|, k requires 0 <= k < |s| => Encrypt(s[k]))
  }

  function DecryptAll(s: string): (d: string)
    requires IsBytes(s)
    ensures |d| == |s| && IsBytes(d)
  {
    seq(|s|, k requires 0 <= k < |s| => Decrypt(s[k]))
  }

  // A character as a signed number.
  function Signed(c: char): (v: int) {
    if c as int < 128 then c as int else c as int - 256
  }

  function Sum(s: string): (v: int) {
    if s == "" then 0 else Sum(s[..|s| - 1]) + Signed(s[|s| - 1])
  }

  function SkipSpaces(s: string): (t: string) {
    if s != "" && (s[0] == ' ' || 9 <= s[0] as int <= 13) then SkipSpaces(s[1..]) else s
  }

  function LeadingDigits(s: string): (d: string)
    ensures AllDigits(d) && |d| <= |s|
  {
    if s == "" || !IsDigit(s[0]) then "" else [s[0]] + LeadingDigits(s[1..])
  }

  // strtol, base 10
  function Strtol(s: string): (v: int) {
    var t := SkipSpaces(s);
    if t != "" && t[0] == '-' then 0 - Value(LeadingDigits(t[1..]))
    else if t != "" && t[0] == '+' then Value(LeadingDigits(t[1..]))
    else Value(LeadingDigits(t))
  }

  const LONG_MAX := 0x7FFF_FFFF_FFFF_FFFF

  // atol, which ends at the first character that is no digit and saturates; atoi on up to four characters.
  function Atol(s: string): (v: int) {
    var v := Strtol(s);
    if v > LONG_MAX then LONG_MAX else if v < -LONG_MAX - 1 then -LONG_MAX - 1 else v
  }

  lemma {:induction false} DigitsLead(s: string)
    requires AllDigits(s)
    ensures LeadingDigits(s) == s
  {
    if s != "" {
      DigitsLead(s[1..]);
    }
  }

  lemma StrtolOfDigits(s: string)
    requires s != "" && AllDigits(s)
    ensures Strtol(s) == Value(s)
  {
    DigitsLead(s);
    assert IsDigit(s[0]);
  }

  lemma {:induction false} DigitsEnd(s: string, rest: string)
    requires AllDigits(s) && (rest != "" ==> !IsDigit(rest[0]))
    ensures LeadingDigits(s + rest) == s
  {
    if s == "" {
      assert s + rest == rest;
    } else {
      assert (s + rest)[1..] == s[1..] + rest && IsDigit(s[0]);
      DigitsEnd(s[1..], rest);
    }
  }

  lemma NoSpace(s: string)
    requires s != "" && (IsDigit(s[0]) || s[0] == '-' || s[0] == '+')
    ensures SkipSpaces(s) == s
  {
  }

  // A number is read up to the first character that is no digit, with its sign, and whatever white space is before it.
  lemma StrtolExactly(d: string, rest: string)
    requires d != "" && AllDigits(d) && (rest != "" ==> !IsDigit(rest[0]))
    ensures Strtol(d + rest) == Strtol("+" + (d + rest)) == Value(d)
    ensures Strtol("-" + (d + rest)) == 0 - Value(d)
  {
    hide LeadingDigits;
    hide SkipSpaces;
    hide Value;
    var s := d + rest;
    DigitsEnd(d, rest);
    assert IsDigit(d[0]) && s[0] == d[0];
    NoSpace(s);
    NoSpace("+" + s);
    NoSpace("-" + s);
    assert ("+" + s)[1..] == s && ("-" + s)[1..] == s;
  }

  lemma SpacesAreSkipped(s: string)
    ensures Strtol(" " + s) == Strtol(s)
  {
    hide LeadingDigits;
    hide Value;
    assert (" " + s)[1..] == s;
  }

  // snprintf with "%03d"
  function ThreeDigits(n: nat): (s: string) {
    if |Digits(n)| < 3 then Zeros(3 - |Digits(n)|) + Digits(n) else Digits(n)
  }

  lemma ThreeDigitsValue(n: nat)
    requires n < 1000
    ensures |ThreeDigits(n)| == 3 && AllDigits(ThreeDigits(n)) && Value(ThreeDigits(n)) == n
  {
    DigitsBound(n);
    RoundTrip(n);
    assert Pow10(3) == 1000;
    if n == 0 {
      assert |Digits(0)| == 1;
    } else if |Digits(n)| > 3 {
      PowersGrow(3, |Digits(n)| - 1);
    }
    if |Digits(n)| < 3 {
      ZerosFirst(3 - |Digits(n)|, Digits(n));
    }
  }

  lemma DecryptEncrypt(c: char)
    requires c as int < 256
    ensures Decrypt(Encrypt(c)) == c
    ensures Encrypt(c) == NUL <==> c as int == 29
  {
  }

  lemma DecryptEncryptAll(s: string)
    requires IsBytes(s)
    ensures DecryptAll(EncryptAll(s)) == s
  {
    hide Encrypt;
    hide Decrypt;
    forall k | 0 <= k < |s|
      ensures DecryptAll(EncryptAll(s))[k] == s[k]
    {
      DecryptEncrypt(s[k]);
    }
  }

  lemma {:induction false} SumConcat(a: string, b: string)
    ensures Sum(a + b) == Sum(a) + Sum(b)
  {
    if b == "" {
      assert a + b == a;
    } else {
      SumConcat(a, b[..|b| - 1]);
      assert (a + b)[..|a + b| - 1] == a + b[..|b| - 1];
    }
  }

  // One character changed, the sum changed.
  lemma SumChange(s: string, k: nat, c: char)
    requires k < |s| && IsBytes(s) && c as int < 256
    ensures Sum(s[k := c]) == Sum(s) + Signed(c) - Signed(s[k])
    ensures c != s[k] ==> Sum(s[k := c]) != Sum(s)
  {
    var a, b := s[..k], s[k + 1..];
    SumConcat(a + [s[k]], b);
    SumConcat(a + [c], b);
    SumConcat(a, [s[k]]);
    SumConcat(a, [c]);
    SumOne(s[k]);
    SumOne(c);
    assert s == a + [s[k]] + b && s[k := c] == a + [c] + b;
  }

  lemma SumOne(c: char)
    ensures Sum([c]) == Signed(c)
  {
    assert [c][..0] == "";
  }
}

/** key_generator.c */
module KeyGenerator {
  import opened Common
  import opened CStrings
  import opened Decimal
  import opened AppendNumber
  import opened Fields
  import opened Appending
  import opened LicenseText

  // How parseOptions ends: exit status 0 after printing the usage, 1, 2, or a return.
  datatype Options = Usage | WrongAddresses | WrongDate | Parsed(count: nat)

  const SIZE := 3000

  function Dashes(macs: string): (n: nat) {
    if macs == "" then 0 else Dashes(macs[..|macs| - 1]) + (if macs[|macs| - 1] == '-' then 1 else 0)
  }

  function ParsedOptions(macs: string, date: string): (o: Options) {
    var n := 1 + Dashes(macs);
    if macs == "" then Usage
    else if |macs| != 18 * n - 1 then WrongAddresses
    else if |date| != 10 then WrongDate
    else Parsed(n)
  }

  method ParseOptions(macs: string, date: string) returns (o: Options)
    ensures o == ParsedOptions(macs, date)
  {
    if |macs| == 0 {
      return Usage;
    }
    var n := 1;
    for count := 0 to |macs|
      invariant n == 1 + Dashes(macs[..count])
    {
      assert macs[..count + 1][..count] == macs[..count];
      if macs[count] == '-' {
        n := n + 1;
      }
    }
    assert macs[..|macs|] == macs;
    var length := n * 17 + n - 1;
    if |macs| < length || |macs| > length {
      return WrongAddresses;
    }
    if |date| < 10 || |date| > 10 {
      return WrongDate;
    }
    o := Parsed(n);
  }

  // The addresses without their separators.
  function Strip(macs: string): (s: string) {
    if macs == "" then ""
    else
      var c := macs[|macs| - 1];
      Strip(macs[..|macs| - 1]) + (if c == ':' || c == '-' then "" else [c])
  }

  // What the checksum stands for, before it becomes an unsigned long.
  function Total(macs: string, date: string, n: nat): (v: int)
    requires |date| == 10
  {
    Strtol(date[..4]) * Strtol(date[5..7]) * Strtol(date[8..10]) + n + Sum(Strip(macs))
  }

  function Head(date: string, n: nat): (s: string)
    requires |date| == 10
  {
    date[..4] + date[5..7] + date[8..10] + ThreeDigits(n)
  }

  function Layout(macs: string, date: string, n: nat): (s: string)
    requires |date| == 10
  {
    Head(date, n) + Strip(macs) + Digits(Total(macs, date, n) % TWO_64)
  }

  // The file written, if the addresses fit in the buffer.
  function Generate(macs: string, date: string, n: nat): (file: Option<string>)
    requires |date| == 10 && IsBytes(macs) && IsBytes(date)
  {
    LayoutBytes(macs, date, n);
    if |Head(date, n)| + |Strip(macs)| >= SIZE then None
    else Some(CString(EncryptAll(Take(Layout(macs, date, n), SIZE - 1))))
  }

  lemma {:induction false} StripBytes(macs: string)
    requires IsBytes(macs)
    ensures IsBytes(Strip(macs))
    ensures NUL !in macs ==> NUL !in Strip(macs)
  {
    if macs != "" {
      StripBytes(macs[..|macs| - 1]);
    }
  }

  lemma LayoutBytes(macs: string, date: string, n: nat)
    requires |date| == 10 && IsBytes(macs) && IsBytes(date)
    ensures IsBytes(Layout(macs, date, n))
    ensures NUL !in macs && NUL !in date ==> NUL !in Layout(macs, date, n)
  {
    hide Digits;
    hide Total;
    StripBytes(macs);
  }

  function Nuls(k: nat): (s: string)
    ensures |s| == k
  {
    seq(k, _ => NUL)
  }

  // A buffer that holds text and is otherwise zero.
  ghost predicate Holds(buf: string, text: string) {
    |text| < |buf| && buf == text + Nuls(|buf| - |text|)
  }

  lemma HoldsMore(buf: string, text: string, more: string)
    requires Holds(buf, text) && |text| + |more| < |buf|
    ensures Holds(Overwrite(buf, |text|, more + [NUL]), text + more)
  {
  }

  // snprintf at offset: cut to the room left, and terminated.
  method Snprintf(data: array<char>, offset: nat, s: string, ghost text: string) returns (n: nat)
    requires offset == |text| && Holds(data[..], text)
    modifies data
    ensures n == |s| && Holds(data[..], text + Take(s, data.Length - 1 - offset))
  {
    hide Overwrite;
    hide Holds;
    HoldsLess(data[..], text);
    var cut := if |s| <= data.Length - 1 - offset then s else s[..data.Length - 1 - offset];
    HoldsMore(data[..], text, cut);
    Copy(data, offset, cut + [NUL]);
    n := |s|;
  }

  lemma HoldsLess(buf: string, text: string)
    requires Holds(buf, text)
    ensures |text| < |buf|
  {
  }

  method WriteHead(data: array<char>, date: string, n: nat) returns (offset: nat)
    requires |date| == 10 && data.Length == SIZE && Holds(data[..], "") && |ThreeDigits(n)| < 100
    modifies data
    ensures offset == |Head(date, n)| && Holds(data[..], Head(date, n))
  {
    hide Holds;
    hide ThreeDigits;
    ghost var text := "";
    offset := Snprintf(data, 0, date[..4], text);
    text := text + date[..4];
    var k := Snprintf(data, offset, date[5..7], text);
    offset, text := offset + k, text + date[5..7];
    k := Snprintf(data, offset, date[8..10], text);
    offset, text := offset + k, text + date[8..10];
    k := Snprintf(data, offset, ThreeDigits(n), text);
    offset, text := offset + k, text + ThreeDigits(n);
    assert text == Head(date, n);
  }

  // The addresses after text, and the sum of their characters.
  method WriteAddresses(data: array<char>, start: nat, macs: string, ghost text: string)
    returns (ok: bool, offset: nat, sum: int)
    requires start == |text| && Holds(data[..], text)
    modifies data
    ensures ok <==> |text| + |Strip(macs)| < data.Length
    ensures ok ==> sum == Sum(Strip(macs)) && offset == start + |Strip(macs)| && Holds(data[..], text + Strip(macs))
  {
    hide Holds;
    hide Overwrite;
    hide Strip;
    hide Sum;
    HoldsLess(data[..], text);
    offset, sum := start, 0;
    NothingStripped();
    assert text + Strip("") == text;
    for i := 0 to |macs|
      invariant offset == start + |Strip(macs[..i])| < data.Length
      invariant sum == Sum(Strip(macs[..i])) && Holds(data[..], text + Strip(macs[..i]))
    {
      var c := macs[i];
      StripStep(macs, i);
      if c == ':' || c == '-' {
        continue;
      }
      sum := sum + Signed(c);
      ghost var before, so := data[..], text + Strip(macs[..i]);
      data[offset] := c;
      offset := offset + 1;
      if offset >= data.Length {
        StripGrows(macs, i + 1);
        return false, offset, sum;
      }
      AddChar(before, so, c);
      assert so + [c] == text + (Strip(macs[..i]) + [c]);
    }
    assert macs[..|macs|] == macs;
    ok := true;
  }

  lemma NothingStripped()
    ensures Strip("") == "" && Sum("") == 0
  {
  }

  lemma StripStep(macs: string, i: nat)
    requires i < |macs|
    ensures Strip(macs[..i + 1]) == if macs[i] == ':' || macs[i] == '-' then Strip(macs[..i]) else Strip(macs[..i]) + [macs[i]]
    ensures Sum(Strip(macs[..i + 1]))
         == Sum(Strip(macs[..i])) + if macs[i] == ':' || macs[i] == '-' then 0 else Signed(macs[i])
  {
    assert macs[..i + 1][..i] == macs[..i];
    var s := Strip(macs[..i]);
    assert (s + [macs[i]])[..|s|] == s;
  }

  lemma {:induction false} StripGrows(macs: string, i: nat)
    requires i <= |macs|
    ensures |Strip(macs[..i])| <= |Strip(macs)|
    decreases |macs| - i
  {
    if i < |macs| {
      StripStep(macs, i);
      StripGrows(macs, i + 1);
    } else {
      assert macs[..i] == macs;
    }
  }

  lemma AddChar(buf: string, text: string, c: char)
    requires Holds(buf, text) && |text| + 1 < |buf|
    ensures Holds(buf[|text| := c], text + [c])
  {
  }

  // The loop of _encrypt, up to the null character.
  method EncryptInPlace(data: array<char>, ghost text: string)
    requires Holds(data[..], text) && IsBytes(text) && NUL !in text
    modifies data
    ensures data[..] == EncryptAll(text) + Nuls(data.Length - |text|)
  {
    hide Encrypt;
    var i := 0;
    while data[i] != NUL
      invariant i <= |text|
      invariant data[..] == EncryptAll(text)[..i] + text[i..] + Nuls(data.Length - |text|)
      decreases |text| - i
    {
      data[i] := Encrypt(data[i]);
      i := i + 1;
    }
  }

  lemma {:induction false} CStringPadded(s: string, k: nat)
    ensures CString(s + Nuls(k)) == CString(s)
  {
    if s == "" {
    } else {
      assert (s + Nuls(k))[1..] == s[1..] + Nuls(k);
      CStringPadded(s[1..], k);
    }
  }

  lemma ThreeDigitsShort(n: nat)
    requires n < TWO_64
    ensures |ThreeDigits(n)| <= 20
  {
    hide Digits;
    TwentyDigits(n);
  }

  // main, for options that parseOptions accepts.
  method WriteLicense(macs: string, date: string, n: nat) returns (file: Option<string>)
    requires ParsedOptions(macs, date) == Parsed(n) && n < TWO_64
    requires IsBytes(macs) && IsBytes(date) && NUL !in macs && NUL !in date
    ensures file == Generate(macs, date, n)
  {
    hide Holds;
    hide Overwrite;
    hide Digits;
    hide Strtol;
    hide Sum;
    var data := new char[SIZE](_ => NUL);
    AllNuls(data[..]);
    ThreeDigitsShort(n);
    LayoutBytes(macs, date, n);
    var offset := WriteHead(data, date, n);
    var checkSum := Strtol(date[..4]) * Strtol(date[5..7]) * Strtol(date[8..10]) + n;
    ghost var text := Head(date, n);
    var ok, end, sum := WriteAddresses(data, offset, macs, text);
    if !ok {
      return None;
    }
    text := text + Strip(macs);
    checkSum := (checkSum + sum) % TWO_64;
    HoldsLess(data[..], text);
    var k := Snprintf(data, end, Digits(checkSum), text);
    text := text + Take(Digits(checkSum), SIZE - 1 - end);
    CutLayout(macs, date, n);
    EncryptInPlace(data, text);
    CStringPadded(EncryptAll(text), SIZE - |text|);
    file := Some(CString(data[..]));
  }

  lemma AllNuls(buf: string)
    requires buf != "" && forall k :: 0 <= k < |buf| ==> buf[k] == NUL
    ensures Holds(buf, "")
  {
  }

  lemma CutLayout(macs: string, date: string, n: nat)
    requires |date| == 10 && IsBytes(macs) && IsBytes(date) && NUL !in macs && NUL !in date
    requires |Head(date, n)| + |Strip(macs)| < SIZE
    ensures var before := Head(date, n) + Strip(macs);
      var text := before + Take(Digits(Total(macs, date, n) % TWO_64), SIZE - 1 - |before|);
      && Take(Layout(macs, date, n), SIZE - 1) == text
      && IsBytes(text) && NUL !in text && |text| < SIZE
  {
    hide Digits;
    hide Total;
    hide Head;
    hide Strip;
    LayoutBytes(macs, date, n);
  }
}

/** _decode_license_file of license.c */
module License {
  import opened Common
  import opened CStrings
  import opened Decimal
  import opened LicenseText
  import opened KeyGenerator

  datatype Content = Content(year: int, month: int, day: int, count: int, macs: string)

  // Accepted is 0, Modified is MMT_LICENSE_MODIFIED, NotThere is MMT_LICENSE_KEY_DOES_NOT_EXIST, and NotConform is
  // the 2 returned for a file that is too short. Undefined: the code leaves one of its buffers.
  datatype Decoded = NotThere | NotConform | Modified | Accepted(content: Content) | Undefined

  const KEY_SIZE := 1000

  function Decode(file: Option<string>): (r: Decoded)
    requires file.Some? ==> IsBytes(file.value)
  {
    if file == None then NotThere
    else if |file.value| >= KEY_SIZE then Undefined
    else DecodeKey(DecryptAll(file.value))
  }

  function DecodeKey(key: string): (r: Decoded) {
    if |key| < 11 then NotConform
    else
      var year, month, day, count := Strtol(key[..4]), Strtol(key[4..6]), Strtol(key[6..8]), Strtol(key[8..11]);
      if count < 0 then Undefined
      else if |key| - 11 < 12 * count then Modified
      else
        var macs := key[11..11 + 12 * count];
        if Atol(key[11 + 12 * count..]) != Sum(macs) + year * month * day + count then Modified
        else Accepted(Content(year, month, day, count, macs))
  }

  // Reads the file to its end.
  method ReadKey(f: string) returns (key: array<char>, len: nat)
    requires IsBytes(f) && |f| < KEY_SIZE
    ensures fresh(key) && key.Length == KEY_SIZE && len == |f|
    ensures key[..len] == DecryptAll(f) && key[len] == NUL
  {
    hide Decrypt;
    key := new char[KEY_SIZE];
    len := 0;
    while len < |f|
      invariant len <= |f| && key[..len] == DecryptAll(f)[..len]
    {
      key[len] := Decrypt(f[len]);
      len := len + 1;
    }
    key[len] := NUL;
  }

  // macAddresses is the buffer of the caller.
  method DecodeLicenseFile(file: Option<string>, macAddresses: array<char>) returns (r: Decoded)
    requires file.Some? ==> IsBytes(file.value)
    requires Decode(file) != Undefined && macAddresses.Length >= KEY_SIZE
    modifies macAddresses
    ensures r == Decode(file)
    ensures r.Accepted? ==> macAddresses[..|r.content.macs|] == r.content.macs
  {
    hide Strtol;
    hide Decrypt;
    hide Atol;
    if file == None {
      return NotThere;
    }
    var key, len := ReadKey(file.value);
    ghost var text := DecryptAll(file.value);
    if len < 11 {
      return NotConform;
    }
    var year, month, day, count := Strtol(key[..4]), Strtol(key[4..6]), Strtol(key[6..8]), Strtol(key[8..11]);
    assert key[..4] == text[..4] && key[4..6] == text[4..6] && key[6..8] == text[6..8] && key[8..11] == text[8..11];
    var macLen := count * 12;
    if len - 11 < macLen {
      return Modified;
    }
    var sum := CopyAddresses(key, macLen, macAddresses);
    sum := sum + year * month * day + count;
    var val := Atol(key[11 + macLen..len]);
    assert key[11 + macLen..len] == text[11 + macLen..] && key[11..11 + macLen] == text[11..11 + macLen];
    if val != sum {
      return Modified;
    }
    r := Accepted(Content(year, month, day, count, key[11..11 + macLen]));
  }

  method CopyAddresses(key: array<char>, macLen: nat, macAddresses: array<char>) returns (sum: int)
    requires 11 + macLen <= key.Length && macLen <= macAddresses.Length && key != macAddresses
    modifies macAddresses
    ensures macAddresses[..macLen] == key[11..11 + macLen] && sum == Sum(key[11..11 + macLen])
  {
    sum := 0;
    for i := 0 to macLen
      invariant macAddresses[..i] == key[11..11 + i] && sum == Sum(key[11..11 + i])
    {
      macAddresses[i] := key[i + 11];
      sum := sum + Signed(key[i + 11]);
      assert key[11..11 + i + 1][..i] == key[11..11 + i];
    }
  }
}
