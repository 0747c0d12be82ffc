// Licences from key_generator.c to license.c: what is written is read back, and changes are noticed.

module LicenseProperties {
  import opened Common
  import opened CStrings
  import opened Decimal
  import opened Fields
  import opened Reading
  import opened LicenseText
  import opened KeyGenerator
  import opened License

  // The date is made of digits where the year, the month and the day are looked for.
  predicate DateDigits(date: string) {
    |date| == 10 && IsBytes(date) && NUL !in date
    && AllDigits(date[..4]) && AllDigits(date[5..7]) && AllDigits(date[8..10])
  }

  // Addresses of twelve characters, without counting separators.
  predicate TwelveEach(macs: string, n: nat) {
    IsBytes(macs) && NUL !in macs && |Strip(macs)| == 12 * n
  }

  const LOST: char := SHIFT as char // the character that is encrypted to a null character

  function Expected(macs: string, date: string, n: nat): (c: Content)
    requires DateDigits(date)
  {
    Content(Value(date[..4]), Value(date[5..7]), Value(date[8..10]), n, Strip(macs))
  }

  lemma {:induction false} DigitsValueBound(s: string)
    requires AllDigits(s)
    ensures Value(s) < Pow10(|s|)
  {
    if s != "" {
      DigitsValueBound(s[..|s| - 1]);
    }
  }

  lemma DateValues(date: string)
    requires DateDigits(date)
    ensures Strtol(date[..4]) == Value(date[..4]) < 10000
    ensures Strtol(date[5..7]) == Value(date[5..7]) < 100
    ensures Strtol(date[8..10]) == Value(date[8..10]) < 100
  {
    hide Strtol;
    hide Value;
    StrtolOfDigits(date[..4]);
    StrtolOfDigits(date[5..7]);
    StrtolOfDigits(date[8..10]);
    DigitsValueBound(date[..4]);
    DigitsValueBound(date[5..7]);
    DigitsValueBound(date[8..10]);
    assert Pow10(4) == 10000 && Pow10(2) == 100;
  }

  lemma {:induction false} SumBound(s: string)
    requires IsBytes(s)
    ensures -128 * |s| <= Sum(s) <= 127 * |s|
  {
    if s != "" {
      SumBound(s[..|s| - 1]);
    }
  }

  lemma ProductBound(a: nat, b: nat, c: nat)
    requires a < 10000 && b < 100 && c < 100
    ensures 0 <= a * b * c <= 100000000
  {
    assert a * b <= 10000 * 100;
    assert a * b * c <= 1000000 * 100;
  }

  lemma TotalBound(macs: string, date: string, n: nat)
    requires DateDigits(date) && n < 250 && TwelveEach(macs, n)
    ensures -400000 < Total(macs, date, n) < 200000000
  {
    hide Strip;
    hide Strtol;
    hide Value;
    hide Sum;
    DateValues(date);
    ProductBound(Value(date[..4]), Value(date[5..7]), Value(date[8..10]));
    StripBytes(macs);
    SumBound(Strip(macs));
  }

  // The parts of a key that begins as the generator begins it.
  lemma HeadParts(macs: string, date: string, n: nat, rest: string)
    requires DateDigits(date) && n < 1000
    ensures |Head(date, n)| == 11
    ensures var key := Head(date, n) + rest;
      && Strtol(key[..4]) == Value(date[..4]) && Strtol(key[4..6]) == Value(date[5..7])
      && Strtol(key[6..8]) == Value(date[8..10]) && Strtol(key[8..11]) == n
  {
    hide Strtol;
    hide Value;
    hide ThreeDigits;
    ThreeDigitsValue(n);
    StrtolOfDigits(ThreeDigits(n));
    DateValues(date);
    var key := Head(date, n) + rest;
    assert key[..4] == date[..4] && key[4..6] == date[5..7] && key[6..8] == date[8..10] && key[8..11] == ThreeDigits(n);
  }

  // The number read at the end is the total, if that is not negative.
  lemma ReadTotal(total: int)
    requires -400000 < total < 200000000
    ensures Atol(Digits(total % TWO_64)) == total <==> total >= 0
    ensures total >= 0 ==> |Digits(total % TWO_64)| <= 9
  {
    hide Digits;
    hide Strtol;
    hide Value;
    hide Pow10;
    var v := total % TWO_64;
    StrtolOfDigits(Digits(v));
    RoundTrip(v);
    if total >= 0 {
      assert v == total;
      NineDigits(v);
    } else {
      assert v == total + TWO_64;
    }
  }

  lemma NineDigits(v: nat)
    requires v < 200000000
    ensures |Digits(v)| <= 9
  {
    hide Digits;
    DigitsBound(v);
    assert Pow10(9) == 1000000000;
    if v == 0 {
      DigitCount(0, 1);
    } else if |Digits(v)| > 9 {
      PowersGrow(9, |Digits(v)| - 1);
    }
  }

  // The generator's text decodes to what went into it, unless the total is negative.
  lemma KeyDecodes(macs: string, date: string, n: nat)
    requires DateDigits(date) && n < 250 && TwelveEach(macs, n)
    ensures DecodeKey(Layout(macs, date, n)) == if Total(macs, date, n) >= 0 then Accepted(Expected(macs, date, n)) else Modified
  {
    hide Strtol;
    hide Atol;
    hide Value;
    hide Sum;
    hide Strip;
    hide Digits;
    hide Head;
    var total := Total(macs, date, n);
    TotalBound(macs, date, n);
    var digits := Digits(total % TWO_64);
    ReadTotal(total);
    HeadParts(macs, date, n, Strip(macs) + digits);
    DateValues(date);
    var key := Layout(macs, date, n);
    assert key == Head(date, n) + (Strip(macs) + digits);
    assert key[11..11 + 12 * n] == Strip(macs) && key[11 + 12 * n..] == digits;
  }

  lemma NoNulEncrypted(s: string)
    requires IsBytes(s) && LOST !in s
    ensures NUL !in EncryptAll(s) && CString(EncryptAll(s)) == EncryptAll(s)
  {
    hide Encrypt;
    hide CString;
    forall k | 0 <= k < |s|
      ensures EncryptAll(s)[k] != NUL
    {
      DecryptEncrypt(s[k]);
    }
    CStringWhole(EncryptAll(s));
  }

  // What fits in the generator's buffer.
  function Kept(macs: string, date: string, n: nat): (key: string)
    requires |date| == 10
  {
    Take(Layout(macs, date, n), SIZE - 1)
  }

  // The buffer takes up to 249 addresses.
  lemma HowMany(macs: string, date: string, n: nat)
    requires DateDigits(date) && TwelveEach(macs, n)
    ensures Generate(macs, date, n).Some? <==> n < 250
  {
    hide Strip;
    hide Digits;
    hide ThreeDigits;
    hide Total;
    hide CString;
    if n < 1000 {
      ThreeDigitsValue(n);
    }
  }

  lemma KeptFits(macs: string, date: string, n: nat)
    requires DateDigits(date) && n < 250 && TwelveEach(macs, n)
    ensures IsBytes(Kept(macs, date, n)) && Kept(macs, date, n) <= Layout(macs, date, n)
    ensures var size := 11 + 12 * n + |Digits(Total(macs, date, n) % TWO_64)|;
      |Layout(macs, date, n)| == size && |Kept(macs, date, n)| == (if size < SIZE then size else SIZE - 1) >= 11 + 12 * n
    ensures |Layout(macs, date, n)| < SIZE ==> Kept(macs, date, n) == Layout(macs, date, n)
    ensures Generate(macs, date, n) == Some(CString(EncryptAll(Kept(macs, date, n))))
  {
    hide CString;
    hide Strip;
    hide Digits;
    hide ThreeDigits;
    hide Total;
    ThreeDigitsValue(n);
    LayoutBytes(macs, date, n);
  }

  // The lost character can only be in the addresses.
  lemma WhereLost(macs: string, date: string, n: nat, k: nat)
    requires DateDigits(date) && n < 250 && TwelveEach(macs, n) && k < |Layout(macs, date, n)|
    ensures Layout(macs, date, n)[k] == LOST ==> 11 <= k < 11 + 12 * n && Strip(macs)[k - 11] == LOST
    ensures 11 <= k < 11 + 12 * n ==> Layout(macs, date, n)[k] == Strip(macs)[k - 11]
  {
    hide Strip;
    hide Digits;
    hide ThreeDigits;
    hide Total;
    ThreeDigitsValue(n);
    var head, rest := Head(date, n), Digits(Total(macs, date, n) % TWO_64);
    HeadDigits(date, n);
    var key := Layout(macs, date, n);
    assert key == head + Strip(macs) + rest;
    assert k < 11 ==> key[k] == head[k];
    assert k >= 11 + 12 * n ==> key[k] == rest[k - 11 - 12 * n];
  }

  lemma HeadDigits(date: string, n: nat)
    requires DateDigits(date) && n < 250
    ensures |Head(date, n)| == 11 && AllDigits(Head(date, n))
  {
    hide ThreeDigits;
    ThreeDigitsValue(n);
  }

  // A file ends where the first lost character is encrypted.
  lemma CutAt(key: string, k: nat)
    requires IsBytes(key) && k < |key| && key[k] == LOST && LOST !in key[..k]
    ensures |CString(EncryptAll(key))| == k && DecryptAll(CString(EncryptAll(key))) == key[..k]
  {
    hide Encrypt;
    hide Decrypt;
    hide CString;
    var code := EncryptAll(key);
    DecryptEncrypt(LOST);
    NoNulEncrypted(key[..k]);
    assert code[..k] == EncryptAll(key[..k]) && code == code[..k] + [NUL] + code[k + 1..];
    CStringEnded(code[..k], code[k + 1..]);
    DecryptEncryptAll(key[..k]);
  }

  // A file that is cut in the addresses has too few of them.
  lemma CutKeyIsModified(macs: string, date: string, n: nat, p: nat)
    requires DateDigits(date) && n < 250 && TwelveEach(macs, n) && p < 12 * n
    ensures 11 + p < |Layout(macs, date, n)| && DecodeKey(Layout(macs, date, n)[..11 + p]) == Modified
  {
    hide Strip;
    hide Digits;
    hide Total;
    hide Strtol;
    hide Head;
    HeadDigits(date, n);
    var rest := Strip(macs)[..p];
    assert Layout(macs, date, n)[..11 + p] == Head(date, n) + rest;
    HeadParts(macs, date, n, rest);
  }

  lemma FirstLost(macs: string, date: string, n: nat)
    requires DateDigits(date) && n < 250 && TwelveEach(macs, n) && LOST in Strip(macs)
    ensures var key, p := Kept(macs, date, n), First(Strip(macs), LOST);
      p < 12 * n && 11 + p < |key| && key[11 + p] == LOST && LOST !in key[..11 + p]
  {
    hide Strip;
    hide Layout;
    hide Digits;
    KeptFits(macs, date, n);
    var key, layout, p := Kept(macs, date, n), Layout(macs, date, n), First(Strip(macs), LOST);
    FirstIn(Strip(macs), LOST);
    WhereLost(macs, date, n, 11 + p);
    forall k | 0 <= k < 11 + p
      ensures key[k] != LOST
    {
      WhereLost(macs, date, n, k);
      assert 11 <= k ==> Strip(macs)[k - 11] == Strip(macs)[..p][k - 11];
    }
  }

  lemma {:induction false} FirstIn(s: string, c: char)
    requires c in s
    ensures First(s, c) < |s|
  {
    if s[0] != c {
      FirstIn(s[1..], c);
    }
  }

  lemma NothingLost(macs: string, date: string, n: nat)
    requires DateDigits(date) && n < 250 && TwelveEach(macs, n) && LOST !in Strip(macs)
    ensures LOST !in Kept(macs, date, n)
  {
    hide Strip;
    hide Layout;
    hide Digits;
    KeptFits(macs, date, n);
    forall k | 0 <= k < |Kept(macs, date, n)|
      ensures Kept(macs, date, n)[k] != LOST
    {
      WhereLost(macs, date, n, k);
    }
  }

  // If a character is lost, the file is cut there, and what comes before it counts as modified.
  lemma LostInTheWay(macs: string, date: string, n: nat)
    requires DateDigits(date) && TwelveEach(macs, n) && Generate(macs, date, n).Some? && LOST in Strip(macs)
    ensures Decode(Generate(macs, date, n)) == if 11 + First(Strip(macs), LOST) < KEY_SIZE then Modified else Undefined
  {
    hide Strip;
    hide Digits;
    hide Layout;
    hide Total;
    hide DecodeKey;
    hide CString;
    hide Kept;
    hide First;
    HowMany(macs, date, n);
    KeptFits(macs, date, n);
    var key, p := Kept(macs, date, n), First(Strip(macs), LOST);
    FirstLost(macs, date, n);
    CutAt(key, 11 + p);
    CutKeyIsModified(macs, date, n, p);
    assert key[..11 + p] == Layout(macs, date, n)[..11 + p];
  }

  // If no character is lost, the size and the total decide.
  lemma NothingInTheWay(macs: string, date: string, n: nat)
    requires DateDigits(date) && TwelveEach(macs, n) && Generate(macs, date, n).Some? && LOST !in Strip(macs)
    ensures var total := Total(macs, date, n);
      Decode(Generate(macs, date, n)) ==
        if 11 + 12 * n + |Digits(total % TWO_64)| >= KEY_SIZE then Undefined
        else if total >= 0 then Accepted(Expected(macs, date, n)) else Modified
  {
    hide Strip;
    hide Digits;
    hide Layout;
    hide Total;
    hide DecodeKey;
    hide CString;
    hide Kept;
    hide Generate;
    hide Expected;
    HowMany(macs, date, n);
    KeptFits(macs, date, n);
    var key := Kept(macs, date, n);
    NothingLost(macs, date, n);
    NoNulEncrypted(key);
    DecryptEncryptAll(key);
    KeyDecodes(macs, date, n);
  }

  // For every date of digits and every number of addresses of twelve characters that the generator's buffer takes:
  // the written file is accepted with the same date, count and addresses if and only if no character is the lost one,
  // the total is not negative and the file is shorter than the decoder's buffer.
  lemma RoundTripExactly(macs: string, date: string, n: nat)
    requires DateDigits(date) && TwelveEach(macs, n) && Generate(macs, date, n).Some?
    ensures var total := Total(macs, date, n);
      Decode(Generate(macs, date, n)) == Accepted(Expected(macs, date, n)) <==>
        LOST !in Strip(macs) && total >= 0 && 11 + 12 * n + |Digits(total % TWO_64)| < KEY_SIZE
  {
    hide Strip;
    hide Digits;
    hide Total;
    hide Generate;
    hide Decode;
    hide First;
    if LOST in Strip(macs) {
      LostInTheWay(macs, date, n);
    } else {
      NothingInTheWay(macs, date, n);
    }
  }

  // Eighty-one addresses always fit in the decoder's buffer; from there on it depends on the total.
  lemma EightyOneFit(macs: string, date: string, n: nat)
    requires DateDigits(date) && n <= 81 && TwelveEach(macs, n) && Total(macs, date, n) >= 0
    ensures 11 + 12 * n + |Digits(Total(macs, date, n) % TWO_64)| < KEY_SIZE
  {
    hide Strip;
    hide Digits;
    hide Total;
    TotalBound(macs, date, n);
    NineDigits(Total(macs, date, n));
    assert Total(macs, date, n) % TWO_64 == Total(macs, date, n);
  }

  lemma {:induction false} SumOfAscii(s: string)
    requires forall k :: 0 <= k < |s| ==> s[k] as int < 128
    ensures Sum(s) >= 0
  {
    if s != "" {
      SumOfAscii(s[..|s| - 1]);
    }
  }

  // For up to 81 ASCII addresses only the lost character is in the way.
  lemma AsciiRoundTrip(macs: string, date: string, n: nat)
    requires DateDigits(date) && n <= 81 && TwelveEach(macs, n)
    requires forall k :: 0 <= k < |Strip(macs)| ==> Strip(macs)[k] as int < 128
    ensures Decode(Generate(macs, date, n)) == Accepted(Expected(macs, date, n)) <==> LOST !in Strip(macs)
  {
    hide Strip;
    hide Digits;
    hide Decode;
    hide Generate;
    hide First;
    HowMany(macs, date, n);
    RoundTripExactly(macs, date, n);
    SumOfAscii(Strip(macs));
    DateValues(date);
    ProductBound(Value(date[..4]), Value(date[5..7]), Value(date[8..10]));
    EightyOneFit(macs, date, n);
  }

  // A file that is accepted, with other addresses of the same length in it: exactly the sum of the characters decides.
  lemma TamperExactly(key: string, other: string, content: Content)
    requires DecodeKey(key) == Accepted(content) && |other| == |key|
    requires other[..11] == key[..11] && other[11 + 12 * content.count..] == key[11 + 12 * content.count..]
    ensures var macs := other[11..11 + 12 * content.count];
      DecodeKey(other) == if Sum(macs) == Sum(content.macs) then Accepted(content.(macs := macs)) else Modified
  {
    hide Strtol;
    hide Atol;
    hide Sum;
    assert other[..4] == other[..11][..4] && other[4..6] == other[..11][4..6];
    assert other[6..8] == other[..11][6..8] && other[8..11] == other[..11][8..11];
    assert key[..4] == key[..11][..4] && key[4..6] == key[..11][4..6];
    assert key[6..8] == key[..11][6..8] && key[8..11] == key[..11][8..11];
  }

  // One byte changed anywhere in the addresses of an accepted file is noticed.
  lemma SingleChangeIsNoticed(file: string, k: nat, e: char, content: Content)
    requires IsBytes(file) && e as int < 256 && Decode(Some(file)) == Accepted(content)
    requires 11 <= k < 11 + 12 * content.count <= |file| && e != file[k]
    ensures IsBytes(file[k := e]) && Decode(Some(file[k := e])) == Modified
  {
    hide Strtol;
    hide Atol;
    hide Sum;
    hide Decrypt;
    var key, d, end := DecryptAll(file), Decrypt(e), 11 + 12 * content.count;
    var other := DecryptAll(file[k := e]);
    assert other == key[k := d];
    DecryptDiffers(file[k], e);
    assert other[..11] == key[..11] && other[end..] == key[end..];
    TamperExactly(key, other, content);
    assert other[11..end] == content.macs[k - 11 := d];
    SumChange(content.macs, k - 11, d);
  }

  lemma DecryptDiffers(a: char, b: char)
    requires a as int < 256 && b as int < 256 && a != b
    ensures Decrypt(a) != Decrypt(b)
  {
  }

  // ----- the options of the generator -----

  // Addresses as they are given: joined by dashes.
  function JoinDashes(parts: seq<string>): (s: string)
    requires parts != []
  {
    if |parts| == 1 then parts[0] else JoinDashes(parts[..|parts| - 1]) + "-" + parts[|parts| - 1]
  }

  function TotalLength(parts: seq<string>): (n: nat) {
    if parts == [] then 0 else TotalLength(parts[..|parts| - 1]) + |parts[|parts| - 1]|
  }

  lemma {:induction false} DashesConcat(a: string, b: string)
    ensures Dashes(a + b) == Dashes(a) + Dashes(b)
  {
    if b == "" {
      assert a + b == a;
    } else {
      assert (a + b)[..|a + b| - 1] == a + b[..|b| - 1];
      DashesConcat(a, b[..|b| - 1]);
    }
  }

  lemma {:induction false} NoDashes(s: string)
    requires '-' !in s
    ensures Dashes(s) == 0
  {
    if s != "" {
      NoDashes(s[..|s| - 1]);
    }
  }

  lemma {:induction false} JoinedParts(parts: seq<string>)
    requires parts != [] && forall k :: 0 <= k < |parts| ==> '-' !in parts[k]
    ensures Dashes(JoinDashes(parts)) == |parts| - 1 && |JoinDashes(parts)| == TotalLength(parts) + |parts| - 1
  {
    hide Dashes;
    var n := |parts| - 1;
    NoDashes(parts[n]);
    if n == 0 {
      assert parts[..0] == [];
    } else {
      JoinedParts(parts[..n]);
      var init := JoinDashes(parts[..n]);
      DashesConcat(init + "-", parts[n]);
      DashesConcat(init, "-");
      OneDash();
    }
  }

  lemma OneDash()
    ensures Dashes("-") == 1
  {
    assert "-"[..0] == "";
  }

  // n addresses joined by dashes are taken for n addresses if and only if they have seventeen characters each on
  // average, and the date has ten.
  lemma OptionsExactly(parts: seq<string>, date: string)
    requires parts != [] && forall k :: 0 <= k < |parts| ==> '-' !in parts[k]
    ensures var o := ParsedOptions(JoinDashes(parts), date);
      o == if JoinDashes(parts) == "" then Usage
           else if TotalLength(parts) != 17 * |parts| then WrongAddresses
           else if |date| != 10 then WrongDate else Parsed(|parts|)
  {
    hide Dashes;
    hide JoinDashes;
    hide TotalLength;
    JoinedParts(parts);
  }

  // In particular addresses of seventeen characters each.
  lemma {:induction false} SeventeenEach(parts: seq<string>)
    requires forall k :: 0 <= k < |parts| ==> |parts[k]| == 17
    ensures TotalLength(parts) == 17 * |parts|
  {
    if parts != [] {
      SeventeenEach(parts[..|parts| - 1]);
    }
  }

  lemma AddressesAreCounted(parts: seq<string>, date: string)
    requires parts != [] && |date| == 10 && forall k :: 0 <= k < |parts| ==> '-' !in parts[k] && |parts[k]| == 17
    ensures ParsedOptions(JoinDashes(parts), date) == Parsed(|parts|)
  {
    hide JoinDashes;
    hide TotalLength;
    SeventeenEach(parts);
    OptionsExactly(parts, date);
    JoinedParts(parts);
  }

  // An address as it is given: six pairs of characters, separated by colons.
  ghost predicate IsAddress(a: string) {
    && |a| == 17 && a[2] == a[5] == a[8] == a[11] == a[14] == ':'
    && forall k :: 0 <= k < 17 && k % 3 != 2 ==> a[k] != ':' && a[k] != '-'
  }

  function Pairs(a: string): (s: string)
    requires |a| == 17
  {
    a[..2] + a[3..5] + a[6..8] + a[9..11] + a[12..14] + a[15..]
  }

  function AllPairs(parts: seq<string>): (s: string)
    requires forall k :: 0 <= k < |parts| ==> |parts[k]| == 17
    ensures |s| == 12 * |parts|
  {
    if parts == [] then "" else AllPairs(parts[..|parts| - 1]) + Pairs(parts[|parts| - 1])
  }

  lemma {:induction false} StripConcat(a: string, b: string)
    ensures Strip(a + b) == Strip(a) + Strip(b)
  {
    if b == "" {
      assert a + b == a;
    } else {
      assert (a + b)[..|a + b| - 1] == a + b[..|b| - 1];
      StripConcat(a, b[..|b| - 1]);
    }
  }

  lemma {:induction false} NothingToStrip(s: string)
    requires ':' !in s && '-' !in s
    ensures Strip(s) == s
  {
    if s != "" {
      NothingToStrip(s[..|s| - 1]);
    }
  }

  lemma StripSeparator(c: char)
    requires c == ':' || c == '-'
    ensures Strip([c]) == ""
  {
    assert [c][..0] == "";
  }

  // One pair, and the colon behind it.
  lemma StripPair(a: string, k: nat)
    requires IsAddress(a) && k % 3 == 0 && k + 2 <= 17
    ensures Strip(a[..k + 2]) == Strip(a[..k]) + a[k..k + 2]
    ensures k + 3 <= 17 ==> Strip(a[..k + 3]) == Strip(a[..k + 2])
  {
    hide Strip;
    StripConcat(a[..k], a[k..k + 2]);
    NothingToStrip(a[k..k + 2]);
    assert a[..k + 2] == a[..k] + a[k..k + 2];
    if k + 3 <= 17 {
      StripConcat(a[..k + 2], [a[k + 2]]);
      StripSeparator(a[k + 2]);
      assert a[..k + 3] == a[..k + 2] + [a[k + 2]];
    }
  }

  lemma StripAddress(a: string)
    requires IsAddress(a)
    ensures Strip(a) == Pairs(a)
  {
    hide Strip;
    hide IsAddress;
    AddressLength(a);
    StripPair(a, 0);
    StripPair(a, 3);
    StripPair(a, 6);
    StripPair(a, 9);
    StripPair(a, 12);
    StripPair(a, 15);
    NothingStripped();
    assert a[..0] == "" && a[..17] == a && "" + a[0..2] == a[..2] && a[15..17] == a[15..];
  }

  lemma AddressLength(a: string)
    requires IsAddress(a)
    ensures |a| == 17
  {
  }

  // From the options to the layout: addresses joined by dashes are counted, and without their separators they are
  // twelve characters each, in their order.
  lemma {:induction false} AddressesAreStripped(parts: seq<string>)
    requires parts != [] && forall k :: 0 <= k < |parts| ==> |parts[k]| == 17 && IsAddress(parts[k])
    ensures Strip(JoinDashes(parts)) == AllPairs(parts)
  {
    hide Strip;
    hide Pairs;
    var n := |parts| - 1;
    StripAddress(parts[n]);
    if n == 0 {
      assert parts[..0] == [];
      assert "" + Pairs(parts[0]) == Pairs(parts[0]);
    } else {
      AddressesAreStripped(parts[..n]);
      var init := JoinDashes(parts[..n]);
      StripConcat(init + "-", parts[n]);
      StripConcat(init, "-");
      StripSeparator('-');
    }
  }

  // ----- the other outcomes of the decoder -----

  // What is said of a file from its length and its count alone.
  lemma OutcomesExactly(file: Option<string>)
    requires file.Some? ==> IsBytes(file.value)
    ensures Decode(file) == NotThere <==> file == None
    ensures Decode(file) == NotConform <==> file.Some? && |file.value| < 11
    ensures file.Some? && 11 <= |file.value| < 1000 ==>
              var n := Strtol(DecryptAll(file.value)[8..11]);
              && (Decode(file) == Undefined <==> n < 0)
              && (0 <= n && |file.value| < 11 + 12 * n ==> Decode(file) == Modified)
    ensures file.Some? && |file.value| >= 1000 ==> Decode(file) == Undefined
  {
    hide Strtol;
    hide Atol;
    hide Sum;
    hide Decrypt;
  }

  // The shortest file that is accepted: nothing but zeros, with no address and no checksum behind them.
  lemma ZerosAreAccepted()
    ensures Decode(Some(EncryptAll("00000000000"))) == Accepted(Content(0, 0, 0, 0, ""))
  {
    hide Strtol;
    hide Atol;
    hide Value;
    hide Encrypt;
    hide Decrypt;
    hide Sum;
    var key := "00000000000";
    DecryptEncryptAll(key);
    assert key[..4] == "0000" && key[4..6] == "00" && key[6..8] == "00" && key[8..11] == "000";
    assert key[11..] == "" && key[11..11] == "";
    ZeroValues();
    NothingStripped();
  }

  lemma ZeroValues()
    ensures Strtol("0000") == 0 && Strtol("000") == 0 && Strtol("00") == 0 && Atol("") == 0
  {
    StrtolOfDigits("0000");
    StrtolOfDigits("000");
    StrtolOfDigits("00");
    hide Strtol;
    assert "0000"[..3] == "000" && "000"[..2] == "00" && "00"[..1] == "0" && "0"[..0] == "";
    assert Atol("") == 0 by {
      NoNumber();
    }
  }

  lemma NoNumber()
    ensures Atol("") == 0
  {
  }
}
