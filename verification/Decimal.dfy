// Decimal numbers, as append_number of src/lib/string_builder.h writes them.

/** A simple decimal printer and its parser. */
module Decimal {

  function DigitChar(d: nat): (c: char)
    requires d < 10
    ensures c as int == '0' as int + d
  {
    ('0' as int + d) as char
  }

  predicate IsDigit(c: char) {
    '0' <= c <= '9'
  }

  function DigitValue(c: char): (d: nat)
    requires IsDigit(c)
    ensures d < 10
  {
    c as int - '0' as int
  }

  predicate AllDigits(s: string) {
    forall k :: 0 <= k < |s| ==> IsDigit(s[k])
  }

  function Digits(v: nat): (s: string)
    ensures |s| > 0 && AllDigits(s)
  {
    if v < 10 then [DigitChar(v)] else Digits(v / 10) + [DigitChar(v % 10)]
  }

  function Value(s: string): (v: nat)
    requires AllDigits(s)
  {
    if s == "" then 0 else 10 * Value(s[..|s| - 1]) + DigitValue(s[|s| - 1])
  }

  lemma {:induction false} RoundTrip(v: nat)
    ensures Value(Digits(v)) == v
    ensures v > 0 ==> Digits(v)[0] != '0'
  {
    if v >= 10 {
      RoundTrip(v / 10);
    }
  }

  function Pow10(k: nat): (p: nat)
    ensures p > 0
  {
    if k == 0 then 1 else 10 * Pow10(k - 1)
  }

  lemma {:induction false} PowersGrow(a: nat, b: nat)
    requires a <= b
    ensures Pow10(a) <= Pow10(b)
  {
    if a < b {
      PowersGrow(a, b - 1);
    }
  }

  lemma {:induction false} DigitsBound(v: nat)
    ensures v < Pow10(|Digits(v)|) && (v > 0 ==> Pow10(|Digits(v)| - 1) <= v)
  {
    if v >= 10 {
      DigitsBound(v / 10);
    }
  }

  // The number of digits is the one power of ten that brackets the value.
  lemma DigitCount(v: nat, k: nat)
    requires k > 0 && v < Pow10(k) && (v > 0 ==> Pow10(k - 1) <= v) && (v == 0 ==> k == 1)
    ensures |Digits(v)| == k
  {
    DigitsBound(v);
    if |Digits(v)| < k {
      PowersGrow(|Digits(v)|, k - 1);
    } else if |Digits(v)| > k {
      PowersGrow(k, |Digits(v)| - 1);
    }
  }

  // Conversely, a text of digits without a leading zero is the only text of its value.
  lemma {:induction false} OnlyText(s: string)
    requires |s| > 0 && AllDigits(s) && (|s| > 1 ==> s[0] != '0')
    ensures Digits(Value(s)) == s
  {
    var init := s[..|s| - 1];
    if |s| == 1 {
      assert init == "";
    } else {
      OnlyText(init);
      assert s == init + [s[|s| - 1]];
      Positive(init);
    }
  }

  lemma {:induction false} Positive(s: string)
    requires |s| > 0 && AllDigits(s) && s[0] != '0'
    ensures Value(s) > 0
  {
    if |s| > 1 {
      Positive(s[..|s| - 1]);
    }
  }
}

module AppendNumber {
  import opened Common
  import opened Decimal

  // The powers of the branch tree.
  const M3: nat := 100
  const M4: nat := 1000
  const M5: nat := 10000
  const M6: nat := 100000
  const M7: nat := 1000000
  const M8: nat := 10000000
  const M9: nat := 100000000
  const M10: nat := 1000000000
  const M11: nat := 10000000000
  const M12: nat := 100000000000
  const M13: nat := 1000000000000
  const M14: nat := 10000000000000
  const M15: nat := 100000000000000
  const M16: nat := 1000000000000000
  const M17: nat := 10000000000000000
  const M18: nat := 100000000000000000
  const M19: nat := 1000000000000000000
  const M20: nat := 10000000000000000000

  // The table of digit pairs, a row for each tens digit.
  function Row(t: nat): (row: string)
    requires t < 10
  {
    ["00010203040506070809", "10111213141516171819", "20212223242526272829", "30313233343536373839",
     "40414243444546474849", "50515253545556575859", "60616263646566676869", "70717273747576777879",
     "80818283848586878889", "90919293949596979899"][t]
  }

  lemma RowsTo2(t: nat, u: nat)
    requires t <= 2 && u < 10
    ensures |Row(t)| == 20 && Row(t)[2 * u] == DigitChar(t) && Row(t)[2 * u + 1] == DigitChar(u)
  {
  }

  lemma RowsTo5(t: nat, u: nat)
    requires 2 < t <= 5 && u < 10
    ensures |Row(t)| == 20 && Row(t)[2 * u] == DigitChar(t) && Row(t)[2 * u + 1] == DigitChar(u)
  {
  }

  lemma RowsTo9(t: nat, u: nat)
    requires 5 < t <= 9 && u < 10
    ensures |Row(t)| == 20 && Row(t)[2 * u] == DigitChar(t) && Row(t)[2 * u + 1] == DigitChar(u)
  {
  }

  lemma Pair(p: nat)
    requires p < 100
    ensures var row := Row(p / 10);
      |row| == 20 && row[2 * (p % 10)] == DigitChar(p / 10) && row[2 * (p % 10) + 1] == DigitChar(p % 10)
  {
    hide Row;
    var t, u := p / 10, p % 10;
    if t <= 2 {
      RowsTo2(t, u);
    } else if t <= 5 {
      RowsTo5(t, u);
    } else {
      RowsTo9(t, u);
    }
  }

  lemma PowersTo10()
    ensures Pow10(1) == 10 && Pow10(2) == M3 && Pow10(3) == M4 && Pow10(4) == M5 && Pow10(5) == M6
    ensures Pow10(6) == M7 && Pow10(7) == M8 && Pow10(8) == M9 && Pow10(9) == M10 && Pow10(10) == M11
  {
  }

  lemma PowersTo20()
    ensures Pow10(11) == M12 && Pow10(12) == M13 && Pow10(13) == M14 && Pow10(14) == M15 && Pow10(15) == M16
    ensures Pow10(16) == M17 && Pow10(17) == M18 && Pow10(18) == M19 && Pow10(19) == M20 && Pow10(20) == 10 * M20
  {
  }

  // The branch tree: the number of digits of val, and 2 if there is only one.
  method CountDigits(val: u64) returns (size: nat)
    ensures size == if val < 10 then 2 else |Digits(val)|
  {
    hide Digits;
    hide Pow10;
    PowersTo10();
    PowersTo20();
    if val >= M4 {
      if val >= M6 {
        if val >= M8 {
          if val >= M10 {
            if val >= M12 {
              if val >= M14 {
                if val >= M16 {
                  if val >= M18 {
                    if val >= M20 {
                      size := 20;
                    } else if val >= M19 {
                      size := 19;
                    } else {
                      size := 18;
                    }
                  } else if val >= M17 {
                    size := 17;
                  } else {
                    size := 16;
                  }
                } else if val >= M15 {
                  size := 15;
                } else {
                  size := 14;
                }
              } else if val >= M13 {
                size := 13;
              } else {
                size := 12;
              }
            } else if val >= M11 {
              size := 11;
            } else {
              size := 10;
            }
          } else if val >= M9 {
            size := 9;
          } else {
            size := 8;
          }
        } else if val >= M7 {
          size := 7;
        } else {
          size := 6;
        }
      } else if val >= M5 {
        size := 5;
      } else {
        size := 4;
      }
    } else if val >= M3 {
      size := 3;
    } else {
      size := 2;
    }
    if val >= 10 {
      DigitCount(val, size);
    }
  }

  // What append_number writes when it has room for so many bytes.
  function Number(room: nat, val: nat): (s: string)
    ensures |s| <= room
  {
    if |Digits(val)| <= room then Digits(val) else ""
  }

  // buf with text written from position at on.
  function Overwrite(buf: seq<char>, at: nat, text: string): (out: seq<char>)
    requires at + |text| <= |buf|
    ensures |out| == |buf|
  {
    buf[..at] + text + buf[at + |text|..]
  }

  // The digits not yet written.
  function Prefix(v: nat): (s: string) {
    if v == 0 then "" else Digits(v)
  }

  lemma PrefixStep(v: nat)
    requires v > 0
    ensures Prefix(v) == Prefix(v / 10) + [DigitChar(v % 10)]
  {
    hide DigitChar;
  }

  lemma PrefixOne(v: nat, text: string)
    requires v > 0
    ensures Prefix(v) + text == Prefix(v / 10) + ([DigitChar(v % 10)] + text)
    ensures |Prefix(v)| == |Prefix(v / 10)| + 1
  {
    hide DigitChar;
    hide Prefix;
    PrefixStep(v);
  }

  lemma PrefixTwo(v: nat, text: string)
    requires v >= 100
    ensures Prefix(v) + text == Prefix(v / 100) + ([DigitChar(v % 100 / 10), DigitChar(v % 100 % 10)] + text)
    ensures |Prefix(v)| == |Prefix(v / 100)| + 2
  {
    hide Prefix;
    hide DigitChar;
    PrefixOne(v, text);
    PrefixOne(v / 10, [DigitChar(v % 10)] + text);
    assert v / 10 / 10 == v / 100 && v / 10 % 10 == v % 100 / 10 && v % 10 == v % 100 % 10;
    assert [DigitChar(v / 10 % 10)] + ([DigitChar(v % 10)] + text) == [DigitChar(v / 10 % 10), DigitChar(v % 10)] + text;
  }

  lemma PrefixEnds(v: nat)
    requires v > 0
    ensures Prefix(v) + "" == Digits(v) && |Prefix(v)| == |Digits(v)| && Prefix(0) == ""
  {
  }

  // append_number, where dst is the buffer from position at on and room is dst_size.
  method Append(dst: array<char>, at: nat, room: nat, val: u64) returns (n: nat)
    requires at + room <= dst.Length
    modifies dst
    ensures n == |Number(room, val)|
    ensures dst[..] == Overwrite(old(dst[..]), at, Number(room, val))
  {
    if val < 10 && room > 0 {
      dst[at] := DigitChar(val);
      return 1;
    }
    var size := CountDigits(val);
    if size > room {
      Nothing(dst[..], at);
      return 0;
    }
    WriteBackwards(dst, at, size, val);
    n := size;
  }

  lemma OneMore(buf: seq<char>, at: nat, c: char, text: string)
    requires at + 1 + |text| <= |buf|
    ensures Overwrite(buf, at + 1, text)[at := c] == Overwrite(buf, at, [c] + text)
  {
  }

  // Writes two characters before what is already written.
  method WritePair(dst: array<char>, at: nat, x: char, y: char, ghost before: seq<char>, ghost text: string)
    requires at + 2 + |text| <= dst.Length == |before| && dst[..] == Overwrite(before, at + 2, text)
    modifies dst
    ensures dst[..] == Overwrite(before, at, [x, y] + text)
  {
    hide Overwrite;
    dst[at], dst[at + 1] := x, y;
    OneMore(before, at + 1, y, text);
    OneMore(before, at, x, [y] + text);
    assert [x] + ([y] + text) == [x, y] + text;
  }

  method WriteOne(dst: array<char>, at: nat, x: char, ghost before: seq<char>, ghost text: string)
    requires at + 1 + |text| <= dst.Length == |before| && dst[..] == Overwrite(before, at + 1, text)
    modifies dst
    ensures dst[..] == Overwrite(before, at, [x] + text)
  {
    hide Overwrite;
    dst[at] := x;
    OneMore(before, at, x, text);
  }

  // The two loops, from the last position of the number downwards.
  method WriteBackwards(dst: array<char>, at: nat, size: nat, val: u64)
    requires at + size <= dst.Length && val >= 10 && size == |Digits(val)|
    modifies dst
    ensures dst[..] == Overwrite(old(dst[..]), at, Digits(val))
  {
    hide Digits;
    hide DigitChar;
    hide Overwrite;
    hide Row;
    hide Prefix;
    var c, left := at + size - 1, val;
    ghost var before, text := dst[..], "";
    Nothing(before, at + size);
    PrefixEnds(val);
    while left >= 100
      invariant left > 0 && Prefix(left) + text == Digits(val) && c + 1 == at + |Prefix(left)|
      invariant c + 1 + |text| <= dst.Length && dst[..] == Overwrite(before, c + 1, text)
    {
      var pos := left % 100;
      Pair(pos);
      PrefixTwo(left, text);
      var row := Row(pos / 10);
      WritePair(dst, c - 1, row[2 * (pos % 10)], row[2 * (pos % 10) + 1], before, text);
      text := [DigitChar(pos / 10), DigitChar(pos % 10)] + text;
      left := left / 100;
      c := c - 2;
    }
    while left > 0
      invariant Prefix(left) + text == Digits(val) && c + 1 == at + |Prefix(left)|
      invariant c + 1 + |text| <= dst.Length && dst[..] == Overwrite(before, c + 1, text)
    {
      PrefixOne(left, text);
      WriteOne(dst, c, DigitChar(left % 10), before, text);
      text := [DigitChar(left % 10)] + text;
      left := left / 10;
      c := c - 1;
    }
    assert "" + text == text;
  }

  lemma Nothing(buf: seq<char>, at: nat)
    requires at <= |buf|
    ensures Overwrite(buf, at, "") == buf
  {
  }

  // With room for the number it is all there and reads back; otherwise nothing is written.
  lemma NumberExact(room: nat, val: nat)
    ensures if |Digits(val)| <= room then AllDigits(Number(room, val)) && Value(Number(room, val)) == val
            else Number(room, val) == ""
  {
    RoundTrip(val);
  }

  // Twenty bytes are enough for any 64-bit number, and nineteen are not.
  lemma TwentyDigits(val: u64)
    ensures |Digits(val)| <= 20
    ensures val >= M20 <==> |Digits(val)| == 20
  {
    hide Digits;
    hide Pow10;
    PowersTo20();
    DigitsBound(val);
    if val == 0 {
      DigitCount(0, 1);
    } else if |Digits(val)| > 20 {
      PowersGrow(20, |Digits(val)| - 1);
    } else if |Digits(val)| < 20 {
      PowersGrow(|Digits(val)|, 19);
    }
  }
}
