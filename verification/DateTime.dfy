// printNumber and UA_DateTime_toString: a fixed layout of decimal fields.
module DateTime {
  import opened Bytes
  import opened Wrappers

  function Pow10(d: nat): (r: nat)
    ensures r > 0
  {
    if d == 0 then 1 else 10 * Pow10(d - 1)
  }

  // The last d decimal digits of n, most significant first.
  function DecimalDigits(n: nat, d: nat): (s: seq<byte>)
    ensures |s| == d
    decreases d
  {
    if d == 0 then [] else DecimalDigits(n / 10, d - 1) + [n % 10 + 48]
  }

  function ParseDigits(s: seq<byte>): Option<nat>
  {
    if s == [] then Some(0)
    else
      var last := s[|s| - 1];
      match ParseDigits(s[..|s| - 1])
      case Some(n) => if 48 <= last <= 57 then Some(10 * n + (last - 48)) else None
      case None => None
  }

  lemma {:induction false} ParseOfDigits(n: nat, d: nat)
    ensures ParseDigits(DecimalDigits(n, d)) == Some(n % Pow10(d))
    decreases d
  {
    if d > 0 {
      var s := DecimalDigits(n, d);
      assert s[..|s| - 1] == DecimalDigits(n / 10, d - 1);
      ParseOfDigits(n / 10, d - 1);
      SplitDecimal(n, Pow10(d - 1));
    }
  }

  lemma SplitDecimal(n: nat, p: nat)
    requires p > 0
    ensures n % (10 * p) == 10 * ((n / 10) % p) + n % 10
  {
    var q, r := n / 10, n % 10;
    var a, b := q / p, q % p;
    assert n == (10 * p) * a + (10 * b + r) by {
      assert q == p * a + b;
      assert 10 * (p * a) == (10 * p) * a;
    }
    ModuloUnique(n, 10 * p, a, 10 * b + r);
  }

  // Each place shows the digit of its power of ten.
  lemma {:induction false} DigitAt(n: nat, d: nat, i: nat)
    requires i < d
    ensures DecimalDigits(n, d)[i] == '0' as int + n / Pow10(d - 1 - i) % 10
    decreases d
  {
    if i < d - 1 {
      DigitAt(n / 10, d - 1, i);
      DivideDecimal(n, Pow10(d - 2 - i));
    }
  }

  lemma DivideDecimal(n: nat, p: nat)
    requires p > 0
    ensures n / 10 / p == n / (10 * p)
  {
    var q, r := n / 10, n % 10;
    var a, b := q / p, q % p;
    assert n == (10 * p) * a + (10 * b + r) by {
      assert q == p * a + b;
      assert 10 * (p * a) == (10 * p) * a;
    }
    ModuloUnique(n, 10 * p, a, 10 * b + r);
  }

  // ------------------------------------------------------ printNumber

  lemma LastDigit(n: nat, d: nat, tail: seq<byte>)
    requires d > 0
    ensures DecimalDigits(n, d) + tail == DecimalDigits(n / 10, d - 1) + ([n % 10 + 48] + tail)
  {}

  method PrintNumber(number: nat, buf: array<byte>, pos: nat, digits: nat)
    requires pos + digits <= buf.Length
    modifies buf
    ensures buf[..] == Overlay(old(buf[..]), pos, Puts(DecimalDigits(number, digits)))
  {
    hide DecimalDigits;
    var n := number;
    ghost var all := DecimalDigits(number, digits);
    ghost var tail: seq<byte> := [];
    var i := digits;
    while i > 0
      invariant 0 <= i <= digits
      invariant |tail| == digits - i && all == DecimalDigits(n, i) + tail
      invariant forall k :: 0 <= k < buf.Length ==> buf[k] == if pos + i <= k < pos + digits then
          tail[k - pos - i] else old(buf[k])
    {
      var digit: byte := n % 10 + 48;
      LastDigit(n, i, tail);
      buf[pos + i - 1] := digit;
      tail := [digit] + tail;
      n := n / 10;
      i := i - 1;
    }
    assert all == tail;
  }

  // ------------------------------------------------------ the layout

  datatype DateTimeStruct = DateTimeStruct(
    nanoSec: nat, microSec: nat, milliSec: nat, sec: nat, min: nat, hour: nat, day: nat, month: nat, year: nat)

  const SLASH: byte := 47
  const COLON: byte := 58
  const DOT: byte := 46
  const BLANK: byte := 32

  // month/day/year hour:min:sec.milli.micro.nano
  function Layout(t: DateTimeStruct): (s: seq<byte>)
    ensures |s| == 31
  {
    DecimalDigits(t.month, 2) + [SLASH] + DecimalDigits(t.day, 2) + [SLASH] + DecimalDigits(t.year, 4) + [BLANK]
    + DecimalDigits(t.hour, 2) + [COLON] + DecimalDigits(t.min, 2) + [COLON] + DecimalDigits(t.sec, 2) + [DOT]
    + DecimalDigits(t.milliSec, 3) + [DOT] + DecimalDigits(t.microSec, 3) + [DOT] + DecimalDigits(t.nanoSec, 3)
  }

  // A number or a separator after what was printed so far.
  method PrintNext(number: nat, buf: array<byte>, pos: nat, digits: nat, ghost printed: seq<byte>)
    requires pos + digits <= buf.Length && buf[..pos] == printed
    modifies buf
    ensures buf[..pos + digits] == printed + DecimalDigits(number, digits)
  {
    PrintNumber(number, buf, pos, digits);
    ghost var s := DecimalDigits(number, digits);
    assert forall k :: 0 <= k < digits ==> Puts(s)[k] == Put(s[k]);
    assert buf[..pos] == printed;
    assert buf[pos..pos + digits] == s;
    assert buf[..pos + digits] == buf[..pos] + buf[pos..pos + digits];
  }

  method PutNext(c: byte, buf: array<byte>, pos: nat, ghost printed: seq<byte>)
    requires pos < buf.Length && buf[..pos] == printed
    modifies buf
    ensures buf[..pos + 1] == printed + [c]
  {
    buf[pos] := c;
    assert buf[..pos] == printed;
    assert buf[..pos + 1] == buf[..pos] + [c];
  }

  method PrintDate(t: DateTimeStruct, buf: array<byte>)
    requires buf.Length == 32
    modifies buf
    ensures buf[..11] == DecimalDigits(t.month, 2) + [SLASH] + DecimalDigits(t.day, 2) + [SLASH]
        + DecimalDigits(t.year, 4) + [BLANK]
  {
    hide DecimalDigits;
    PrintNext(t.month, buf, 0, 2, []);
    ghost var s := DecimalDigits(t.month, 2);
    PutNext(SLASH, buf, 2, s);
    s := s + [SLASH];
    PrintNext(t.day, buf, 3, 2, s);
    s := s + DecimalDigits(t.day, 2);
    PutNext(SLASH, buf, 5, s);
    s := s + [SLASH];
    PrintNext(t.year, buf, 6, 4, s);
    s := s + DecimalDigits(t.year, 4);
    PutNext(BLANK, buf, 10, s);
  }

  method PrintTime(t: DateTimeStruct, buf: array<byte>, ghost date: seq<byte>)
    requires buf.Length == 32 && buf[..11] == date
    modifies buf
    ensures buf[..20] == date + DecimalDigits(t.hour, 2) + [COLON] + DecimalDigits(t.min, 2) + [COLON]
        + DecimalDigits(t.sec, 2) + [DOT]
  {
    hide DecimalDigits;
    ghost var s := date;
    PrintNext(t.hour, buf, 11, 2, s);
    s := s + DecimalDigits(t.hour, 2);
    PutNext(COLON, buf, 13, s);
    s := s + [COLON];
    PrintNext(t.min, buf, 14, 2, s);
    s := s + DecimalDigits(t.min, 2);
    PutNext(COLON, buf, 16, s);
    s := s + [COLON];
    PrintNext(t.sec, buf, 17, 2, s);
    s := s + DecimalDigits(t.sec, 2);
    PutNext(DOT, buf, 19, s);
  }

  method PrintFraction(t: DateTimeStruct, buf: array<byte>, ghost before: seq<byte>)
    requires buf.Length == 32 && buf[..20] == before
    modifies buf
    ensures buf[..31] == before + DecimalDigits(t.milliSec, 3) + [DOT] + DecimalDigits(t.microSec, 3) + [DOT]
        + DecimalDigits(t.nanoSec, 3)
  {
    hide DecimalDigits;
    ghost var s := before;
    PrintNext(t.milliSec, buf, 20, 3, s);
    s := s + DecimalDigits(t.milliSec, 3);
    PutNext(DOT, buf, 23, s);
    s := s + [DOT];
    PrintNext(t.microSec, buf, 24, 3, s);
    s := s + DecimalDigits(t.microSec, 3);
    PutNext(DOT, buf, 27, s);
    s := s + [DOT];
    PrintNext(t.nanoSec, buf, 28, 3, s);
  }

  // The 31 characters of the string; one more byte is allocated and not used.
  method DateTimeToString(t: DateTimeStruct) returns (str: seq<byte>)
    ensures str == Layout(t)
  {
    hide DecimalDigits;
    var data := new byte[32];
    PrintDate(t, data);
    ghost var s := data[..11];
    PrintTime(t, data, s);
    s := data[..20];
    PrintFraction(t, data, s);
    str := data[..31];
  }

  // ------------------------------------------------------ reading it back

  function Field(s: seq<byte>, pos: nat, digits: nat): Option<nat>
    requires pos + digits <= |s|
  {
    ParseDigits(s[pos..pos + digits])
  }

  function Parse(s: seq<byte>): Option<DateTimeStruct>
  {
    if |s| != 31 then None
    else if !(s[2] == s[5] == SLASH && s[10] == BLANK && s[13] == s[16] == COLON && s[19] == s[23] == s[27] ==
        DOT) then None
    else match (Field(s, 0, 2), Field(s, 3, 2), Field(s, 6, 4), Field(s, 11, 2), Field(s, 14, 2), Field(s, 17, 2),
                Field(s, 20, 3), Field(s, 24, 3), Field(s, 28, 3))
      case (Some(month), Some(day), Some(year), Some(hour), Some(min), Some(sec), Some(milli), Some(micro),
          Some(nano)) =>
        Some(DateTimeStruct(nano, micro, milli, sec, min, hour, day, month, year))
      case _ => None
  }

  // What the layout has room for.
  function Truncate(t: DateTimeStruct): DateTimeStruct
  {
    DateTimeStruct(t.nanoSec % 1000, t.microSec % 1000, t.milliSec % 1000, t.sec % 100, t.min % 100, t.hour % 100,
                   t.day % 100, t.month % 100, t.year % 10000)
  }

  predicate InRange(t: DateTimeStruct)
  {
    && t.nanoSec < 1000 && t.microSec < 1000 && t.milliSec < 1000 && t.sec < 100 && t.min < 100 && t.hour < 100
    && t.day < 100 && t.month < 100 && t.year < 10000
  }

  // Every field and separator stands at its own place in the 31 characters.
  lemma LayoutTiles(t: DateTimeStruct)
    ensures var s := Layout(t);
            && s[0..2] == DecimalDigits(t.month, 2) && s[3..5] == DecimalDigits(t.day, 2) && s[6..10] ==
                DecimalDigits(t.year, 4)
            && s[11..13] == DecimalDigits(t.hour, 2) && s[14..16] == DecimalDigits(t.min, 2) && s[17..19] ==
                DecimalDigits(t.sec, 2)
            && s[20..23] == DecimalDigits(t.milliSec, 3) && s[24..27] == DecimalDigits(t.microSec, 3) && s[28..31] ==
                DecimalDigits(t.nanoSec, 3)
            && s[2] == s[5] == '/' as int && s[10] == ' ' as int && s[13] == s[16] == ':' as int
            && s[19] == s[23] == s[27] == '.' as int
  {
    hide DecimalDigits;
  }

  lemma ParseOfLayout(t: DateTimeStruct)
    ensures Parse(Layout(t)) == Some(Truncate(t))
  {
    hide DecimalDigits, Layout, ParseDigits;
    LayoutTiles(t);
    assert Pow10(2) == 100 && Pow10(3) == 1000 && Pow10(4) == 10000;
    ParseOfDigits(t.month, 2);
    ParseOfDigits(t.day, 2);
    ParseOfDigits(t.year, 4);
    ParseOfDigits(t.hour, 2);
    ParseOfDigits(t.min, 2);
    ParseOfDigits(t.sec, 2);
    ParseOfDigits(t.milliSec, 3);
    ParseOfDigits(t.microSec, 3);
    ParseOfDigits(t.nanoSec, 3);
  }

  // A struct is recovered exactly when every field fits its digits.
  lemma RecoveredIffInRange(t: DateTimeStruct)
    ensures Parse(Layout(t)) == Some(t) <==> InRange(t)
  {
    hide Parse, Layout;
    ParseOfLayout(t);
  }

  // So printing distinguishes exactly what it does not cut off.
  lemma SameStringIff(t: DateTimeStruct, u: DateTimeStruct)
    ensures Layout(t) == Layout(u) <==> Truncate(t) == Truncate(u)
  {
    ParseOfLayout(t);
    ParseOfLayout(u);
    if Truncate(t) == Truncate(u) {
      LayoutOfTruncated(t);
      LayoutOfTruncated(u);
    }
  }

  lemma {:induction false} DigitsOfTruncated(n: nat, d: nat)
    ensures DecimalDigits(n % Pow10(d), d) == DecimalDigits(n, d)
    decreases d
  {
    if d > 0 {
      SplitDecimal(n, Pow10(d - 1));
      var m := n % Pow10(d);
      ModuloUnique(m, 10, (n / 10) % Pow10(d - 1), n % 10);
      DigitsOfTruncated(n / 10, d - 1);
    }
  }

  lemma LayoutOfTruncated(t: DateTimeStruct)
    ensures Layout(Truncate(t)) == Layout(t)
  {
    hide DecimalDigits;
    assert Pow10(2) == 100 && Pow10(3) == 1000 && Pow10(4) == 10000;
    DigitsOfTruncated(t.month, 2);
    DigitsOfTruncated(t.day, 2);
    DigitsOfTruncated(t.year, 4);
    DigitsOfTruncated(t.hour, 2);
    DigitsOfTruncated(t.min, 2);
    DigitsOfTruncated(t.sec, 2);
    DigitsOfTruncated(t.milliSec, 3);
    DigitsOfTruncated(t.microSec, 3);
    DigitsOfTruncated(t.nanoSec, 3);
  }
}
