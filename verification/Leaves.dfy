// The primitive readers and writers registered in the two function tables.
module Leaves {
  import opened Bytes
  import opened LuaValues
  import opened Symbols
  import opened Wrappers

  const ERROR_TEXT: Text := Ascii("!!!ERROR: cannot deserialize this type!!!")

  // Types with an entry in the (identical) reader and writer tables.
  predicate Supported(t: LeafType)
  {
    t !in {Undefined, UInt64, SInt64, StringFix, DateTime, Guid}
  }

  predicate IsText(t: LeafType)
  {
    t == StringL4 || t == ByteString
  }

  // Bytes a fixed-size writer stores, whatever DataSize says.
  function Width(t: LeafType): nat
  {
    match t
    case Bool8 => 1
    case UInt8 => 1
    case SInt8 => 1
    case UInt16 => 2
    case SInt16 => 2
    case UInt32 => 4
    case SInt32 => 4
    case Float => 4
    case Double => 8
    case _ => 0
  }

  // luaL_optinteger and luaL_optnumber on nil or a number.
  function IntegerOr0(x: Value): int
  {
    if x.Integer? then x.n else 0
  }

  // What _ser_lstring copies: numbers count as strings, all else is empty.
  function TextOf(x: Value): Text
  {
    match x
    case Str(s) => s
    case Integer(n) => Decimal(n)
    case _ => []
  }

  // Only a boolean sets the flag; a number is read and then ignored.
  function BoolByte(x: Value): byte
  {
    if x.Boolean? && x.b then 1 else 0
  }

  function LeafBytes(t: LeafType, x: Value): (s: seq<byte>)
  {
    match t
    case Bool8 => [BoolByte(x)]
    case Float => if x.Real? then x.pattern else LittleEndian(0, 4)
    case Double => if x.Real? then x.pattern else LittleEndian(0, 8)
    case StringL4 => LittleEndian(|TextOf(x)|, 4) + TextOf(x)
    case ByteString => LittleEndian(|TextOf(x)|, 4) + TextOf(x)
    case _ => LittleEndian(IntegerOr0(x), Width(t))
  }

  // A fixed-size writer advances by DataSize, not by what it stored.
  function LeafCells(item: TypeInfo, t: LeafType, x: Value): (c: seq<Cell>)
  {
    if !Supported(t) then []
    else if IsText(t) || item.dataSize <= Width(t) then Puts(LeafBytes(t, x))
    else Puts(LeafBytes(t, x)) + Keeps(item.dataSize - Width(t))
  }

  // The values the writer of type t takes: nil or a value of the type for
  // numbers, anything for flags, anything but a float for strings. A DataSize
  // below the width would make neighbouring fields overlap. Types without a
  // writer ask for nothing; the rule that leaves have writers is a separate one.
  predicate LeafDomain(item: TypeInfo, t: LeafType, x: Value)
  {
    match t
    case Bool8 => item.dataSize >= 1
    case Float => item.dataSize >= 4 && (x.Nil? || (x.Real? && |x.pattern| == 4))
    case Double => item.dataSize >= 8 && (x.Nil? || (x.Real? && |x.pattern| == 8))
    case SInt32 => item.dataSize >= 4 && (x.Nil? || (x.Integer? && -0x8000_0000 <= x.n < 0x8000_0000))
    case UInt32 => item.dataSize >= 4 && (x.Nil? || (x.Integer? && 0 <= x.n < 0x1_0000_0000))
    case SInt8 => item.dataSize >= 1 && (x.Nil? || x.Integer?)
    case UInt8 => item.dataSize >= 1 && (x.Nil? || x.Integer?)
    case SInt16 => item.dataSize >= 2 && (x.Nil? || x.Integer?)
    case UInt16 => item.dataSize >= 2 && (x.Nil? || x.Integer?)
    case StringL4 => TextDomain(x)
    case ByteString => TextDomain(x)
    case _ => true
  }

  predicate TextDomain(x: Value)
  {
    && !x.Real?
    && (x.Integer? ==> -100_000_000_000_000 < x.n < 100_000_000_000_000)
    && |TextOf(x)| < 0x7FFF_FFFC
  }

  predicate IsSigned(t: LeafType)
  {
    t == SInt8 || t == SInt16 || t == SInt32
  }

  // The value a reader pushes for the bytes of a fixed-size type.
  function LeafValue(t: LeafType, s: seq<byte>): Value
    requires |s| == Width(t)
  {
    match t
    case Bool8 => Boolean(s[0] != 0)
    case Float => Real(s)
    case Double => Real(s)
    case _ => Integer(if IsSigned(t) then Signed(s) else Unsigned(s))
  }

  function Word(bytes: seq<byte>, addr: nat): (n: nat)
    requires addr + 4 <= |bytes|
    ensures n < 0x1_0000_0000
  {
    assert Pow256(4) == 0x1_0000_0000;
    Unsigned(bytes[addr..addr + 4])
  }

  // A 32-bit word stored into a C int.
  function IntWord(bytes: seq<byte>, addr: nat): int
    requires addr + 4 <= |bytes|
  {
    AsSigned(Word(bytes, addr), 4)
  }

  function DecodeLeaf(item: TypeInfo, t: LeafType, bytes: seq<byte>, addr: nat): (r: Read<Value>)
    ensures r.Got? ==> r.next >= addr && !r.value.Nil?
    ensures r.Got? && addr <= |bytes| ==> r.next <= |bytes|
  {
    if !Supported(t) then Got(Str(ERROR_TEXT), addr)
    else if IsText(t) then DecodeText(bytes, addr)
    else if addr + Width(t) > |bytes| || addr + item.dataSize > |bytes| then Fault
    else Got(LeafValue(t, bytes[addr..addr + Width(t)]), addr + item.dataSize)
  }

  function DecodeText(bytes: seq<byte>, addr: nat): Read<Value>
  {
    if addr + 4 > |bytes| then Fault
    else
      var n := IntWord(bytes, addr);
      if n < 0 || n + 4 >= 0x8000_0000 || addr + 4 + n > |bytes| then Fault
      else Got(Str(bytes[addr + 4..addr + 4 + n]), addr + 4 + n)
  }

  // The value read back after x was written.
  function LeafReadback(t: LeafType, x: Value): Value
  {
    if !Supported(t) then Str(ERROR_TEXT)
    else if IsText(t) then Str(TextOf(x))
    else match t
      case Bool8 => Boolean(x.Boolean? && x.b)
      case Float => Real(if x.Real? then x.pattern else LittleEndian(0, 4))
      case Double => Real(if x.Real? then x.pattern else LittleEndian(0, 8))
      case _ => Integer(if IsSigned(t) then WrapSigned(IntegerOr0(x), Width(t))
          else WrapUnsigned(IntegerOr0(x), Width(t)))
  }

  // ---------------------------------------------------------------- lemmas

  lemma LeafBytesWidth(item: TypeInfo, t: LeafType, x: Value)
    requires Supported(t) && !IsText(t) && LeafDomain(item, t, x)
    ensures |LeafBytes(t, x)| == Width(t)
  {}

  lemma LeafValueOfBytes(item: TypeInfo, t: LeafType, x: Value)
    requires Supported(t) && !IsText(t) && LeafDomain(item, t, x)
    ensures |LeafBytes(t, x)| == Width(t) && LeafValue(t, LeafBytes(t, x)) == LeafReadback(t, x)
  {
    LeafBytesWidth(item, t, x);
    UnsignedOfLittleEndian(IntegerOr0(x), Width(t));
  }

  // A text decodes to s exactly when a word reading |s| is followed by s.
  lemma TextMatches(bytes: seq<byte>, addr: nat, w: seq<byte>, s: Text)
    requires |w| == 4 && Unsigned(w) == |s| < 0x7FFF_FFFC
    ensures Matches(bytes, addr, Puts(w + s)) <==>
            Matches(bytes, addr, Puts(w)) && DecodeText(bytes, addr) == Got(Str(s), addr + 4 + |s|)
  {
    hide Unsigned;
    assert Pow256(4) == 0x1_0000_0000;
    MatchesPair(bytes, addr, w, s);
    MatchesPuts(bytes, addr, w);
  }

  // A 32-bit word holds every length below 2^31 without change.
  lemma LengthWord(n: int, w: seq<byte>)
    requires -0x8000_0000 <= n < 0x8000_0000 && w == LittleEndian(n, 4)
    ensures Signed(w) == n && (n >= 0 ==> Unsigned(w) == n)
  {
    assert Pow256(4) == 0x1_0000_0000;
    UnsignedOfLittleEndian(n, 4);
    WrapInRange(n, 4);
  }

  lemma TextByteRoundTrip(bytes: seq<byte>, addr: nat)
    requires DecodeText(bytes, addr).Got?
    ensures var r := DecodeText(bytes, addr);
            && r.value.Str? && r.next == addr + 4 + |r.value.s| <= |bytes|
            && Matches(bytes, addr, Puts(LittleEndian(|r.value.s|, 4) + r.value.s))
  {
    hide LittleEndian, Unsigned;
    var s := DecodeText(bytes, addr).value.s;
    var w := bytes[addr..addr + 4];
    LittleEndianOfSigned(w);
    MatchesPuts(bytes, addr, w);
    WrapOfSigned(w);
    assert Pow256(4) == 0x1_0000_0000;
    TextMatches(bytes, addr, w, s);
  }

  lemma FixedRoundTrip(item: TypeInfo, t: LeafType, x: Value, bytes: seq<byte>, addr: nat)
    requires Supported(t) && !IsText(t) && LeafDomain(item, t, x)
    requires Matches(bytes, addr, LeafCells(item, t, x))
    ensures DecodeLeaf(item, t, bytes, addr) == Got(LeafReadback(t, x), addr + |LeafCells(item, t, x)|)
  {
    hide LittleEndian, Unsigned, LeafBytes, LeafReadback, LeafValue;
    var s := LeafBytes(t, x);
    LeafValueOfBytes(item, t, x);
    MatchesConcat(bytes, addr, Puts(s), Keeps(item.dataSize - Width(t)));
    assert item.dataSize == Width(t) ==> Puts(s) + Keeps(0) == Puts(s);
    MatchesPuts(bytes, addr, s);
  }

  lemma LeafRoundTrip(item: TypeInfo, t: LeafType, x: Value, bytes: seq<byte>, addr: nat)
    requires LeafDomain(item, t, x)
    requires Matches(bytes, addr, LeafCells(item, t, x))
    ensures DecodeLeaf(item, t, bytes, addr) == Got(LeafReadback(t, x), addr + |LeafCells(item, t, x)|)
  {
    hide LittleEndian, Unsigned, Puts, Matches, DecodeText;
    if Supported(t) {
      if IsText(t) {
        var s := TextOf(x);
        var w := LittleEndian(|s|, 4);
        LengthWord(|s|, w);
        TextMatches(bytes, addr, w, s);
      } else {
        FixedRoundTrip(item, t, x, bytes, addr);
      }
    }
  }

  // The flag bytes the writer can produce are the only non-canonical issue.
  predicate CanonicalLeaf(t: LeafType, bytes: seq<byte>, addr: nat)
  {
    t == Bool8 && addr < |bytes| ==> bytes[addr] <= 1
  }

  lemma LeafBytesOfValue(t: LeafType, s: seq<byte>)
    requires Supported(t) && !IsText(t) && |s| == Width(t)
    ensures LeafBytes(t, LeafValue(t, s)) == s <==> (t == Bool8 ==> s[0] <= 1)
  {
    if t != Bool8 && t != Float && t != Double {
      LittleEndianOfSigned(s);
      LittleEndianOfUnsigned(s);
    }
  }

  lemma LeafDomainOfValue(item: TypeInfo, t: LeafType, bytes: seq<byte>, addr: nat)
    requires item.dataSize >= Width(t)
    requires DecodeLeaf(item, t, bytes, addr).Got?
    ensures LeafDomain(item, t, DecodeLeaf(item, t, bytes, addr).value)
  {
    assert Pow256(4) == 0x1_0000_0000;
  }

  // Re-encoding a decoded element reproduces its bytes exactly when the
  // element is not a flag with a byte above 1.
  lemma LeafByteRoundTrip(item: TypeInfo, t: LeafType, bytes: seq<byte>, addr: nat)
    requires item.dataSize >= Width(t)
    requires addr <= |bytes| && DecodeLeaf(item, t, bytes, addr).Got?
    ensures var r := DecodeLeaf(item, t, bytes, addr);
            && |LeafCells(item, t, r.value)| == r.next - addr
            && (Matches(bytes, addr, LeafCells(item, t, r.value)) <==> CanonicalLeaf(t, bytes, addr))
  {
    hide LittleEndian, Unsigned;
    var r := DecodeLeaf(item, t, bytes, addr);
    if Supported(t) {
      if IsText(t) {
        TextByteRoundTrip(bytes, addr);
      } else {
        var s := bytes[addr..addr + Width(t)];
        LeafBytesOfValue(t, s);
        LeafDomainOfValue(item, t, bytes, addr);
        LeafBytesWidth(item, t, r.value);
        var u := LeafBytes(t, r.value);
        MatchesPuts(bytes, addr, u);
        MatchesConcat(bytes, addr, Puts(u), Keeps(item.dataSize - Width(t)));
        MatchesKeeps(bytes, addr + |u|, item.dataSize - Width(t));
        assert item.dataSize == Width(t) ==> Puts(u) + Keeps(0) == Puts(u);
      }
    }
  }

  lemma WrapStable(n: int, width: nat)
    requires width > 0
    ensures WrapUnsigned(WrapUnsigned(n, width), width) == WrapUnsigned(n, width)
    ensures WrapSigned(WrapSigned(n, width), width) == WrapSigned(n, width)
    ensures LittleEndian(WrapUnsigned(n, width), width) == LittleEndian(n, width) ==
        LittleEndian(WrapSigned(n, width), width)
  {
    WrapSignedAgrees(n, width);
    WrapInRange(n, width);
    WrapInRange(WrapUnsigned(n, width), width);
    LittleEndianWraps(n, width);
    LittleEndianInjective(WrapSigned(n, width), n, width);
  }

  predicate IsNumber(t: LeafType)
  {
    t in {SInt8, UInt8, SInt16, UInt16, SInt32, UInt32}
  }

  function Lowest(t: LeafType): int
  {
    match t
    case SInt8 => -0x80
    case SInt16 => -0x8000
    case SInt32 => -0x8000_0000
    case _ => 0
  }

  function Highest(t: LeafType): int
  {
    match t
    case SInt8 => 0x7F
    case UInt8 => 0xFF
    case SInt16 => 0x7FFF
    case UInt16 => 0xFFFF
    case SInt32 => 0x7FFF_FFFF
    case UInt32 => 0xFFFF_FFFF
    case _ => 0
  }

  lemma WidthsInNumbers()
    ensures Pow256(1) == 0x100 && Pow256(2) == 0x1_0000 && Pow256(4) == 0x1_0000_0000
  {}

  // A number comes back in the range of its type, shifted by a multiple of the
  // size of that range; so it comes back unchanged exactly if it was in range.
  // A missing number comes back as 0.
  lemma NumberComesBack(t: LeafType, n: int)
    requires IsNumber(t)
    ensures var r := LeafReadback(t, Integer(n));
            && r.Integer? && Lowest(t) <= r.n <= Highest(t)
            && (n - r.n) % (Highest(t) - Lowest(t) + 1) == 0
            && (r == Integer(n) <==> Lowest(t) <= n <= Highest(t))
    ensures LeafReadback(t, Nil) == Integer(0)
  {
    hide WrapUnsigned, WrapSigned, Pow256;
    WidthsInNumbers();
    WrapInRange(n, Width(t));
    WrapInRange(0, Width(t));
    WrapShifts(n, Width(t));
  }

  // The other values come back as they were; what does not belong to the type
  // comes back as false, the empty text or the pattern of zero.
  lemma OthersComeBack(x: Value)
    ensures LeafReadback(Bool8, x) == Boolean(x == Boolean(true))
    ensures x.Real? ==> LeafReadback(Float, x) == x && LeafReadback(Double, x) == x
    ensures LeafReadback(Float, Nil) == Real([0, 0, 0, 0])
    ensures LeafReadback(Double, Nil) == Real([0, 0, 0, 0, 0, 0, 0, 0])
    ensures forall t :: t == StringL4 || t == ByteString ==>
              LeafReadback(t, x) ==
              match x
              case Str(_) => x
              case Integer(n) => Str(Decimal(n))
              case _ => Str([])
  {
    assert LittleEndian(0, 4) == [0, 0, 0, 0];
    assert LittleEndian(0, 8) == [0, 0, 0, 0] + LittleEndian(0, 4);
  }

  // ---------------------------------------------------------------- what is stored

  // A number of one, two or four bytes stands there byte by byte, the lowest
  // first; the rest of DataSize is skipped. A missing number is 0.
  lemma StoredNumber(item: TypeInfo, t: LeafType, x: Value, i: nat)
    requires IsNumber(t) && LeafDomain(item, t, x) && i < item.dataSize
    ensures var cells := LeafCells(item, t, x);
            var width := if t in {SInt8, UInt8} then 1 else if t in {SInt16, UInt16} then 2 else 4;
            && |cells| == item.dataSize
            && cells[i] == if i < width then Put((if x.Integer? then x.n else 0) / Pow256(i) % 256) else Keep
  {
    hide LittleEndian, Pow256;
    if i < Width(t) {
      LittleEndianAt(IntegerOr0(x), Width(t), i);
    }
  }

  // A flag is stored as 1 for true and as 0 for every other value.
  lemma StoredFlag(item: TypeInfo, x: Value)
    requires item.dataSize >= 1
    ensures LeafCells(item, Bool8, x) == [Put(if x == Boolean(true) then 1 else 0)] + Keeps(item.dataSize - 1)
  {
    assert Puts([BoolByte(x)]) == [Put(BoolByte(x))];
  }

  // A text stands behind its length.
  lemma StoredText(item: TypeInfo, t: LeafType, x: Value, i: nat)
    requires t in {StringL4, ByteString} && x.Str? && i < 4 + |x.s|
    ensures var cells := LeafCells(item, t, x);
            && |cells| == 4 + |x.s|
            && cells[i] == Put(if i < 4 then |x.s| / Pow256(i) % 256 else x.s[i - 4])
  {
    hide LittleEndian, Pow256;
    if i < 4 {
      LittleEndianAt(|x.s|, 4, i);
    }
  }

  // A number read is the one in the range of its type with these bytes.
  lemma ReadNumber(item: TypeInfo, t: LeafType, bytes: seq<byte>, addr: nat, i: nat)
    requires IsNumber(t) && DecodeLeaf(item, t, bytes, addr).Got?
    ensures var r := DecodeLeaf(item, t, bytes, addr);
            var width := if t in {SInt8, UInt8} then 1 else if t in {SInt16, UInt16} then 2 else 4;
            && r.next == addr + item.dataSize && addr + width <= |bytes|
            && r.value.Integer? && Lowest(t) <= r.value.n <= Highest(t)
            && (i < width ==> bytes[addr + i] == r.value.n / Pow256(i) % 256)
  {
    hide LittleEndian, Unsigned, Pow256;
    var width := Width(t);
    var s := bytes[addr..addr + width];
    WidthsInNumbers();
    LittleEndianOfUnsigned(s);
    LittleEndianOfSigned(s);
    if i < width {
      LittleEndianAt(DecodeLeaf(item, t, bytes, addr).value.n, width, i);
    }
  }

  // A flag read is whether its byte is not 0, a float is its pattern, and a
  // text is what stands behind its length.
  lemma ReadOthers(item: TypeInfo, t: LeafType, bytes: seq<byte>, addr: nat)
    requires DecodeLeaf(item, t, bytes, addr).Got?
    ensures var r := DecodeLeaf(item, t, bytes, addr);
            && (t == Bool8 ==> addr < |bytes| && r == Got(Boolean(bytes[addr] != 0), addr + item.dataSize))
            && (t == Float ==> addr + 4 <= |bytes| && r == Got(Real(bytes[addr..addr + 4]), addr + item.dataSize))
            && (t == Double ==> addr + 8 <= |bytes| && r == Got(Real(bytes[addr..addr + 8]), addr + item.dataSize))
            && (t in {StringL4, ByteString} ==>
                  addr + 4 <= r.next <= |bytes| && r.value == Str(bytes[addr + 4..r.next])
                  && Word(bytes, addr) == r.next - addr - 4)
  {
    hide Unsigned;
    assert Pow256(4) == 0x1_0000_0000;
  }

  // Nothing is stored for exactly the six types without a writer, and their
  // reader gives the error text without moving on.
  lemma NothingStoredIff(item: TypeInfo, t: LeafType, x: Value, bytes: seq<byte>, addr: nat)
    requires LeafDomain(item, t, x)
    ensures LeafCells(item, t, x) == [] <==> t in {Undefined, UInt64, SInt64, StringFix, DateTime, Guid}
    ensures LeafCells(item, t, x) == [] ==>
              DecodeLeaf(item, t, bytes, addr) == Got(Str(Ascii("!!!ERROR: cannot deserialize this type!!!")), addr)
  {
    hide LittleEndian;
    if Supported(t) && !IsText(t) {
      LeafBytesWidth(item, t, x);
    }
  }

  lemma NumberReadbackStable(item: TypeInfo, t: LeafType, x: Value)
    requires IsNumber(t) && LeafDomain(item, t, x)
    ensures LeafReadback(t, LeafReadback(t, x)) == LeafReadback(t, x)
    ensures LeafDomain(item, t, LeafReadback(t, x))
    ensures LeafBytes(t, LeafReadback(t, x)) == LeafBytes(t, x)
  {
    hide LittleEndian, Unsigned, Decimal, WrapSigned, WrapUnsigned;
    WrapStable(IntegerOr0(x), Width(t));
    WrapInRange(IntegerOr0(x), Width(t));
    assert Pow256(4) == 0x1_0000_0000;
  }

  // Reading a value back twice is reading it back once.
  lemma LeafReadbackStable(item: TypeInfo, t: LeafType, x: Value)
    requires LeafDomain(item, t, x)
    ensures LeafReadback(t, LeafReadback(t, x)) == LeafReadback(t, x)
    ensures LeafDomain(item, t, LeafReadback(t, x))
    ensures LeafCells(item, t, LeafReadback(t, x)) == LeafCells(item, t, x)
  {
    if IsNumber(t) {
      hide LeafReadback, LeafDomain, LeafBytes;
      NumberReadbackStable(item, t, x);
    } else {
      hide LittleEndian, Decimal;
    }
  }
}
