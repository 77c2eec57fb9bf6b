// How long encodings are: the worst case per type, the zero case, gaps, and
// the optional-field mask.
module Bounds {
  import opened Bytes
  import opened ByteRoundTrip
  import opened Codec
  import opened Leaves
  import opened LuaStack
  import opened LuaValues
  import opened Schemas
  import opened StackRun
  import opened Symbols
  import opened Wrappers

  // ------------------------------------------------------ the largest encoding

  function Add(a: Option<nat>, b: Option<nat>): Option<nat>
  {
    if a.Some? && b.Some? then Some(a.value + b.value) else None
  }

  // The most bytes a type can take; None when it can hold a text of any length.
  function MaxStruct(node: TypeNode): Option<nat>
    decreases node, 0
  {
    Add(Some(node.item.offset), MaxFields(node.children))
  }

  function MaxFields(fs: seq<TypeNode>): Option<nat>
    decreases fs
  {
    if fs == [] then Some(0) else Add(MaxField(fs[0]), MaxFields(fs[1..]))
  }

  function MaxField(f: TypeNode): Option<nat>
    decreases f, 2
  {
    if !f.item.isArray then MaxElem(f)
    else if Capacity(f) <= 0 then Some(4)
    else match MaxElem(f)
      case None => None
      case Some(n) => Some(4 + Capacity(f) * n)
  }

  function MaxElem(f: TypeNode): Option<nat>
    decreases f, 1
  {
    match f.item.kind
    case Leaf(t) => if IsText(t) then None else if Supported(t) then Some(f.item.dataSize) else Some(0)
    case _ => MaxStruct(f)
  }

  predicate Within(n: nat, bound: Option<nat>)
  {
    bound.Some? ==> n <= bound.value
  }

  lemma OneMore(a: int, n: nat)
    ensures (a + 1) * n == n + a * n
  {}

  lemma Scale(a: int, b: int, n: nat)
    requires a <= b
    ensures a * n <= b * n
  {}

  // No completed run of serialize writes more, whatever the stack it starts on.
  lemma {:induction false} RunBound(node: TypeNode, stack: Stack)
    requires RunStruct(node, stack).Some?
    ensures Within(|RunStruct(node, stack).value.cells|, MaxStruct(node))
    decreases node, 0
  {
    RunFieldsBound(node.children, stack);
  }

  lemma {:induction false} RunFieldsBound(fs: seq<TypeNode>, stack: Stack)
    requires RunFields(fs, stack).Some?
    ensures Within(|RunFields(fs, stack).value.cells|, MaxFields(fs))
    decreases fs
  {
    if fs != [] {
      RunFieldBound(fs[0], stack);
      RunFieldsBound(fs[1..], RunField(fs[0], stack).value.stack);
    }
  }

  lemma {:induction false} RunFieldBound(f: TypeNode, stack: Stack)
    requires RunField(f, stack).Some?
    ensures Within(|RunField(f, stack).value.cells|, MaxField(f))
    decreases f, 3
  {
    hide LittleEndian, MaxElem, RunElem, RunElems;
    var x := FieldOf(Top(stack), f.item.itemName);
    if f.item.isArray {
      var count := Count(f, x);
      RunElemsBound(f, stack + [x, Nil], 0, count);
      if MaxElem(f).Some? && count > 0 {
        Scale(count, Capacity(f), MaxElem(f).value);
      }
    } else {
      RunElemBound(f, stack + [x]);
    }
  }

  lemma {:induction false} RunElemsBound(f: TypeNode, stack: Stack, i: nat, count: int)
    requires RunElems(f, stack, i, count).Some?
    ensures i >= count ==> RunElems(f, stack, i, count).value.cells == []
    ensures i < count && MaxElem(f).Some? ==>
              |RunElems(f, stack, i, count).value.cells| <= (count - i) * MaxElem(f).value
    decreases f, 2, count - i
  {
    hide MaxElem, RunElem, Advance, CanStep;
    if i < count {
      var next := Advance(stack, i);
      RunElemBound(f, next);
      RunElemsBound(f, RunElem(f, next).value.stack, i + 1, count);
      if MaxElem(f).Some? {
        OneMore(count - (i + 1), MaxElem(f).value);
      }
    }
  }

  lemma {:induction false} RunElemBound(f: TypeNode, stack: Stack)
    requires RunElem(f, stack).Some?
    ensures Within(|RunElem(f, stack).value.cells|, MaxElem(f))
    decreases f, 1
  {
    match f.item.kind
    case Leaf(t) =>
      if Supported(t) && !IsText(t) {
        LeafBytesWidth(f.item, t, Top(stack));
      }
    case _ => RunBound(f, stack);
  }

  // In particular no encoding is longer.
  lemma StructBound(node: TypeNode, x: Value)
    requires InDomain(node, x)
    ensures Within(|EncodeStruct(node, x)|, MaxStruct(node))
  {
    RunWritesEncoding(node, [x]);
    RunBound(node, [x]);
  }

  // ------------------------------------------------------ it is attained

  // A table that fills every array, with texts of the given length.
  function FullStruct(node: TypeNode, text: nat): Value
    decreases node, 0
  {
    Table(FullFields(node.children, text))
  }

  function FullFields(fs: seq<TypeNode>, text: nat): Fields
    decreases fs
  {
    if fs == [] then map[] else FullFields(fs[1..], text)[Name(fs[0].item.itemName) := FullField(fs[0], text)]
  }

  function FullField(f: TypeNode, text: nat): Value
    decreases f, 2
  {
    if !f.item.isArray then FullElem(f, text)
    else
      var e := FullElem(f, text);
      Table(map i | 1 <= i <= Capacity(f) :: Index(i) := e)
  }

  function FullElem(f: TypeNode, text: nat): Value
    decreases f, 1
  {
    match f.item.kind
    case Leaf(t) => if IsText(t) then Str(seq(text, i => 0)) else Nil
    case _ => FullStruct(f, text)
  }

  // Exactly the bound, or at least the text length where there is none.
  predicate Attains(n: nat, bound: Option<nat>, text: nat)
  {
    match bound
    case Some(m) => n == m
    case None => n >= text
  }

  lemma {:induction false} FullStructAttains(node: TypeNode, text: nat)
    requires WellFormed(node) && Throughout(HasWriter, node) && text < 0x7FFF_FFFC
    ensures InDomain(node, FullStruct(node, text))
    ensures Attains(|EncodeStruct(node, FullStruct(node, text))|, MaxStruct(node), text)
    decreases node, 0
  {
    FullFieldsFound(node.children, text);
    FullFieldsAttain(node.children, FullStruct(node, text), text);
  }

  lemma {:induction false} FullFieldsFound(fs: seq<TypeNode>, text: nat)
    requires DistinctNames(fs)
    ensures forall f :: f in fs ==> FieldOf(Table(FullFields(fs, text)), f.item.itemName) == FullField(f, text)
    decreases fs
  {
    if fs != [] {
      FullFieldsFound(fs[1..], text);
    }
  }

  lemma {:induction false} FullFieldsAttain(fs: seq<TypeNode>, x: Value, text: nat)
    requires text < 0x7FFF_FFFC
    requires forall f :: f in fs ==> WellFormedField(f) && ThroughoutField(HasWriter, f)
    requires forall f :: f in fs ==> FieldOf(x, f.item.itemName) == FullField(f, text)
    ensures forall f :: f in fs ==> OnField(DomainRule, f, FieldOf(x, f.item.itemName))
    ensures Attains(|EncodeFields(fs, x)|, MaxFields(fs), text)
    decreases fs
  {
    if fs != [] {
      FullFieldAttains(fs[0], text);
      FullFieldsAttain(fs[1..], x, text);
    }
  }

  lemma {:induction false} FullFieldAttains(f: TypeNode, text: nat)
    requires WellFormedField(f) && ThroughoutField(HasWriter, f) && text < 0x7FFF_FFFC
    ensures OnField(DomainRule, f, FullField(f, text))
    ensures Attains(|EncodeField(f, FullField(f, text))|, MaxField(f), text)
    decreases f, 3
  {
    hide LittleEndian, OnElem, EncodeElem, MaxElem, FullElem, ThroughoutField;
    FullElemAttains(f, text);
    if f.item.isArray {
      var x := FullField(f, text);
      var n := if Capacity(f) < 0 then 0 else Capacity(f);
      BorderIs(x.fields, n);
      FullElemsLength(f, x, FullElem(f, text), 0, Count(f, x));
      if Capacity(f) > 0 {
        Scale(1, Capacity(f), |EncodeElem(f, FullElem(f, text))|);
      }
    }
  }

  lemma {:induction false} FullElemsLength(f: TypeNode, x: Value, e: Value, i: nat, count: int)
    requires forall k :: 1 <= k <= count ==> ElementOf(x, k) == e
    ensures |EncodeElems(f, x, i, count)| == if i < count then (count - i) * |EncodeElem(f, e)| else 0
    decreases count - i
  {
    hide EncodeElem;
    if i < count {
      FullElemsLength(f, x, e, i + 1, count);
      OneMore(count - (i + 1), |EncodeElem(f, e)|);
    }
  }

  lemma {:induction false} FullElemAttains(f: TypeNode, text: nat)
    requires WellFormedField(f) && ThroughoutField(HasWriter, f) && text < 0x7FFF_FFFC
    ensures OnElem(DomainRule, f, FullElem(f, text))
    ensures Attains(|EncodeElem(f, FullElem(f, text))|, MaxElem(f), text)
    decreases f, 1
  {
    match f.item.kind
    case Leaf(t) =>
      if Supported(t) && !IsText(t) {
        LeafBytesWidth(f.item, t, Nil);
      }
    case _ => FullStructAttains(f, text);
  }

  // ------------------------------------------------------ the buffer question

  // Every completed run of serialize for this type writes at most size bytes.
  ghost predicate AlwaysFits(node: TypeNode, size: nat)
  {
    forall stack :: RunStruct(node, stack).Some? ==> |RunStruct(node, stack).value.cells| <= size
  }

  // A buffer is large enough for a type exactly when the static bound says so;
  // a type with a reachable text never fits in general.
  lemma FitsIffBounded(node: TypeNode, size: nat)
    requires WellFormed(node) && Throughout(HasWriter, node) && size < 0x7FFF_FFFB
    ensures AlwaysFits(node, size) <==> MaxStruct(node).Some? && MaxStruct(node).value <= size
  {
    var full := FullStruct(node, size + 1);
    FullStructAttains(node, size + 1);
    RunWritesEncoding(node, [full]);
    assert RunStruct(node, [full]).Some?;
    forall stack | RunStruct(node, stack).Some?
      ensures Within(|RunStruct(node, stack).value.cells|, MaxStruct(node))
    {
      RunBound(node, stack);
    }
  }

  // ------------------------------------------------------ the zero length

  // Nothing is written for this type: no skipped bytes, no array, no leaf
  // that has a writer.
  predicate Weightless(node: TypeNode)
    decreases node, 0
  {
    node.item.offset == 0 && forall f :: f in node.children ==> WeightlessField(f)
  }

  predicate WeightlessField(f: TypeNode)
    decreases f, 1
  {
    !f.item.isArray &&
    match f.item.kind
    case Leaf(t) => !Supported(t)
    case _ => Weightless(f)
  }

  // A completed run writes nothing exactly for weightless types, whatever the
  // stack: serialize then returns 0.
  lemma {:induction false} RunZeroIffWeightless(node: TypeNode, stack: Stack)
    requires RunStruct(node, stack).Some?
    ensures RunStruct(node, stack).value.cells == [] <==> Weightless(node)
    decreases node, 0
  {
    RunFieldsZero(node.children, stack);
  }

  lemma {:induction false} RunFieldsZero(fs: seq<TypeNode>, stack: Stack)
    requires RunFields(fs, stack).Some?
    ensures RunFields(fs, stack).value.cells == [] <==> forall f :: f in fs ==> WeightlessField(f)
    decreases fs
  {
    if fs != [] {
      assert forall g :: g in fs <==> g == fs[0] || g in fs[1..];
      RunFieldZero(fs[0], stack);
      RunFieldsZero(fs[1..], RunField(fs[0], stack).value.stack);
    }
  }

  lemma {:induction false} RunFieldZero(f: TypeNode, stack: Stack)
    requires RunField(f, stack).Some?
    ensures RunField(f, stack).value.cells == [] <==> WeightlessField(f)
    decreases f, 1
  {
    hide LittleEndian, RunElems;
    if !f.item.isArray {
      var x := FieldOf(Top(stack), f.item.itemName);
      match f.item.kind
      case Leaf(t) =>
        if Supported(t) && !IsText(t) {
          LeafBytesWidth(f.item, t, x);
        }
      case _ => RunZeroIffWeightless(f, stack + [x]);
    }
  }

  // In particular the encoding of a table is empty exactly then.
  lemma ZeroIffWeightless(node: TypeNode, x: Value)
    requires InDomain(node, x)
    ensures |EncodeStruct(node, x)| == 0 <==> Weightless(node)
  {
    RunWritesEncoding(node, [x]);
    RunZeroIffWeightless(node, [x]);
  }

  // ------------------------------------------------------ gaps

  // Every byte of the range is written exactly when each Offset and DataSize
  // met on the walk is the one that leaves nothing out; then the result does
  // not depend on what the buffer held before.
  lemma {:induction false} CoverageIffTight(node: TypeNode, x: Value)
    requires InDomain(node, x)
    ensures NoGap(EncodeStruct(node, x)) <==> OnStruct(TightRule, node, x)
    decreases node, 0
  {
    NoGapConcat(Header(node), EncodeFields(node.children, x));
    HeaderGap(node);
    FieldsCoverage(node.children, x);
  }

  lemma PutsHaveNoGap(s: seq<byte>)
    ensures NoGap(Puts(s))
  {}

  lemma KeepsAreGaps(n: nat)
    ensures NoGap(Keeps(n)) <==> n == 0
  {
    if n > 0 {
      assert Keeps(n)[0] == Keep;
    }
  }

  lemma HeaderGap(node: TypeNode)
    requires HasMask(node) ==> node.item.offset >= 4
    ensures NoGap(Header(node)) <==> node.item.offset == 0 || (HasMask(node) && node.item.offset == 4)
  {
    hide LittleEndian;
    KeepsAreGaps(node.item.offset);
    if HasMask(node) {
      var w := LittleEndian(GetBits(|node.children|), 4);
      NoGapConcat(Puts(w), Keeps(node.item.offset - 4));
      PutsHaveNoGap(w);
      KeepsAreGaps(node.item.offset - 4);
    }
  }

  lemma LeafGap(item: TypeInfo, t: LeafType, x: Value)
    ensures NoGap(LeafCells(item, t, x)) <==> (Supported(t) && !IsText(t) ==> item.dataSize <= Width(t))
  {
    var s := LeafBytes(t, x);
    PutsHaveNoGap(s);
    if item.dataSize > Width(t) {
      NoGapConcat(Puts(s), Keeps(item.dataSize - Width(t)));
      KeepsAreGaps(item.dataSize - Width(t));
    }
  }

  lemma {:induction false} FieldsCoverage(fs: seq<TypeNode>, x: Value)
    requires forall f :: f in fs ==> OnField(DomainRule, f, FieldOf(x, f.item.itemName))
    ensures NoGap(EncodeFields(fs, x)) <==> forall f :: f in fs ==> OnField(TightRule, f, FieldOf(x, f.item.itemName))
    decreases fs
  {
    if fs != [] {
      var f := fs[0];
      var v := FieldOf(x, f.item.itemName);
      assert forall g :: g in fs <==> g == f || g in fs[1..];
      NoGapConcat(EncodeField(f, v), EncodeFields(fs[1..], x));
      FieldCoverage(f, v);
      FieldsCoverage(fs[1..], x);
    }
  }

  lemma {:induction false} FieldCoverage(f: TypeNode, x: Value)
    requires OnField(DomainRule, f, x)
    ensures NoGap(EncodeField(f, x)) <==> OnField(TightRule, f, x)
    decreases f, 3
  {
    hide LittleEndian;
    if f.item.isArray {
      var count := Count(f, x);
      NoGapConcat(Puts(LittleEndian(count, 4)), EncodeElems(f, x, 0, count));
      PutsHaveNoGap(LittleEndian(count, 4));
      ElemsCoverage(f, x, 0, count);
    } else {
      ElemCoverage(f, x);
    }
  }

  lemma {:induction false} ElemsCoverage(f: TypeNode, x: Value, i: nat, count: int)
    requires forall k :: 1 <= k <= count ==> OnElem(DomainRule, f, ElementOf(x, k))
    ensures NoGap(EncodeElems(f, x, i, count)) <==> forall k :: i < k <= count ==> OnElem(TightRule, f, ElementOf(x, k))
    decreases f, 2, count - i
  {
    hide EncodeElem, OnElem;
    if i < count {
      var v := ElementOf(x, i + 1);
      NoGapConcat(EncodeElem(f, v), EncodeElems(f, x, i + 1, count));
      ElemCoverage(f, v);
      ElemsCoverage(f, x, i + 1, count);
    }
  }

  lemma {:induction false} ElemCoverage(f: TypeNode, x: Value)
    requires OnElem(DomainRule, f, x)
    ensures NoGap(EncodeElem(f, x)) <==> OnElem(TightRule, f, x)
    decreases f, 1
  {
    match f.item.kind
    case Leaf(t) => LeafGap(f.item, t, x);
    case _ => CoverageIffTight(f, x);
  }

  // ------------------------------------------------------ the optional-field mask

  // Bit i of a word, where p is 2^i.
  predicate OddQuotient(word: nat, p: nat)
    requires p > 0
  {
    word / p % 2 == 1
  }

  predicate Bit(word: nat, i: nat)
  {
    OddQuotient(word, Pow2(i))
  }

  lemma {:induction false} Pow2Sum(m: nat, n: nat)
    ensures Pow2(m + n) == Pow2(m) * Pow2(n)
    decreases n
  {
    if n > 0 {
      Pow2Sum(m, n - 1);
      assert Pow2(m + n) == 2 * Pow2(m + n - 1) == 2 * (Pow2(m) * Pow2(n - 1)) == Pow2(m) * (2 * Pow2(n - 1));
    }
  }

  lemma OnesShifted(p: nat, h: nat)
    requires p > 0 && h > 0
    ensures p * (2 * h) > 0 && OddQuotient(p * (2 * h) - 1, p)
  {
    assert p * (2 * h) == p * (2 * h - 1) + p;
    ModuloUnique(p * (2 * h) - 1, p, 2 * h - 1, p - 1);
  }

  lemma SmallQuotient(word: nat, p: nat)
    requires word < p
    ensures !OddQuotient(word, p)
  {
    ModuloUnique(word, p, 0, word);
  }

  lemma OnesBelow(n: nat, i: nat)
    requires i < n
    ensures Bit(Pow2(n) - 1, i)
  {
    hide OddQuotient;
    Pow2Sum(i, n - i);
    OnesShifted(Pow2(i), Pow2(n - i - 1));
  }

  lemma ZerosAbove(n: nat, i: nat)
    requires n <= i
    ensures !Bit(Pow2(n) - 1, i)
  {
    hide OddQuotient;
    Pow2Monotone(n, i);
    SmallQuotient(Pow2(n) - 1, Pow2(i));
  }

  // The word 2^n - 1 has exactly the bits below n.
  lemma OnesBits(n: nat, i: nat)
    ensures Bit(Pow2(n) - 1, i) <==> i < n
  {
    if i < n {
      OnesBelow(n, i);
    } else {
      ZerosAbove(n, i);
    }
  }

  lemma FullMask()
    ensures 0xFFFF_FFFF == Pow2(32) - 1
  {
    assert Pow2(10) == 0x400;
    assert Pow2(20) == 0x10_0000;
    assert Pow2(30) == 0x4000_0000;
  }

  // In the mask written for a structure with count fields, all fields that
  // have a bit are marked present; no other bit is set unless count is 31.
  lemma MaskMarksFields(count: nat)
    ensures forall i :: 0 <= i < count && i < 32 ==> Bit(GetBits(count), i)
    ensures (forall i :: count <= i < 32 ==> !Bit(GetBits(count), i)) <==> count != 31
  {
    FullMask();
    var word := if count >= 31 then 32 else count;
    assert GetBits(count) == Pow2(word) - 1;
    forall i: nat
      ensures Bit(GetBits(count), i) <==> i < word
    {
      OnesBits(word, i);
    }
    assert count == 31 ==> Bit(GetBits(count), 31);
  }

  // Lifted to the buffer: the word a reader finds in front of the fields of a
  // structure with optional fields.
  lemma MaskInBuffer(node: TypeNode, x: Value, bytes: seq<byte>, addr: nat)
    requires node.item.kind == StructOptFld && node.item.offset != 0 && InDomain(node, x)
    requires Matches(bytes, addr, EncodeStruct(node, x))
    ensures addr + 4 <= |bytes|
    ensures forall i :: 0 <= i < |node.children| && i < 32 ==> Bit(Word(bytes, addr), i)
    ensures (forall i :: |node.children| <= i < 32 ==> !Bit(Word(bytes, addr), i)) <==> |node.children| != 31
  {
    hide LittleEndian, Unsigned, Bit;
    MatchesConcat(bytes, addr, Header(node), EncodeFields(node.children, x));
    HeaderByteRoundTrip(node, bytes, addr);
    MaskMarksFields(|node.children|);
  }

  // What Offset skips: four bytes are stored for a structure with optional
  // fields, none for any other kind, and the fields follow.
  lemma HeaderCells(node: TypeNode, x: Value)
    requires InDomain(node, x)
    ensures var cells := EncodeStruct(node, x); var n := node.item.offset;
            && |cells| >= n && cells[n..] == EncodeFields(node.children, x)
            && forall i :: 0 <= i < n ==> (cells[i].Put? <==> node.item.kind == StructOptFld && i < 4)
  {
    hide LittleEndian, GetBits;
    var cells := EncodeStruct(node, x);
    assert cells[node.item.offset..] == EncodeFields(node.children, x);
    assert forall i :: 0 <= i < node.item.offset ==> cells[i] == Header(node)[i];
  }

  // The same of a run on any stack.
  lemma RunHeaderCells(node: TypeNode, stack: Stack)
    requires RunStruct(node, stack).Some?
    ensures var cells := RunStruct(node, stack).value.cells; var n := node.item.offset;
            && |cells| >= n
            && forall i :: 0 <= i < n ==> (cells[i].Put? <==> node.item.kind == StructOptFld && i < 4)
  {
    hide LittleEndian, GetBits;
    var cells := RunStruct(node, stack).value.cells;
    assert forall i :: 0 <= i < node.item.offset ==> cells[i] == Header(node)[i];
  }

  // ------------------------------------------------------ where things stand

  // The cells of consecutive fields stand one after the other in field order.
  lemma {:induction false} FieldsInOrder(fs: seq<TypeNode>, gs: seq<TypeNode>, x: Value)
    ensures EncodeFields(fs + gs, x) == EncodeFields(fs, x) + EncodeFields(gs, x)
    decreases fs
  {
    if fs == [] {
      assert fs + gs == gs;
    } else {
      assert (fs + gs)[1..] == fs[1..] + gs;
      FieldsInOrder(fs[1..], gs, x);
    }
  }

  // Field i starts where the fields before it end, and holds the value the
  // table has under its name.
  lemma FieldPlace(fs: seq<TypeNode>, t: Fields, i: nat)
    requires i < |fs| && Name(fs[i].item.itemName) in t
    ensures var start := |EncodeFields(fs[..i], Table(t))|;
            var cells := EncodeField(fs[i], t[Name(fs[i].item.itemName)]);
            && start + |cells| <= |EncodeFields(fs, Table(t))|
            && EncodeFields(fs, Table(t))[start..start + |cells|] == cells
  {
    var x := Table(t);
    FieldsInOrder(fs[..i], fs[i..], x);
    assert fs[..i] + fs[i..] == fs;
    var cells := EncodeField(fs[i], t[Name(fs[i].item.itemName)]);
    assert EncodeFields(fs[i..], x) == cells + EncodeFields(fs[i..][1..], x);
  }

  // An array starts with the number of its elements, at most the declared one,
  // as a word; the elements follow.
  lemma ArrayCells(f: TypeNode, x: Value, i: nat)
    requires OnField(DomainRule, f, x) && f.item.isArray && i < 4
    ensures var declared := f.item.arrayDimensions[0];
            var count := if Length(x) < declared then Length(x) else declared; var cells := EncodeField(f, x);
            && |cells| >= 4 && cells[4..] == EncodeElems(f, x, 0, count)
            && cells[i] == Put(count / Pow256(i) % 256)
  {
    hide LittleEndian, Pow256;
    LittleEndianAt(Count(f, x), 4, i);
  }

  // Element k of an array starts where the elements before it end.
  lemma {:induction false} ElemPlace(f: TypeNode, x: Value, i: nat, k: nat, count: int)
    requires i <= k < count
    ensures EncodeElems(f, x, i, count) ==
            EncodeElems(f, x, i, k) + EncodeElem(f, ElementOf(x, k + 1)) + EncodeElems(f, x, k + 1, count)
    decreases k - i
  {
    hide EncodeElem;
    if i < k {
      ElemPlace(f, x, i + 1, k, count);
    }
  }
}
