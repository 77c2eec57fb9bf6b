// Writing what was read: decoding a buffer and encoding the table reproduces
// the consumed bytes exactly when the buffer is canonical.
module ByteRoundTrip {
  import opened Bytes
  import opened Codec
  import opened Leaves
  import opened LuaValues
  import opened Symbols

  predicate DistinctNames(fs: seq<TypeNode>)
  {
    forall i, j :: 0 <= i < j < |fs| ==> fs[i].item.itemName != fs[j].item.itemName
  }

  // Type trees whose fields do not overlap in the buffer or in the table.
  predicate WellFormed(node: TypeNode)
    decreases node, 0
  {
    && (HasMask(node) ==> node.item.offset >= 4)
    && DistinctNames(node.children)
    && forall f :: f in node.children ==> WellFormedField(f)
  }

  predicate WellFormedField(f: TypeNode)
    decreases f, 1
  {
    && (f.item.isArray ==> ArrayShape(f))
    && match f.item.kind
       case Leaf(t) => f.item.dataSize >= Width(t)
       case _ => WellFormed(f)
  }

  // ------------------------------------------------------------ canonical buffers

  // The mask is the one serialize writes, ...
  predicate CanonicalStruct(node: TypeNode, bytes: seq<byte>, addr: nat)
    decreases node, 0
  {
    && (HasMask(node) ==> addr + 4 <= |bytes| && Word(bytes, addr) == GetBits(|node.children|))
    && CanonicalFields(node.children, bytes, addr + node.item.offset)
  }

  predicate CanonicalFields(fs: seq<TypeNode>, bytes: seq<byte>, addr: nat)
    decreases fs
  {
    fs == [] || (
      && CanonicalField(fs[0], bytes, addr)
      && DecodeField(fs[0], bytes, addr).Got?
      && CanonicalFields(fs[1..], bytes, DecodeField(fs[0], bytes, addr).next))
  }

  // ... array counts are within the declared dimension and structures do not
  // occur as array elements, ...
  predicate CanonicalCount(f: TypeNode, count: int)
  {
    || (0 <= count <= Capacity(f) && (IsStruct(f) ==> count == 0))
    || count == Capacity(f) < 0
  }

  predicate CanonicalField(f: TypeNode, bytes: seq<byte>, addr: nat)
    decreases f, 3
  {
    if !f.item.isArray then CanonicalElem(f, bytes, addr)
    else
      && addr + 4 <= |bytes|
      && CanonicalCount(f, IntWord(bytes, addr))
      && CanonicalElems(f, bytes, addr + 4, 0, IntWord(bytes, addr))
  }

  predicate CanonicalElems(f: TypeNode, bytes: seq<byte>, addr: nat, i: nat, count: int)
    decreases f, 2, count - i
  {
    i >= count || (
      && CanonicalElem(f, bytes, addr)
      && DecodeElem(f, bytes, addr).Got?
      && CanonicalElems(f, bytes, DecodeElem(f, bytes, addr).next, i + 1, count))
  }

  // ... and flags are 0 or 1.
  predicate CanonicalElem(f: TypeNode, bytes: seq<byte>, addr: nat)
    decreases f, 1
  {
    match f.item.kind
    case Leaf(t) => CanonicalLeaf(t, bytes, addr)
    case _ => CanonicalStruct(f, bytes, addr)
  }

  // ------------------------------------------------------------ the theorem

  // Needed of the table: a writer for every leaf it reaches, without which the
  // code does not write the encoding.
  lemma ByteRoundTrip(node: TypeNode, bytes: seq<byte>, addr: nat)
    requires WellFormed(node)
    requires DecodeStruct(node, bytes, addr).Got?
    requires OnStruct(SupportedRule, node, Table(DecodeStruct(node, bytes, addr).value))
    ensures var r := DecodeStruct(node, bytes, addr); var cells := EncodeStruct(node, Table(r.value));
            && InDomain(node, Table(r.value))
            && (CanonicalStruct(node, bytes, addr) <==> Matches(bytes, addr, cells))
            && (CanonicalStruct(node, bytes, addr) ==> addr + |cells| == r.next)
  {
    StructByteRoundTrip(node, bytes, addr);
    DomainSplits(node, Table(DecodeStruct(node, bytes, addr).value));
  }

  lemma {:induction false} StructByteRoundTrip(node: TypeNode, bytes: seq<byte>, addr: nat)
    requires WellFormed(node)
    requires DecodeStruct(node, bytes, addr).Got?
    ensures var r := DecodeStruct(node, bytes, addr); var cells := EncodeStruct(node, Table(r.value));
            && OnStruct(ShapeRule, node, Table(r.value))
            && (CanonicalStruct(node, bytes, addr) <==> Matches(bytes, addr, cells))
            && (CanonicalStruct(node, bytes, addr) ==> addr + |cells| == r.next)
    decreases node, 0
  {
    var r := DecodeStruct(node, bytes, addr);
    MatchesConcat(bytes, addr, Header(node), EncodeFields(node.children, Table(r.value)));
    HeaderByteRoundTrip(node, bytes, addr);
    FieldsByteRoundTrip(node.children, bytes, addr + node.item.offset, map[]);
  }

  lemma GetBitsFits(count: nat)
    ensures GetBits(count) < 0x1_0000_0000
  {
    if count < 31 {
      Pow2Monotone(count, 31);
      assert Pow2(10) == 0x400;
      assert Pow2(20) == 0x10_0000;
      assert Pow2(31) == 0x8000_0000;
    }
  }

  lemma {:induction false} Pow2Monotone(m: nat, n: nat)
    requires m <= n
    ensures Pow2(m) <= Pow2(n)
    decreases n
  {
    if m < n {
      Pow2Monotone(m, n - 1);
    }
  }

  lemma HeaderByteRoundTrip(node: TypeNode, bytes: seq<byte>, addr: nat)
    requires HasMask(node) ==> node.item.offset >= 4
    requires addr + node.item.offset <= |bytes|
    ensures Matches(bytes, addr, Header(node)) <==> (HasMask(node) ==> Word(bytes, addr) == GetBits(|node.children|))
  {
    hide LittleEndian, Unsigned;
    MatchesKeeps(bytes, addr, node.item.offset);
    if HasMask(node) {
      var mask := GetBits(|node.children|);
      var w := LittleEndian(mask, 4);
      MatchesConcat(bytes, addr, Puts(w), Keeps(node.item.offset - 4));
      MatchesKeeps(bytes, addr + 4, node.item.offset - 4);
      MatchesPuts(bytes, addr, w);
      GetBitsFits(|node.children|);
      WordIs(bytes[addr..addr + 4], mask);
    }
  }

  lemma WordIs(s: seq<byte>, n: nat)
    requires |s| == 4 && n < 0x1_0000_0000
    ensures s == LittleEndian(n, 4) <==> Unsigned(s) == n
  {
    assert Pow256(4) == 0x1_0000_0000;
    LittleEndianOfUnsigned(s);
    UnsignedOfLittleEndian(n, 4);
    WrapInRange(n, 4);
  }

  // Decoding further fields leaves entries with other names alone.
  lemma {:induction false} FieldsKeepOthers(fs: seq<TypeNode>, bytes: seq<byte>, addr: nat, acc: Fields, k: Key)
    requires DecodeFields(fs, bytes, addr, acc).Got?
    requires forall f :: f in fs ==> k != Name(f.item.itemName)
    ensures Get(DecodeFields(fs, bytes, addr, acc).value, k) == Get(acc, k)
    decreases fs
  {
    if fs != [] {
      var r := DecodeField(fs[0], bytes, addr);
      FieldsKeepOthers(fs[1..], bytes, r.next, acc[Name(fs[0].item.itemName) := r.value], k);
    }
  }

  lemma {:induction false} FieldsByteRoundTrip(fs: seq<TypeNode>, bytes: seq<byte>, addr: nat, acc: Fields)
    requires DistinctNames(fs)
    requires forall f :: f in fs ==> WellFormedField(f)
    requires addr <= |bytes| && DecodeFields(fs, bytes, addr, acc).Got?
    ensures var r := DecodeFields(fs, bytes, addr, acc); var x := Table(r.value);
            && (forall f :: f in fs ==> OnField(ShapeRule, f, FieldOf(x, f.item.itemName)))
            && (CanonicalFields(fs, bytes, addr) <==> Matches(bytes, addr, EncodeFields(fs, x)))
            && (CanonicalFields(fs, bytes, addr) ==> addr + |EncodeFields(fs, x)| == r.next)
    decreases fs
  {
    hide DecodeField, EncodeField, OnField, CanonicalField, WellFormedField;
    if fs != [] {
      var f, rest := fs[0], fs[1..];
      var key := Name(f.item.itemName);
      var r := DecodeField(f, bytes, addr);
      var x := Table(DecodeFields(fs, bytes, addr, acc).value);
      FieldsKeepOthers(rest, bytes, r.next, acc[key := r.value], key);
      FieldByteRoundTrip(f, bytes, addr);
      FieldsByteRoundTrip(rest, bytes, r.next, acc[key := r.value]);
      MatchesConcat(bytes, addr, EncodeField(f, r.value), EncodeFields(rest, x));
    }
  }

  lemma {:induction false} FieldByteRoundTrip(f: TypeNode, bytes: seq<byte>, addr: nat)
    requires WellFormedField(f)
    requires addr <= |bytes| && DecodeField(f, bytes, addr).Got?
    ensures var r := DecodeField(f, bytes, addr);
            && OnField(ShapeRule, f, r.value)
            && (CanonicalField(f, bytes, addr) <==> Matches(bytes, addr, EncodeField(f, r.value)))
            && (CanonicalField(f, bytes, addr) ==> addr + |EncodeField(f, r.value)| == r.next)
    decreases f, 4
  {
    if !f.item.isArray {
      ElemByteRoundTrip(f, bytes, addr);
    } else {
      ArrayByteRoundTrip(f, bytes, addr);
    }
  }

  lemma CountWord(bytes: seq<byte>, addr: nat, count: int)
    requires addr + 4 <= |bytes| && -0x8000_0000 <= count < 0x8000_0000
    ensures Matches(bytes, addr, Puts(LittleEndian(count, 4))) <==> IntWord(bytes, addr) == count
  {
    hide LittleEndian, Unsigned;
    var w := LittleEndian(count, 4);
    LengthWord(count, w);
    MatchesPuts(bytes, addr, w);
    LittleEndianOfSigned(bytes[addr..addr + 4]);
  }

  lemma {:induction false} ArrayByteRoundTrip(f: TypeNode, bytes: seq<byte>, addr: nat)
    requires WellFormedField(f) && f.item.isArray
    requires addr <= |bytes| && DecodeField(f, bytes, addr).Got?
    ensures var r := DecodeField(f, bytes, addr);
            && OnField(ShapeRule, f, r.value)
            && (CanonicalField(f, bytes, addr) <==> Matches(bytes, addr, EncodeField(f, r.value)))
            && (CanonicalField(f, bytes, addr) ==> addr + |EncodeField(f, r.value)| == r.next)
    decreases f, 3
  {
    hide LittleEndian;
    var x := DecodeField(f, bytes, addr).value;
    var stored := IntWord(bytes, addr);
    assert -0x8000_0000 <= stored < 0x8000_0000 by { assert Pow256(4) == 0x1_0000_0000; }
    if IsStruct(f) {
      StructElemsHaveNoIndex(f, bytes, addr + 4, 0, stored, map[]);
      BorderIs(x.fields, 0);
    } else {
      LeafElemsAreSequence(f, bytes, addr + 4, 0, stored, map[]);
      LeafElemsByteRoundTrip(f, bytes, addr + 4, 0, stored, map[]);
      BorderIs(x.fields, if stored < 0 then 0 else stored);
    }
    var count := Count(f, x);
    assert CanonicalCount(f, stored) <==> count == stored;
    CountWord(bytes, addr, count);
    MatchesConcat(bytes, addr, Puts(LittleEndian(count, 4)), EncodeElems(f, x, 0, count));
  }

  lemma {:induction false} StructElemsHaveNoIndex(f: TypeNode, bytes: seq<byte>, addr: nat, i: nat, count: int,
      acc: Fields)
    requires IsStruct(f) && DecodeElems(f, bytes, addr, i, count, acc).Got?
    requires forall k :: Index(k) !in acc
    ensures forall k :: Index(k) !in DecodeElems(f, bytes, addr, i, count, acc).value
    decreases count - i
  {
    if i < count {
      var r := DecodeElem(f, bytes, addr);
      StructElemsHaveNoIndex(f, bytes, r.next, i + 1, count, acc[ElementKey(f, i) := r.value]);
    }
  }

  // A decoded leaf array is a Lua sequence with one element per index.
  lemma {:induction false} LeafElemsAreSequence(f: TypeNode, bytes: seq<byte>, addr: nat, i: nat, count: int,
      acc: Fields)
    requires WellFormedField(f) && !IsStruct(f)
    requires DecodeElems(f, bytes, addr, i, count, acc).Got?
    requires forall k :: k in acc <==> k.Index? && 1 <= k.i <= i
    ensures var t := DecodeElems(f, bytes, addr, i, count, acc).value;
            && (forall k :: k in t <==> k.Index? && 1 <= k.i <= if i < count then count else i)
            && (forall k :: 1 <= k <= i ==> t[Index(k)] == acc[Index(k)])
            && (forall k :: i < k <= count ==> OnElem(ShapeRule, f, t[Index(k)]))
    decreases count - i
  {
    hide LeafDomain, DecodeLeaf;
    if i < count {
      var r := DecodeElem(f, bytes, addr);
      var acc' := acc[Index(i + 1) := r.value];
      LeafElemsAreSequence(f, bytes, r.next, i + 1, count, acc');
      LeafDomainOfValue(f.item, f.item.kind.leaf, bytes, addr);
    }
  }

  lemma {:induction false} LeafElemsByteRoundTrip(f: TypeNode, bytes: seq<byte>, addr: nat, i: nat, count: int,
      acc: Fields)
    requires WellFormedField(f) && !IsStruct(f)
    requires addr <= |bytes| && DecodeElems(f, bytes, addr, i, count, acc).Got?
    requires forall k :: k in acc <==> k.Index? && 1 <= k.i <= i
    ensures var r := DecodeElems(f, bytes, addr, i, count, acc); var x := Table(r.value);
            && (CanonicalElems(f, bytes, addr, i, count) <==> Matches(bytes, addr, EncodeElems(f, x, i, count)))
            && (CanonicalElems(f, bytes, addr, i, count) ==> addr + |EncodeElems(f, x, i, count)| == r.next)
    decreases f, 2, count - i
  {
    hide EncodeElem, DecodeElem, CanonicalElem;
    if i < count {
      var r := DecodeElem(f, bytes, addr);
      var acc' := acc[Index(i + 1) := r.value];
      var x := Table(DecodeElems(f, bytes, addr, i, count, acc).value);
      LeafElemsAreSequence(f, bytes, r.next, i + 1, count, acc');
      assert ElementOf(x, i + 1) == r.value;
      LeafElemsByteRoundTrip(f, bytes, r.next, i + 1, count, acc');
      ElemByteRoundTrip(f, bytes, addr);
      MatchesConcat(bytes, addr, EncodeElem(f, r.value), EncodeElems(f, x, i + 1, count));
    }
  }

  lemma {:induction false} ElemByteRoundTrip(f: TypeNode, bytes: seq<byte>, addr: nat)
    requires WellFormedField(f)
    requires addr <= |bytes| && DecodeElem(f, bytes, addr).Got?
    ensures var r := DecodeElem(f, bytes, addr);
            && OnElem(ShapeRule, f, r.value)
            && (CanonicalElem(f, bytes, addr) <==> Matches(bytes, addr, EncodeElem(f, r.value)))
            && (CanonicalElem(f, bytes, addr) ==> addr + |EncodeElem(f, r.value)| == r.next)
    decreases f, 1
  {
    match f.item.kind
    case Leaf(t) =>
      LeafByteRoundTrip(f.item, t, bytes, addr);
      LeafDomainOfValue(f.item, t, bytes, addr);
    case _ =>
      StructByteRoundTrip(f, bytes, addr);
  }
}
