// For which types _dump and deserialize end at the same address on every
// buffer: exactly those without a byte string, if all leaves have readers.
module DumpAgreement {
  import opened ByteRoundTrip
  import opened Bytes
  import opened Codec
  import opened Dumper
  import opened Leaves
  import opened LuaValues
  import opened Symbols
  import opened Wrappers

  // Every leaf has a reader and, unless it is a text, the width as its size.
  predicate Readable(node: TypeNode)
    decreases node, 0
  {
    && (HasMask(node) ==> node.item.offset >= 4)
    && forall f :: f in node.children ==> ReadableField(f)
  }

  predicate ReadableField(f: TypeNode)
    decreases f, 1
  {
    match f.item.kind
    case Leaf(t) => Supported(t) && (IsText(t) || f.item.dataSize == Width(t))
    case _ => Readable(f)
  }

  predicate FreeOfByteStrings(node: TypeNode)
    decreases node, 0
  {
    forall f :: f in node.children ==> FreeField(f)
  }

  predicate FreeField(f: TypeNode)
    decreases f, 1
  {
    match f.item.kind
    case Leaf(t) => t != ByteString
    case _ => FreeOfByteStrings(f)
  }

  // Both walkers end at the same address on every buffer that decodes.
  ghost predicate Agrees(node: TypeNode)
  {
    forall bytes :: DecodeStruct(node, bytes, 0).Got? ==>
      SkipStruct(node, bytes, 0) == Some(DecodeStruct(node, bytes, 0).next)
  }

  // ------------------------------------------------------ without byte strings

  lemma {:induction false} FreeIsSameSizes(node: TypeNode)
    requires Readable(node) && FreeOfByteStrings(node)
    ensures SameSizes(node)
    decreases node
  {
    forall f | f in node.children
      ensures SameSizesField(f)
    {
      if IsStruct(f) {
        FreeIsSameSizes(f);
      }
    }
  }

  // ------------------------------------------------------ over a range of zeros

  predicate Zeros(bytes: seq<byte>, from: nat, to: nat)
  {
    from <= to <= |bytes| && forall i :: from <= i < to ==> bytes[i] == 0
  }

  // How far deserialize moves over zeros: arrays and texts are empty there.
  function ReadZeros(node: TypeNode): nat
    decreases node, 0
  {
    node.item.offset + ReadZerosFields(node.children)
  }

  function ReadZerosFields(fs: seq<TypeNode>): nat
    decreases fs
  {
    if fs == [] then 0 else ReadZerosField(fs[0]) + ReadZerosFields(fs[1..])
  }

  function ReadZerosField(f: TypeNode): nat
    decreases f, 1
  {
    if f.item.isArray then 4
    else match f.item.kind
      case Leaf(t) => if IsText(t) then 4 else Width(t)
      case _ => ReadZeros(f)
  }

  // How far _dump moves over zeros: no further, and less at byte strings.
  function SkipZeros(node: TypeNode): (n: nat)
    ensures n <= ReadZeros(node)
    ensures FreeOfByteStrings(node) ==> n == ReadZeros(node)
    decreases node, 0
  {
    node.item.offset + SkipZerosFields(node.children)
  }

  function SkipZerosFields(fs: seq<TypeNode>): (n: nat)
    ensures n <= ReadZerosFields(fs)
    ensures (forall f :: f in fs ==> FreeField(f)) ==> n == ReadZerosFields(fs)
    decreases fs
  {
    if fs == [] then 0 else SkipZerosField(fs[0]) + SkipZerosFields(fs[1..])
  }

  function SkipZerosField(f: TypeNode): (n: nat)
    ensures n <= ReadZerosField(f)
    ensures FreeField(f) ==> n == ReadZerosField(f)
    decreases f, 1
  {
    if f.item.isArray then 4
    else match f.item.kind
      case Leaf(t) => if t == ByteString then 0 else if IsText(t) then 4 else Width(t)
      case _ => SkipZeros(f)
  }

  lemma WordOfZeros(bytes: seq<byte>, addr: nat)
    requires Zeros(bytes, addr, addr + 4)
    ensures Word(bytes, addr) == 0 && IntWord(bytes, addr) == 0
  {
    var s := bytes[addr..addr + 4];
    assert s == [0, 0, 0, 0];
    assert Unsigned([0, 0, 0, 0]) == 0 by {
      assert [0, 0, 0, 0][1..] == [0, 0, 0] && [0, 0, 0][1..] == [0, 0] && [0, 0][1..] == [0] && [0][1..] == [];
      assert Unsigned([0]) == 0;
      assert Unsigned([0, 0]) == 0;
      assert Unsigned([0, 0, 0]) == 0;
    }
  }

  // The reader at addr and the dumper at d, both over zeros.
  lemma {:induction false} OverZeros(node: TypeNode, bytes: seq<byte>, addr: nat, d: nat)
    requires Readable(node)
    requires Zeros(bytes, addr, addr + ReadZeros(node)) && Zeros(bytes, d, d + SkipZeros(node))
    ensures DecodeStruct(node, bytes, addr).Got? && DecodeStruct(node, bytes, addr).next == addr + ReadZeros(node)
    ensures SkipStruct(node, bytes, d) == Some(d + SkipZeros(node))
    decreases node, 0
  {
    FieldsOverZeros(node.children, bytes, addr + node.item.offset, d + node.item.offset, map[]);
  }

  lemma {:induction false} FieldsOverZeros(fs: seq<TypeNode>, bytes: seq<byte>, addr: nat, d: nat, acc: Fields)
    requires forall f :: f in fs ==> ReadableField(f)
    requires Zeros(bytes, addr, addr + ReadZerosFields(fs)) && Zeros(bytes, d, d + SkipZerosFields(fs))
    ensures var r := DecodeFields(fs, bytes, addr, acc); r.Got? && r.next == addr + ReadZerosFields(fs)
    ensures SkipFields(fs, bytes, d) == Some(d + SkipZerosFields(fs))
    decreases fs
  {
    hide DecodeField, SkipField, ReadableField, ReadZerosField, SkipZerosField;
    if fs != [] {
      var f := fs[0];
      FieldOverZeros(f, bytes, addr, d);
      FieldsOverZeros(fs[1..], bytes, addr + ReadZerosField(f), d + SkipZerosField(f),
                      acc[Name(f.item.itemName) := DecodeField(f, bytes, addr).value]);
    }
  }

  lemma {:induction false} FieldOverZeros(f: TypeNode, bytes: seq<byte>, addr: nat, d: nat)
    requires ReadableField(f)
    requires Zeros(bytes, addr, addr + ReadZerosField(f)) && Zeros(bytes, d, d + SkipZerosField(f))
    ensures DecodeField(f, bytes, addr).Got? && DecodeField(f, bytes, addr).next == addr + ReadZerosField(f)
    ensures SkipField(f, bytes, d) == Some(d + SkipZerosField(f))
    decreases f, 1
  {
    hide Unsigned, LeafValue, WrapSigned;
    if f.item.isArray {
      WordOfZeros(bytes, addr);
      WordOfZeros(bytes, d);
    } else {
      match f.item.kind
      case Leaf(t) => LeafOverZeros(f.item, t, bytes, addr, d);
      case _ => OverZeros(f, bytes, addr, d);
    }
  }

  lemma LeafOverZeros(item: TypeInfo, t: LeafType, bytes: seq<byte>, addr: nat, d: nat)
    requires Supported(t) && (IsText(t) || item.dataSize == Width(t))
    requires Zeros(bytes, addr, addr + if IsText(t) then 4 else Width(t))
    requires Zeros(bytes, d, d + if t == ByteString then 0 else if IsText(t) then 4 else Width(t))
    ensures var r := DecodeLeaf(item, t, bytes, addr);
            r.Got? && r.next == addr + if IsText(t) then 4 else Width(t)
    ensures SkipLeaf(t, bytes, d) == Some(d + if t == ByteString then 0 else if IsText(t) then 4 else Width(t))
  {
    hide Unsigned, LeafValue, WrapSigned;
    if IsText(t) {
      WordOfZeros(bytes, addr);
      if t == StringL4 {
        WordOfZeros(bytes, d);
        SizeOfText(bytes, d);
      }
    }
  }

  // ------------------------------------------------------ with a byte string

  function ZeroBytes(n: nat): (s: seq<byte>)
    ensures |s| == n
  {
    seq(n, i => 0)
  }

  // Zeros, but for a count of 1 in each array around the first byte string.
  function Witness(node: TypeNode): seq<byte>
    requires !FreeOfByteStrings(node)
    decreases node, 0
  {
    ZeroBytes(node.item.offset) + WitnessFields(node.children)
  }

  function WitnessFields(fs: seq<TypeNode>): seq<byte>
    requires exists f :: f in fs && !FreeField(f)
    decreases fs
  {
    if !FreeField(fs[0]) then WitnessField(fs[0]) + ZeroBytes(ReadZerosFields(fs[1..]))
    else ZeroBytes(ReadZerosField(fs[0])) + WitnessFields(fs[1..])
  }

  function WitnessField(f: TypeNode): seq<byte>
    requires !FreeField(f)
    decreases f, 2
  {
    if f.item.isArray then LittleEndian(1, 4) + WitnessElem(f) else WitnessElem(f)
  }

  function WitnessElem(f: TypeNode): seq<byte>
    requires !FreeField(f)
    decreases f, 1
  {
    match f.item.kind
    case Leaf(_) => ZeroBytes(4)
    case _ => Witness(f)
  }

  // The bytes at addr are w, and only zeros follow.
  predicate Leads(bytes: seq<byte>, addr: nat, w: seq<byte>)
  {
    && addr + |w| <= |bytes| && bytes[addr..addr + |w|] == w
    && Zeros(bytes, addr + |w|, |bytes|)
  }

  // The reader arrived at next, the dumper before it, with only zeros ahead.
  predicate Apart(bytes: seq<byte>, d: Option<nat>, next: nat)
  {
    d.Some? && d.value < next <= |bytes| && Zeros(bytes, d.value, |bytes|)
  }

  lemma LeadsTail(bytes: seq<byte>, addr: nat, u: seq<byte>, v: seq<byte>)
    requires Leads(bytes, addr, u + v)
    ensures bytes[addr..addr + |u|] == u && Leads(bytes, addr + |u|, v)
  {
    assert (u + v)[..|u|] == u && (u + v)[|u|..] == v;
    assert bytes[addr..addr + |u + v|][..|u|] == bytes[addr..addr + |u|];
    assert bytes[addr..addr + |u + v|][|u|..] == bytes[addr + |u|..addr + |u| + |v|];
  }

  lemma ZerosAt(bytes: seq<byte>, addr: nat, n: nat)
    requires addr + n <= |bytes| && bytes[addr..addr + n] == ZeroBytes(n)
    ensures Zeros(bytes, addr, addr + n)
  {
    forall i | addr <= i < addr + n
      ensures bytes[i] == 0
    {
      assert bytes[addr..addr + n][i - addr] == 0;
    }
  }

  lemma {:induction false} StructDiverges(node: TypeNode, bytes: seq<byte>, addr: nat)
    requires Readable(node) && !FreeOfByteStrings(node) && Leads(bytes, addr, Witness(node))
    ensures var r := DecodeStruct(node, bytes, addr);
            r.Got? && r.next == addr + |Witness(node)| && Apart(bytes, SkipStruct(node, bytes, addr), r.next)
    decreases node, 0
  {
    LeadsTail(bytes, addr, ZeroBytes(node.item.offset), WitnessFields(node.children));
    FieldsDiverge(node.children, bytes, addr + node.item.offset, map[]);
  }

  lemma {:induction false} FieldsDiverge(fs: seq<TypeNode>, bytes: seq<byte>, addr: nat, acc: Fields)
    requires forall f :: f in fs ==> ReadableField(f)
    requires exists f :: f in fs && !FreeField(f)
    requires Leads(bytes, addr, WitnessFields(fs))
    ensures var r := DecodeFields(fs, bytes, addr, acc);
            r.Got? && r.next == addr + |WitnessFields(fs)| && Apart(bytes, SkipFields(fs, bytes, addr), r.next)
    decreases fs
  {
    hide DecodeField, SkipField, ReadableField, FreeField, ReadZerosField, SkipZerosField, WitnessField;
    var f, rest := fs[0], fs[1..];
    if !FreeField(f) {
      var next := addr + |WitnessField(f)|;
      LeadsTail(bytes, addr, WitnessField(f), ZeroBytes(ReadZerosFields(rest)));
      FirstDiverges(f, rest, bytes, addr);
      var acc' := acc[Name(f.item.itemName) := DecodeField(f, bytes, addr).value];
      FieldsOverZeros(rest, bytes, next, SkipField(f, bytes, addr).value, acc');
    } else {
      var n := ReadZerosField(f);
      LeadsTail(bytes, addr, ZeroBytes(n), WitnessFields(rest));
      ZerosAt(bytes, addr, n);
      FieldOverZeros(f, bytes, addr, addr);
      FieldsDiverge(rest, bytes, addr + n, acc[Name(f.item.itemName) := DecodeField(f, bytes, addr).value]);
    }
  }

  // The field with the byte string, and what the others need after it.
  lemma {:induction false} FirstDiverges(f: TypeNode, rest: seq<TypeNode>, bytes: seq<byte>, addr: nat)
    requires ReadableField(f) && !FreeField(f)
    requires Leads(bytes, addr, WitnessField(f) + ZeroBytes(ReadZerosFields(rest)))
    ensures var r := DecodeField(f, bytes, addr); var d := SkipField(f, bytes, addr);
            && r.Got? && r.next == addr + |WitnessField(f)| && Apart(bytes, d, r.next)
            && Zeros(bytes, r.next, r.next + ReadZerosFields(rest))
            && Zeros(bytes, d.value, d.value + SkipZerosFields(rest))
    decreases f, 3
  {
    hide DecodeField, SkipField, ReadableField, FreeField, WitnessField, ReadZerosFields, SkipZerosFields;
    var w, n := WitnessField(f), ReadZerosFields(rest);
    LeadsTail(bytes, addr, w, ZeroBytes(n));
    ZerosAt(bytes, addr + |w|, n);
    assert Leads(bytes, addr, w);
    FieldDiverges(f, bytes, addr);
  }

  lemma {:induction false} FieldDiverges(f: TypeNode, bytes: seq<byte>, addr: nat)
    requires ReadableField(f) && !FreeField(f) && Leads(bytes, addr, WitnessField(f))
    ensures var r := DecodeField(f, bytes, addr);
            r.Got? && r.next == addr + |WitnessField(f)| && Apart(bytes, SkipField(f, bytes, addr), r.next)
    decreases f, 2
  {
    hide LittleEndian, DecodeElem, SkipElem, WitnessElem, ReadableField, FreeField;
    if f.item.isArray {
      var w := LittleEndian(1, 4);
      LeadsTail(bytes, addr, w, WitnessElem(f));
      MatchesPuts(bytes, addr, w);
      CountWord(bytes, addr, 1);
      ElemDiverges(f, bytes, addr + 4);
      var r := DecodeElem(f, bytes, addr + 4);
      assert DecodeElems(f, bytes, r.next, 1, 1, map[ElementKey(f, 0) := r.value]).next == r.next;
      assert SkipElems(f, bytes, SkipElem(f, bytes, addr + 4).value, 1, 1) == SkipElem(f, bytes, addr + 4);
    } else {
      ElemDiverges(f, bytes, addr);
    }
  }

  lemma {:induction false} ElemDiverges(f: TypeNode, bytes: seq<byte>, addr: nat)
    requires ReadableField(f) && !FreeField(f) && Leads(bytes, addr, WitnessElem(f))
    ensures var r := DecodeElem(f, bytes, addr);
            r.Got? && r.next == addr + |WitnessElem(f)| && Apart(bytes, SkipElem(f, bytes, addr), r.next)
    decreases f, 1
  {
    hide Unsigned;
    match f.item.kind
    case Leaf(t) =>
      ZerosAt(bytes, addr, 4);
      WordOfZeros(bytes, addr);
    case _ => StructDiverges(f, bytes, addr);
  }

  // ------------------------------------------------------ the exact condition

  lemma AgreesIffFree(node: TypeNode)
    requires Readable(node)
    ensures Agrees(node) <==> FreeOfByteStrings(node)
  {
    if FreeOfByteStrings(node) {
      FreeIsSameSizes(node);
      forall bytes | DecodeStruct(node, bytes, 0).Got?
        ensures SkipStruct(node, bytes, 0) == Some(DecodeStruct(node, bytes, 0).next)
      {
        DumpFollowsDeserialize(node, bytes, 0);
      }
    } else {
      StructDiverges(node, Witness(node), 0);
    }
  }
}
