// What serialize writes for a Lua table, what deserialize reads from a buffer,
// and what a value looks like after a trip through both. Each walks the type
// tree like the C++ code; the imperative walkers are in Serializer.dfy.
module Codec {
  import opened Bytes
  import opened Leaves
  import opened LuaValues
  import opened Symbols
  import opened Wrappers

  function Pow2(n: nat): (r: nat)
    ensures r > 0
  {
    if n == 0 then 1 else 2 * Pow2(n - 1)
  }

  // The optional-field mask for a structure with count fields.
  function GetBits(count: nat): nat
  {
    if count >= 31 then 0xFFFF_FFFF else Pow2(count) - 1
  }

  predicate HasMask(node: TypeNode)
  {
    node.item.offset != 0 && node.item.kind == StructOptFld
  }

  // The bytes in front of the first field: the mask of a structure with
  // optional fields, then whatever else Offset skips.
  function Header(node: TypeNode): (c: seq<Cell>)
  {
    if HasMask(node) && node.item.offset >= 4
    then Puts(LittleEndian(GetBits(|node.children|), 4)) + Keeps(node.item.offset - 4)
    else Keeps(node.item.offset)
  }

  // ArrayDimensions[0], the most elements serialize writes.
  function Capacity(f: TypeNode): int
  {
    if f.item.arrayDimensions == [] then 0 else f.item.arrayDimensions[0]
  }

  function Cut(capacity: int, length: nat): int
  {
    if length < capacity then length else capacity
  }

  // Elements written for the field value x; a negative capacity is written as is.
  function Count(f: TypeNode, x: Value): int
  {
    Cut(Capacity(f), Length(x))
  }

  // ---------------------------------------------------------------- encoding

  function EncodeStruct(node: TypeNode, x: Value): seq<Cell>
    decreases node, 0
  {
    Header(node) + EncodeFields(node.children, x)
  }

  function EncodeFields(fs: seq<TypeNode>, x: Value): seq<Cell>
    decreases fs
  {
    if fs == [] then []
    else EncodeField(fs[0], FieldOf(x, fs[0].item.itemName)) + EncodeFields(fs[1..], x)
  }

  function EncodeField(f: TypeNode, x: Value): seq<Cell>
    decreases f, 3
  {
    if f.item.isArray
    then Puts(LittleEndian(Count(f, x), 4)) + EncodeElems(f, x, 0, Count(f, x))
    else EncodeElem(f, x)
  }

  function EncodeElems(f: TypeNode, x: Value, i: nat, count: int): seq<Cell>
    decreases f, 2, count - i
  {
    if i >= count then []
    else EncodeElem(f, ElementOf(x, i + 1)) + EncodeElems(f, x, i + 1, count)
  }

  function EncodeElem(f: TypeNode, x: Value): seq<Cell>
    decreases f, 1
  {
    match f.item.kind
    case Leaf(t) => LeafCells(f.item, t, x)
    case _ => EncodeStruct(f, x)
  }

  // ---------------------------------------------------------------- decoding

  function DecodeStruct(node: TypeNode, bytes: seq<byte>, addr: nat): (r: Read<Fields>)
    ensures r.Got? ==> r.next >= addr && (addr <= |bytes| ==> r.next <= |bytes|)
    decreases node, 0
  {
    if addr + node.item.offset > |bytes| || (HasMask(node) && addr + 4 > |bytes|) then Fault
    else DecodeFields(node.children, bytes, addr + node.item.offset, map[])
  }

  function DecodeFields(fs: seq<TypeNode>, bytes: seq<byte>, addr: nat, acc: Fields): (r: Read<Fields>)
    ensures r.Got? ==> r.next >= addr && (addr <= |bytes| ==> r.next <= |bytes|)
    decreases fs
  {
    if fs == [] then Got(acc, addr)
    else match DecodeField(fs[0], bytes, addr)
      case Fault => Fault
      case Got(v, next) => DecodeFields(fs[1..], bytes, next, acc[Name(fs[0].item.itemName) := v])
  }

  function DecodeField(f: TypeNode, bytes: seq<byte>, addr: nat): (r: Read<Value>)
    ensures r.Got? ==> r.next >= addr && (addr <= |bytes| ==> r.next <= |bytes|)
    decreases f, 3
  {
    if !f.item.isArray then DecodeElem(f, bytes, addr)
    else if addr + 4 > |bytes| then Fault
    else match DecodeElems(f, bytes, addr + 4, 0, IntWord(bytes, addr), map[])
      case Fault => Fault
      case Got(t, next) => Got(Table(t), next)
  }

  // The key under which element i of an array is stored: the array's own name
  // for structures, so that each one replaces the one before.
  function ElementKey(f: TypeNode, i: nat): Key
  {
    if IsStruct(f) then Name(f.item.itemName) else Index(i + 1)
  }

  function DecodeElems(f: TypeNode, bytes: seq<byte>, addr: nat, i: nat, count: int, acc: Fields): (r: Read<Fields>)
    ensures r.Got? ==> r.next >= addr && (addr <= |bytes| ==> r.next <= |bytes|)
    decreases f, 2, count - i
  {
    if i >= count then Got(acc, addr)
    else match DecodeElem(f, bytes, addr)
      case Fault => Fault
      case Got(v, next) => DecodeElems(f, bytes, next, i + 1, count, acc[ElementKey(f, i) := v])
  }

  function DecodeElem(f: TypeNode, bytes: seq<byte>, addr: nat): (r: Read<Value>)
    ensures r.Got? ==> r.next >= addr && (addr <= |bytes| ==> r.next <= |bytes|)
    decreases f, 1
  {
    match f.item.kind
    case Leaf(t) => DecodeLeaf(f.item, t, bytes, addr)
    case _ =>
      match DecodeStruct(f, bytes, addr)
      case Fault => Fault
      case Got(m, next) => Got(Table(m), next)
  }

  // ---------------------------------------------------------------- reading back

  function ReadbackStruct(node: TypeNode, x: Value): Fields
    decreases node, 0
  {
    ReadbackFields(node.children, x, map[])
  }

  function ReadbackFields(fs: seq<TypeNode>, x: Value, acc: Fields): Fields
    decreases fs
  {
    if fs == [] then acc
    else
      var name := fs[0].item.itemName;
      ReadbackFields(fs[1..], x, acc[Name(name) := ReadbackField(fs[0], FieldOf(x, name))])
  }

  function ReadbackField(f: TypeNode, x: Value): Value
    decreases f, 3
  {
    if f.item.isArray then Table(ReadbackElems(f, x, 0, Count(f, x), map[])) else ReadbackElem(f, x)
  }

  function ReadbackElems(f: TypeNode, x: Value, i: nat, count: int, acc: Fields): Fields
    decreases f, 2, count - i
  {
    if i >= count then acc
    else ReadbackElems(f, x, i + 1, count, acc[ElementKey(f, i) := ReadbackElem(f, ElementOf(x, i + 1))])
  }

  function ReadbackElem(f: TypeNode, x: Value): Value
    decreases f, 1
  {
    match f.item.kind
    case Leaf(t) => LeafReadback(t, x)
    case _ => Table(ReadbackStruct(f, x))
  }

  // ---------------------------------------------------------------- rules

  // A walk reaches structures, arrays and leaves, each with a value; a rule
  // says which of these are acceptable.
  datatype Site = AtStruct | AtArray | AtLeaf

  type Rule = (Site, TypeNode, Value) -> bool

  predicate OnStruct(p: Rule, node: TypeNode, x: Value)
    decreases node, 0
  {
    && p(AtStruct, node, x)
    && forall f :: f in node.children ==> OnField(p, f, FieldOf(x, f.item.itemName))
  }

  predicate OnField(p: Rule, f: TypeNode, x: Value)
    decreases f, 2
  {
    if f.item.isArray
    then p(AtArray, f, x) && forall i :: 1 <= i <= Count(f, x) ==> OnElem(p, f, ElementOf(x, i))
    else OnElem(p, f, x)
  }

  predicate OnElem(p: Rule, f: TypeNode, x: Value)
    decreases f, 1
  {
    if IsStruct(f) then OnStruct(p, f, x) else p(AtLeaf, f, x)
  }

  // Values of the right shape: nothing here makes serialize raise a Lua error
  // or overlap two writes, provided that it finds a writer for every leaf.
  predicate ShapeRule(s: Site, f: TypeNode, x: Value)
  {
    match s
    case AtStruct => (HasMask(f) ==> f.item.offset >= 4) && (f.children == [] || x.Table?)
    case AtArray =>
      && ArrayShape(f)
      && HasLength(x) && Length(x) < 0x8000_0000
      && (Count(f, x) > 0 ==> x.Table? && IsSequence(x.fields))
    case AtLeaf => f.item.kind.Leaf? ==> LeafDomain(f.item, f.item.kind.leaf, x)
  }

  predicate ArrayShape(f: TypeNode)
  {
    f.item.arrayDimensions != [] && -0x8000_0000 <= Capacity(f) < 0x8000_0000
  }

  predicate SupportedRule(s: Site, f: TypeNode, x: Value)
  {
    s == AtLeaf && f.item.kind.Leaf? ==> Supported(f.item.kind.leaf)
  }

  // Without a writer for a leaf, serialize goes on with the wrong stack; what
  // it writes then is not the encoding of the table.
  predicate DomainRule(s: Site, f: TypeNode, x: Value)
  {
    ShapeRule(s, f, x) && SupportedRule(s, f, x)
  }

  ghost predicate InDomain(node: TypeNode, x: Value)
  {
    OnStruct(DomainRule, node, x)
  }

  lemma {:induction false} DomainSplits(node: TypeNode, x: Value)
    ensures InDomain(node, x) <==> OnStruct(ShapeRule, node, x) && OnStruct(SupportedRule, node, x)
    decreases node, 0
  {
    forall f | f in node.children
      ensures var v := FieldOf(x, f.item.itemName);
              OnField(DomainRule, f, v) <==> OnField(ShapeRule, f, v) && OnField(SupportedRule, f, v)
    {
      FieldDomainSplits(f, FieldOf(x, f.item.itemName));
    }
  }

  lemma {:induction false} FieldDomainSplits(f: TypeNode, x: Value)
    ensures OnField(DomainRule, f, x) <==> OnField(ShapeRule, f, x) && OnField(SupportedRule, f, x)
    decreases f, 2
  {
    if f.item.isArray {
      forall i | 1 <= i <= Count(f, x)
        ensures var v := ElementOf(x, i);
                OnElem(DomainRule, f, v) <==> OnElem(ShapeRule, f, v) && OnElem(SupportedRule, f, v)
      {
        ElemDomainSplits(f, ElementOf(x, i));
      }
    } else {
      ElemDomainSplits(f, x);
    }
  }

  lemma {:induction false} ElemDomainSplits(f: TypeNode, x: Value)
    ensures OnElem(DomainRule, f, x) <==> OnElem(ShapeRule, f, x) && OnElem(SupportedRule, f, x)
    decreases f, 1
  {
    if IsStruct(f) {
      DomainSplits(f, x);
    }
  }

  // Offset and DataSize are those that leave no byte out.
  predicate TightRule(s: Site, f: TypeNode, x: Value)
  {
    match s
    case AtStruct => f.item.offset == 0 || (HasMask(f) && f.item.offset == 4)
    case AtArray => true
    case AtLeaf => f.item.kind.Leaf? && Supported(f.item.kind.leaf) && !IsText(f.item.kind.leaf) ==>
                     f.item.dataSize <= Width(f.item.kind.leaf)
  }

  // No structure is written as an element of an array.
  predicate LosslessRule(s: Site, f: TypeNode, x: Value)
  {
    s == AtArray && f.item.isArray && IsStruct(f) ==> Count(f, x) <= 0
  }

  ghost predicate Lossless(node: TypeNode, x: Value)
  {
    OnStruct(LosslessRule, node, x)
  }
}
