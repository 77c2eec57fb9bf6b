// Reading what was written: for every type tree and every table in the domain.
module RoundTrip {
  import opened Bytes
  import opened Codec
  import opened Leaves
  import opened LuaValues
  import opened Symbols
  import opened Wrappers

  lemma {:induction false} ValueRoundTrip(node: TypeNode, x: Value, bytes: seq<byte>, addr: nat)
    requires InDomain(node, x)
    requires Matches(bytes, addr, EncodeStruct(node, x))
    ensures DecodeStruct(node, bytes, addr) == Got(ReadbackStruct(node, x), addr + |EncodeStruct(node, x)|)
    decreases node, 0
  {
    hide LittleEndian, Unsigned, EncodeFields, DecodeFields, ReadbackFields;
    MatchesConcat(bytes, addr, Header(node), EncodeFields(node.children, x));
    FieldsRoundTrip(node.children, x, bytes, addr + node.item.offset, map[]);
  }

  lemma {:induction false} FieldsRoundTrip(fs: seq<TypeNode>, x: Value, bytes: seq<byte>, addr: nat, acc: Fields)
    requires forall f :: f in fs ==> OnField(DomainRule, f, FieldOf(x, f.item.itemName))
    requires Matches(bytes, addr, EncodeFields(fs, x))
    ensures DecodeFields(fs, bytes, addr, acc) == Got(ReadbackFields(fs, x, acc), addr + |EncodeFields(fs, x)|)
    decreases fs
  {
    if fs != [] {
      var name := fs[0].item.itemName;
      var v := FieldOf(x, name);
      var c := EncodeField(fs[0], v);
      MatchesConcat(bytes, addr, c, EncodeFields(fs[1..], x));
      FieldRoundTrip(fs[0], v, bytes, addr);
      FieldsRoundTrip(fs[1..], x, bytes, addr + |c|, acc[Name(name) := ReadbackField(fs[0], v)]);
    }
  }

  lemma {:induction false} FieldRoundTrip(f: TypeNode, x: Value, bytes: seq<byte>, addr: nat)
    requires OnField(DomainRule, f, x)
    requires Matches(bytes, addr, EncodeField(f, x))
    ensures DecodeField(f, bytes, addr) == Got(ReadbackField(f, x), addr + |EncodeField(f, x)|)
    decreases f, 3
  {
    hide LittleEndian, Unsigned;
    if f.item.isArray {
      var count := Count(f, x);
      var w := LittleEndian(count, 4);
      MatchesConcat(bytes, addr, Puts(w), EncodeElems(f, x, 0, count));
      MatchesPuts(bytes, addr, w);
      LengthWord(count, w);
      ElemsRoundTrip(f, x, bytes, addr + 4, 0, count, map[]);
    } else {
      ElemRoundTrip(f, x, bytes, addr);
    }
  }

  lemma {:induction false} ElemsRoundTrip(f: TypeNode, x: Value, bytes: seq<byte>, addr: nat, i: nat, count: int,
      acc: Fields)
    requires forall k :: 1 <= k <= count ==> OnElem(DomainRule, f, ElementOf(x, k))
    requires Matches(bytes, addr, EncodeElems(f, x, i, count))
    ensures DecodeElems(f, bytes, addr, i, count, acc) == Got(ReadbackElems(f, x, i, count, acc), addr
        + |EncodeElems(f, x, i, count)|)
    decreases f, 2, count - i
  {
    hide EncodeElem, DecodeElem, ReadbackElem, OnElem;
    if i < count {
      var v := ElementOf(x, i + 1);
      var c := EncodeElem(f, v);
      MatchesConcat(bytes, addr, c, EncodeElems(f, x, i + 1, count));
      ElemRoundTrip(f, v, bytes, addr);
      ElemsRoundTrip(f, x, bytes, addr + |c|, i + 1, count, acc[ElementKey(f, i) := ReadbackElem(f, v)]);
    }
  }

  lemma {:induction false} ElemRoundTrip(f: TypeNode, x: Value, bytes: seq<byte>, addr: nat)
    requires OnElem(DomainRule, f, x)
    requires Matches(bytes, addr, EncodeElem(f, x))
    ensures DecodeElem(f, bytes, addr) == Got(ReadbackElem(f, x), addr + |EncodeElem(f, x)|)
    decreases f, 1
  {
    match f.item.kind
    case Leaf(t) => LeafRoundTrip(f.item, t, x, bytes, addr);
    case _ => ValueRoundTrip(f, x, bytes, addr);
  }
}
