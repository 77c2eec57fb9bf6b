// The table read back is a normal form of the table written, and the bytes
// identify it.
module NormalForm {
  import opened Bounds
  import opened Bytes
  import opened ByteRoundTrip
  import opened Codec
  import opened Leaves
  import opened LuaValues
  import opened RoundTrip
  import opened Symbols

  // The table decoded from the encoding of x.
  function Normalize(node: TypeNode, x: Value): Value
  {
    Table(ReadbackStruct(node, x))
  }

  // ------------------------------------------------------ what gets lost

  // Of the buffers serialize writes, those without structures as array
  // elements are canonical, and only those.
  lemma {:induction false} CanonicalIffLossless(node: TypeNode, x: Value, bytes: seq<byte>, addr: nat)
    requires InDomain(node, x)
    requires Matches(bytes, addr, EncodeStruct(node, x))
    ensures CanonicalStruct(node, bytes, addr) <==> Lossless(node, x)
    decreases node, 0
  {
    hide LittleEndian, Unsigned;
    MatchesConcat(bytes, addr, Header(node), EncodeFields(node.children, x));
    HeaderByteRoundTrip(node, bytes, addr);
    FieldsCanonicalIffLossless(node.children, x, bytes, addr + node.item.offset);
  }

  lemma {:induction false} FieldsCanonicalIffLossless(fs: seq<TypeNode>, x: Value, bytes: seq<byte>, addr: nat)
    requires forall f :: f in fs ==> OnField(DomainRule, f, FieldOf(x, f.item.itemName))
    requires Matches(bytes, addr, EncodeFields(fs, x))
    ensures CanonicalFields(fs, bytes, addr) <==> forall f :: f in fs ==>
        OnField(LosslessRule, f, FieldOf(x, f.item.itemName))
    decreases fs
  {
    if fs != [] {
      var f, rest := fs[0], fs[1..];
      assert forall g :: g in fs <==> g == f || g in rest;
      var v := FieldOf(x, f.item.itemName);
      var c := EncodeField(f, v);
      MatchesConcat(bytes, addr, c, EncodeFields(rest, x));
      FieldRoundTrip(f, v, bytes, addr);
      FieldCanonicalIffLossless(f, v, bytes, addr);
      FieldsCanonicalIffLossless(rest, x, bytes, addr + |c|);
    }
  }

  lemma {:induction false} FieldCanonicalIffLossless(f: TypeNode, x: Value, bytes: seq<byte>, addr: nat)
    requires OnField(DomainRule, f, x)
    requires Matches(bytes, addr, EncodeField(f, x))
    ensures CanonicalField(f, bytes, addr) <==> OnField(LosslessRule, f, x)
    decreases f, 3
  {
    hide LittleEndian, Unsigned;
    if f.item.isArray {
      var count := Count(f, x);
      MatchesConcat(bytes, addr, Puts(LittleEndian(count, 4)), EncodeElems(f, x, 0, count));
      CountWord(bytes, addr, count);
      ElemsCanonicalIffLossless(f, x, bytes, addr + 4, 0, count);
    } else {
      ElemCanonicalIffLossless(f, x, bytes, addr);
    }
  }

  lemma {:induction false} ElemsCanonicalIffLossless(f: TypeNode, x: Value, bytes: seq<byte>, addr: nat, i: nat,
      count: int)
    requires forall k :: 1 <= k <= count ==> OnElem(DomainRule, f, ElementOf(x, k))
    requires Matches(bytes, addr, EncodeElems(f, x, i, count))
    ensures CanonicalElems(f, bytes, addr, i, count) <==> forall k :: i < k <= count ==>
        OnElem(LosslessRule, f, ElementOf(x, k))
    decreases f, 2, count - i
  {
    hide EncodeElem, DecodeElem, CanonicalElem, OnElem;
    if i < count {
      var v := ElementOf(x, i + 1);
      var c := EncodeElem(f, v);
      MatchesConcat(bytes, addr, c, EncodeElems(f, x, i + 1, count));
      ElemRoundTrip(f, v, bytes, addr);
      ElemCanonicalIffLossless(f, v, bytes, addr);
      ElemsCanonicalIffLossless(f, x, bytes, addr + |c|, i + 1, count);
    }
  }

  lemma {:induction false} ElemCanonicalIffLossless(f: TypeNode, x: Value, bytes: seq<byte>, addr: nat)
    requires OnElem(DomainRule, f, x)
    requires Matches(bytes, addr, EncodeElem(f, x))
    ensures CanonicalElem(f, bytes, addr) <==> OnElem(LosslessRule, f, x)
    decreases f, 1
  {
    match f.item.kind
    case Leaf(t) => LeafCellsCanonical(f.item, t, x, bytes, addr);
    case _ => CanonicalIffLossless(f, x, bytes, addr);
  }

  lemma LeafCellsCanonical(item: TypeInfo, t: LeafType, x: Value, bytes: seq<byte>, addr: nat)
    requires Matches(bytes, addr, LeafCells(item, t, x))
    ensures CanonicalLeaf(t, bytes, addr)
  {
    if t == Bool8 {
      assert LeafCells(item, t, x)[0] == Put(BoolByte(x));
    }
  }

  // ------------------------------------------------------ the normal form

  lemma {:induction false} ReadbackKeepsOthers(fs: seq<TypeNode>, x: Value, acc: Fields, k: Key)
    requires forall f :: f in fs ==> k != Name(f.item.itemName)
    ensures Get(ReadbackFields(fs, x, acc), k) == Get(acc, k)
    decreases fs
  {
    if fs != [] {
      var name := fs[0].item.itemName;
      ReadbackKeepsOthers(fs[1..], x, acc[Name(name) := ReadbackField(fs[0], FieldOf(x, name))], k);
    }
  }

  lemma {:induction false} StructReencode(node: TypeNode, x: Value)
    requires WellFormed(node) && InDomain(node, x) && Lossless(node, x)
    ensures EncodeStruct(node, Normalize(node, x)) == EncodeStruct(node, x)
    decreases node, 0
  {
    FieldsReencode(node.children, x, map[]);
  }

  lemma {:induction false} FieldsReencode(fs: seq<TypeNode>, x: Value, acc: Fields)
    requires DistinctNames(fs)
    requires forall f :: f in fs ==> WellFormedField(f)
    requires forall f :: f in fs ==> OnField(DomainRule, f, FieldOf(x, f.item.itemName))
    requires forall f :: f in fs ==> OnField(LosslessRule, f, FieldOf(x, f.item.itemName))
    ensures EncodeFields(fs, Table(ReadbackFields(fs, x, acc))) == EncodeFields(fs, x)
    decreases fs
  {
    if fs != [] {
      var f, rest := fs[0], fs[1..];
      var key := Name(f.item.itemName);
      var v := FieldOf(x, f.item.itemName);
      var acc' := acc[key := ReadbackField(f, v)];
      ReadbackKeepsOthers(rest, x, acc', key);
      FieldReencode(f, v);
      FieldsReencode(rest, x, acc');
    }
  }

  lemma {:induction false} FieldReencode(f: TypeNode, x: Value)
    requires WellFormedField(f) && OnField(DomainRule, f, x) && OnField(LosslessRule, f, x)
    ensures EncodeField(f, ReadbackField(f, x)) == EncodeField(f, x)
    decreases f, 3
  {
    hide LittleEndian;
    if f.item.isArray {
      var count := Count(f, x);
      var y := ReadbackField(f, x);
      if count > 0 {
        ElemsReencode(f, x, 0, count, map[]);
        BorderIs(y.fields, count);
      } else {
        assert ReadbackElems(f, x, 0, count, map[]) == map[];
        BorderIs(y.fields, 0);
      }
      assert Count(f, y) == count;
    } else {
      ElemReencode(f, x);
    }
  }

  lemma {:induction false} ElemsReencode(f: TypeNode, x: Value, i: nat, count: int, acc: Fields)
    requires WellFormedField(f) && !IsStruct(f) && i <= count
    requires forall k :: 1 <= k <= count ==> OnElem(DomainRule, f, ElementOf(x, k))
    requires forall k :: k in acc <==> k.Index? && 1 <= k.i <= i
    ensures var t := ReadbackElems(f, x, i, count, acc);
            && (forall k :: k in t <==> k.Index? && 1 <= k.i <= count)
            && (forall k :: 1 <= k <= i ==> t[Index(k)] == acc[Index(k)])
            && EncodeElems(f, Table(t), i, count) == EncodeElems(f, x, i, count)
    decreases count - i
  {
    hide LeafCells;
    if i < count {
      var v := ElementOf(x, i + 1);
      var acc' := acc[Index(i + 1) := ReadbackElem(f, v)];
      ElemsReencode(f, x, i + 1, count, acc');
      LeafReadbackStable(f.item, f.item.kind.leaf, v);
      assert ElementOf(Table(ReadbackElems(f, x, i, count, acc)), i + 1) == ReadbackElem(f, v);
    }
  }

  lemma {:induction false} ElemReencode(f: TypeNode, x: Value)
    requires WellFormedField(f) && OnElem(DomainRule, f, x) && OnElem(LosslessRule, f, x)
    ensures EncodeElem(f, ReadbackElem(f, x)) == EncodeElem(f, x)
    decreases f, 1
  {
    match f.item.kind
    case Leaf(t) => LeafReadbackStable(f.item, t, x);
    case _ => StructReencode(f, x);
  }

  lemma {:induction false} ReadbackEntries(fs: seq<TypeNode>, x: Value, acc: Fields)
    requires DistinctNames(fs)
    ensures var y := Table(ReadbackFields(fs, x, acc));
            forall f :: f in fs ==>
              FieldOf(y, f.item.itemName) == ReadbackField(f, FieldOf(x, f.item.itemName))
    decreases fs
  {
    if fs != [] {
      var key := Name(fs[0].item.itemName);
      var acc' := acc[key := ReadbackField(fs[0], FieldOf(x, fs[0].item.itemName))];
      ReadbackEntries(fs[1..], x, acc');
      ReadbackKeepsOthers(fs[1..], x, acc', key);
    }
  }

  // Structures read back from an array leave an entry under its name, none
  // under an index.
  lemma {:induction false} StructElemsUnderName(f: TypeNode, x: Value, i: nat, count: int, acc: Fields)
    requires IsStruct(f)
    requires forall k :: Index(k) !in acc
    ensures var t := ReadbackElems(f, x, i, count, acc);
            && (forall k :: Index(k) !in t)
            && (i < count || Name(f.item.itemName) in acc ==> Name(f.item.itemName) in t)
    decreases count - i
  {
    if i < count {
      StructElemsUnderName(f, x, i + 1, count, acc[ElementKey(f, i) := ReadbackElem(f, ElementOf(x, i + 1))]);
    }
  }

  // An array of structures read back counts as empty.
  lemma StructArrayCount(f: TypeNode, x: Value)
    requires f.item.isArray && IsStruct(f)
    ensures Count(f, ReadbackField(f, x)) <= 0
  {
    StructElemsUnderName(f, x, 0, Count(f, x), map[]);
    BorderIs(ReadbackField(f, x).fields, 0);
  }

  // The table read back reaches no leaf without a writer if the table written
  // did not.
  lemma {:induction false} NormalizeSupported(node: TypeNode, x: Value)
    requires WellFormed(node) && OnStruct(SupportedRule, node, x)
    ensures OnStruct(SupportedRule, node, Normalize(node, x))
    decreases node, 0
  {
    var y := Normalize(node, x);
    ReadbackEntries(node.children, x, map[]);
    forall f | f in node.children
      ensures OnField(SupportedRule, f, FieldOf(y, f.item.itemName))
    {
      ReadbackSupported(f, FieldOf(x, f.item.itemName));
    }
  }

  lemma {:induction false} ReadbackSupported(f: TypeNode, x: Value)
    requires WellFormedField(f) && OnField(SupportedRule, f, x)
    ensures OnField(SupportedRule, f, ReadbackField(f, x))
    decreases f, 1
  {
    var y := ReadbackField(f, x);
    if f.item.isArray {
      if IsStruct(f) {
        StructArrayCount(f, x);
      } else if Count(f, x) > 0 {
        assert OnElem(SupportedRule, f, ElementOf(x, 1));
      } else {
        assert ReadbackElems(f, x, 0, Count(f, x), map[]) == map[];
        BorderIs(y.fields, 0);
      }
    } else if IsStruct(f) {
      NormalizeSupported(f, x);
    }
  }

  // Everything decoded from an encoding is in the domain again.
  lemma NormalizeInDomain(node: TypeNode, x: Value)
    requires WellFormed(node) && InDomain(node, x)
    ensures InDomain(node, Normalize(node, x))
  {
    var bytes := Fill(EncodeStruct(node, x));
    ValueRoundTrip(node, x, bytes, 0);
    DomainSplits(node, x);
    NormalizeSupported(node, x);
    ByteRoundTrip.ByteRoundTrip(node, bytes, 0);
  }

  // Encoding the table read back gives the same cells again exactly when no
  // structure was written as an array element.
  lemma ReencodeIffLossless(node: TypeNode, x: Value)
    requires WellFormed(node) && InDomain(node, x)
    ensures EncodeStruct(node, Normalize(node, x)) == EncodeStruct(node, x) <==> Lossless(node, x)
  {
    var bytes := Fill(EncodeStruct(node, x));
    ValueRoundTrip(node, x, bytes, 0);
    StructByteRoundTrip(node, bytes, 0);
    CanonicalIffLossless(node, x, bytes, 0);
    if Lossless(node, x) {
      StructReencode(node, x);
    }
  }

  // Reading back twice gives the same table as once under the same condition.
  lemma NormalizeIdempotentIff(node: TypeNode, x: Value)
    requires WellFormed(node) && InDomain(node, x)
    ensures Normalize(node, Normalize(node, x)) == Normalize(node, x) <==> Lossless(node, x)
  {
    if Lossless(node, x) {
      var bytes := Fill(EncodeStruct(node, x));
      StructReencode(node, x);
      NormalizeInDomain(node, x);
      ValueRoundTrip(node, x, bytes, 0);
      ValueRoundTrip(node, Normalize(node, x), bytes, 0);
    } else if Normalize(node, Normalize(node, x)) == Normalize(node, x) {
      StableIsLossless(node, x);
    }
  }

  lemma {:induction false} StableIsLossless(node: TypeNode, x: Value)
    requires WellFormed(node) && Normalize(node, Normalize(node, x)) == Normalize(node, x)
    ensures Lossless(node, x)
    decreases node, 0
  {
    var y := Normalize(node, x);
    ReadbackEntries(node.children, x, map[]);
    ReadbackEntries(node.children, y, map[]);
    forall f | f in node.children
      ensures OnField(LosslessRule, f, FieldOf(x, f.item.itemName))
    {
      StableFieldIsLossless(f, FieldOf(x, f.item.itemName));
    }
  }

  lemma {:induction false} StableFieldIsLossless(f: TypeNode, x: Value)
    requires WellFormedField(f) && ReadbackField(f, ReadbackField(f, x)) == ReadbackField(f, x)
    ensures OnField(LosslessRule, f, x)
    decreases f, 1
  {
    if f.item.isArray {
      if IsStruct(f) && Count(f, x) > 0 {
        StructElemsUnderName(f, x, 0, Count(f, x), map[]);
        StructArrayCount(f, x);
      }
    } else if IsStruct(f) {
      StableIsLossless(f, x);
    }
  }

  // ------------------------------------------------------ unique decoding

  // Two encodings found at the same place are equally long and mean the same.
  lemma SamePlaceSameValue(node: TypeNode, x: Value, y: Value, bytes: seq<byte>, addr: nat)
    requires InDomain(node, x) && InDomain(node, y)
    requires Matches(bytes, addr, EncodeStruct(node, x)) && Matches(bytes, addr, EncodeStruct(node, y))
    ensures |EncodeStruct(node, x)| == |EncodeStruct(node, y)| && Normalize(node, x) == Normalize(node, y)
  {
    ValueRoundTrip(node, x, bytes, addr);
    ValueRoundTrip(node, y, bytes, addr);
  }

  // No encoding is a proper prefix of another one.
  lemma PrefixFree(node: TypeNode, x: Value, y: Value)
    requires InDomain(node, x) && InDomain(node, y)
    requires EncodeStruct(node, x) <= EncodeStruct(node, y)
    ensures EncodeStruct(node, x) == EncodeStruct(node, y) && Normalize(node, x) == Normalize(node, y)
  {
    var bytes := Fill(EncodeStruct(node, y));
    SamePlaceSameValue(node, x, y, bytes, 0);
  }

  // Encodings agree exactly when the normal forms do.
  lemma EncodingIdentifiesNormalForm(node: TypeNode, x: Value, y: Value)
    requires WellFormed(node) && InDomain(node, x) && InDomain(node, y) && Lossless(node, x) && Lossless(node, y)
    ensures EncodeStruct(node, x) == EncodeStruct(node, y) <==> Normalize(node, x) == Normalize(node, y)
  {
    StructReencode(node, x);
    StructReencode(node, y);
    if EncodeStruct(node, x) == EncodeStruct(node, y) {
      PrefixFree(node, x, y);
    }
  }

  function EncodeAll(node: TypeNode, xs: seq<Value>): seq<Cell>
  {
    if xs == [] then [] else EncodeStruct(node, xs[0]) + EncodeAll(node, xs[1..])
  }

  // A stream of values of one type can be taken apart in only one way. Where
  // values take bytes, not even their number has to be known.
  lemma {:induction false} StreamsDecodeUniquely(node: TypeNode, xs: seq<Value>, ys: seq<Value>, bytes: seq<byte>,
                                                 addr: nat)
    requires |xs| == |ys| || (!Weightless(node) && |EncodeAll(node, xs)| == |EncodeAll(node, ys)|)
    requires forall x :: x in xs || x in ys ==> InDomain(node, x)
    requires Matches(bytes, addr, EncodeAll(node, xs)) && Matches(bytes, addr, EncodeAll(node, ys))
    ensures |xs| == |ys| && |EncodeAll(node, xs)| == |EncodeAll(node, ys)|
    ensures forall i :: 0 <= i < |xs| ==> Normalize(node, xs[i]) == Normalize(node, ys[i])
    decreases xs
  {
    if xs != [] && ys != [] {
      MatchesConcat(bytes, addr, EncodeStruct(node, xs[0]), EncodeAll(node, xs[1..]));
      MatchesConcat(bytes, addr, EncodeStruct(node, ys[0]), EncodeAll(node, ys[1..]));
      SamePlaceSameValue(node, xs[0], ys[0], bytes, addr);
      StreamsDecodeUniquely(node, xs[1..], ys[1..], bytes, addr + |EncodeStruct(node, xs[0])|);
    } else if xs != [] {
      ZeroIffWeightless(node, xs[0]);
    } else if ys != [] {
      ZeroIffWeightless(node, ys[0]);
    }
  }
}
