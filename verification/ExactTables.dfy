// Which tables come back from an encoding exactly as they were: those with the
// fields of the type and no others, each with a value of the field's type.
module ExactTables {
  import opened ByteRoundTrip
  import opened Codec
  import opened Leaves
  import opened LuaValues
  import opened NormalForm
  import opened Symbols

  predicate ExactLeaf(t: LeafType, x: Value)
  {
    match t
    case Bool8 => x.Boolean?
    case SInt8 => x.Integer? && -0x80 <= x.n <= 0x7F
    case UInt8 => x.Integer? && 0 <= x.n <= 0xFF
    case SInt16 => x.Integer? && -0x8000 <= x.n <= 0x7FFF
    case UInt16 => x.Integer? && 0 <= x.n <= 0xFFFF
    case SInt32 => x.Integer? && -0x8000_0000 <= x.n <= 0x7FFF_FFFF
    case UInt32 => x.Integer? && 0 <= x.n <= 0xFFFF_FFFF
    case Float => x.Real? && |x.pattern| == 4
    case Double => x.Real? && |x.pattern| == 8
    case StringL4 => x.Str? && |x.s| < 0x7FFF_FFFC
    case ByteString => x.Str? && |x.s| < 0x7FFF_FFFC
    case _ => false
  }

  predicate ExactStruct(node: TypeNode, x: Value)
    decreases node, 0
  {
    && x.Table?
    && (forall k :: k in x.fields ==> exists f :: f in node.children && k == Name(f.item.itemName))
    && forall f :: f in node.children ==>
         Name(f.item.itemName) in x.fields && ExactField(f, x.fields[Name(f.item.itemName)])
  }

  // An array is a sequence of at most ArrayDimensions[0] values; of structures
  // only the empty one comes back.
  predicate ExactField(f: TypeNode, x: Value)
    decreases f, 2
  {
    if !f.item.isArray then ExactElem(f, x)
    else
      && x.Table? && IsSequence(x.fields) && f.item.arrayDimensions != []
      && (Border(x.fields) == 0 || (!IsStruct(f) && Border(x.fields) <= f.item.arrayDimensions[0]))
      && forall i :: 1 <= i <= Border(x.fields) ==> ExactElem(f, x.fields[Index(i)])
  }

  predicate ExactElem(f: TypeNode, x: Value)
    decreases f, 1
  {
    match f.item.kind
    case Leaf(t) => ExactLeaf(t, x)
    case _ => ExactStruct(f, x)
  }

  lemma SequenceKeys(t: Fields)
    requires IsSequence(t)
    ensures forall k :: k in t <==> k.Index? && 1 <= k.i <= Border(t)
  {}

  // ------------------------------------------------------ they are in the domain

  lemma {:induction false} ExactInDomain(node: TypeNode, x: Value)
    requires WellFormed(node) && ExactStruct(node, x)
    ensures InDomain(node, x)
    decreases node, 0
  {
    forall f | f in node.children
      ensures OnField(DomainRule, f, FieldOf(x, f.item.itemName))
    {
      ExactFieldInDomain(f, FieldOf(x, f.item.itemName));
    }
  }

  lemma {:induction false} ExactFieldInDomain(f: TypeNode, x: Value)
    requires WellFormedField(f) && ExactField(f, x) && (f.item.isArray ==> Length(x) < 0x8000_0000)
    ensures OnField(DomainRule, f, x)
    decreases f, 2
  {
    if f.item.isArray {
      forall i | 1 <= i <= Count(f, x)
        ensures OnElem(DomainRule, f, ElementOf(x, i))
      {
        SequenceKeys(x.fields);
        ExactElemInDomain(f, ElementOf(x, i));
      }
    } else {
      ExactElemInDomain(f, x);
    }
  }

  lemma {:induction false} ExactElemInDomain(f: TypeNode, x: Value)
    requires WellFormedField(f) && ExactElem(f, x)
    ensures OnElem(DomainRule, f, x)
    decreases f, 1
  {
    if IsStruct(f) {
      ExactInDomain(f, x);
    }
  }

  // ------------------------------------------------------ they are the fixed points

  lemma LeafComesBackIff(item: TypeInfo, t: LeafType, x: Value)
    requires LeafDomain(item, t, x) && Supported(t)
    ensures LeafReadback(t, x) == x <==> ExactLeaf(t, x)
  {
    hide LeafReadback;
    if IsNumber(t) {
      NumberComesBack(t, IntegerOr0(x));
    } else {
      OthersComeBack(x);
    }
  }

  lemma {:induction false} ReadbackKeys(fs: seq<TypeNode>, x: Value, acc: Fields)
    ensures forall k :: k in ReadbackFields(fs, x, acc) <==>
              k in acc || exists f :: f in fs && k == Name(f.item.itemName)
    decreases fs
  {
    if fs != [] {
      var name := fs[0].item.itemName;
      ReadbackKeys(fs[1..], x, acc[Name(name) := ReadbackField(fs[0], FieldOf(x, name))]);
      assert forall f :: f in fs <==> f == fs[0] || f in fs[1..];
    }
  }

  lemma {:induction false} LeafElemsReadback(f: TypeNode, x: Value, i: nat, count: int, acc: Fields)
    requires !IsStruct(f)
    requires forall k :: k in acc <==> k.Index? && 1 <= k.i <= i
    ensures var t := ReadbackElems(f, x, i, count, acc);
            && (forall k :: k in t <==> k.Index? && 1 <= k.i <= if i < count then count else i)
            && (forall k :: 1 <= k <= i ==> t[Index(k)] == acc[Index(k)])
            && (forall k :: i < k <= count ==> t[Index(k)] == ReadbackElem(f, ElementOf(x, k)))
    decreases count - i
  {
    hide ReadbackElem;
    if i < count {
      LeafElemsReadback(f, x, i + 1, count, acc[Index(i + 1) := ReadbackElem(f, ElementOf(x, i + 1))]);
    }
  }

  // A table comes back unchanged exactly if it is exact.
  lemma {:induction false} ComesBackIffExact(node: TypeNode, x: Value)
    requires WellFormed(node) && InDomain(node, x)
    ensures Normalize(node, x) == x <==> ExactStruct(node, x)
    decreases node, 0
  {
    var m := ReadbackStruct(node, x);
    hide ReadbackFields, ReadbackField, ExactField, OnField;
    ReadbackKeys(node.children, x, map[]);
    ReadbackEntries(node.children, x, map[]);
    forall f | f in node.children
      ensures var v := FieldOf(x, f.item.itemName);
              Get(m, Name(f.item.itemName)) == ReadbackField(f, v) && (ReadbackField(f, v) == v <==> ExactField(f, v))
    {
      FieldComesBackIffExact(f, FieldOf(x, f.item.itemName));
    }
    assert m == ReadbackFields(node.children, x, map[]);
    SameEntriesIff(node.children, x, m);
  }

  // Tables are equal exactly if they have the same keys and equal entries.
  lemma SameEntriesIff(fs: seq<TypeNode>, x: Value, m: Fields)
    requires forall k :: k in m <==> exists f :: f in fs && k == Name(f.item.itemName)
    requires forall f :: f in fs ==>
               var v := FieldOf(x, f.item.itemName); (Get(m, Name(f.item.itemName)) == v <==> ExactField(f, v))
    ensures Table(m) == x <==>
            && x.Table?
            && (forall k :: k in x.fields ==> exists f :: f in fs && k == Name(f.item.itemName))
            && forall f :: f in fs ==>
                 Name(f.item.itemName) in x.fields && ExactField(f, x.fields[Name(f.item.itemName)])
  {
    hide ExactField;
    if x.Table? && (forall k :: k in x.fields <==> k in m) {
      assert (forall f :: f in fs ==> ExactField(f, x.fields[Name(f.item.itemName)])) ==>
          forall k :: k in m ==> m[k] == x.fields[k];
      assert (forall k :: k in m ==> m[k] == x.fields[k]) <==> m == x.fields;
    } else {
      assert Table(m) != x;
    }
  }

  lemma {:induction false} FieldComesBackIffExact(f: TypeNode, x: Value)
    requires WellFormedField(f) && OnField(DomainRule, f, x)
    ensures ReadbackField(f, x) == x <==> ExactField(f, x)
    decreases f, 2
  {
    if !f.item.isArray {
      ElemComesBackIffExact(f, x);
    } else if IsStruct(f) {
      StructArrayComesBackIffEmpty(f, x);
    } else {
      LeafArrayComesBackIffExact(f, x);
    }
  }

  lemma StructArrayComesBackIffEmpty(f: TypeNode, x: Value)
    requires WellFormedField(f) && f.item.isArray && IsStruct(f) && OnField(DomainRule, f, x)
    ensures ReadbackField(f, x) == x <==> ExactField(f, x)
  {
    var count := Count(f, x);
    StructElemsUnderName(f, x, 0, count, map[]);
    StructArrayCount(f, x);
    if count <= 0 {
      assert ReadbackElems(f, x, 0, count, map[]) == map[];
      BorderIs(map[], 0);
      if ExactField(f, x) {
        SequenceKeys(x.fields);
        assert x.fields == map[];
      }
    }
  }

  lemma LeafElemComesBackIffExact(f: TypeNode, x: Value)
    requires !IsStruct(f) && OnElem(DomainRule, f, x)
    ensures ReadbackElem(f, x) == x <==> ExactElem(f, x)
  {
    LeafComesBackIff(f.item, f.item.kind.leaf, x);
  }

  lemma LeafArrayComesBackIffExact(f: TypeNode, x: Value)
    requires WellFormedField(f) && f.item.isArray && !IsStruct(f) && OnField(DomainRule, f, x)
    ensures ReadbackField(f, x) == x <==> ExactField(f, x)
  {
    hide OnElem, ExactElem, ReadbackElem;
    var count := Count(f, x);
    var n := if count < 0 then 0 else count;
    var t := ReadbackElems(f, x, 0, count, map[]);
    LeafElemsReadback(f, x, 0, count, map[]);
    BorderIs(t, n);
    forall i | 1 <= i <= count
      ensures var v := ElementOf(x, i); ReadbackElem(f, v) == v <==> ExactElem(f, v)
    {
      LeafElemComesBackIffExact(f, ElementOf(x, i));
    }
    if ExactField(f, x) {
      SequenceKeys(x.fields);
      assert forall k :: k in t <==> k in x.fields;
      assert forall k :: k in t ==> t[k] == x.fields[k];
      assert t == x.fields;
    }
  }

  lemma {:induction false} ElemComesBackIffExact(f: TypeNode, x: Value)
    requires WellFormedField(f) && OnElem(DomainRule, f, x)
    ensures ReadbackElem(f, x) == x <==> ExactElem(f, x)
    decreases f, 1
  {
    match f.item.kind
    case Leaf(t) => LeafComesBackIff(f.item, t, x);
    case _ => ComesBackIffExact(f, x);
  }
}
