// Properties of a type tree alone, what they say about every walk of it, and
// the operations that build trees with these properties.
module Schemas {
  import opened ByteRoundTrip
  import opened Codec
  import opened Leaves
  import opened LuaValues
  import opened Symbols

  // q holds for the root and for every field a walker can reach.
  predicate Throughout(q: TypeNode -> bool, node: TypeNode)
    decreases node, 0
  {
    q(node) && forall f :: f in node.children ==> ThroughoutField(q, f)
  }

  predicate ThroughoutField(q: TypeNode -> bool, f: TypeNode)
    decreases f, 1
  {
    if IsStruct(f) then Throughout(q, f) else q(f)
  }

  predicate HasWriter(f: TypeNode)
  {
    f.item.kind.Leaf? ==> Supported(f.item.kind.leaf)
  }

  predicate LeavesNoGap(f: TypeNode)
  {
    && (f.item.offset == 0 || (HasMask(f) && f.item.offset == 4))
    && (f.item.kind.Leaf? && Supported(f.item.kind.leaf) && !IsText(f.item.kind.leaf) ==>
          f.item.dataSize <= Width(f.item.kind.leaf))
  }

  predicate NoStructArray(f: TypeNode)
  {
    f.item.isArray ==> !IsStruct(f)
  }

  // A property of the tree that implies a rule at each node makes every walk
  // satisfy the rule.
  lemma {:induction false} ThroughoutGivesRule(q: TypeNode -> bool, p: Rule, node: TypeNode, x: Value)
    requires forall s, f, v :: q(f) ==> p(s, f, v)
    requires Throughout(q, node)
    ensures OnStruct(p, node, x)
    decreases node, 0
  {
    forall f | f in node.children
      ensures OnField(p, f, FieldOf(x, f.item.itemName))
    {
      FieldGivesRule(q, p, f, FieldOf(x, f.item.itemName));
    }
  }

  lemma {:induction false} FieldGivesRule(q: TypeNode -> bool, p: Rule, f: TypeNode, x: Value)
    requires forall s, g, v :: q(g) ==> p(s, g, v)
    requires ThroughoutField(q, f)
    ensures OnField(p, f, x)
    decreases f, 2
  {
    if f.item.isArray {
      assert IsStruct(f) ==> Throughout(q, f);
      assert q(f);
      forall i | 1 <= i <= Count(f, x)
        ensures OnElem(p, f, ElementOf(x, i))
      {
        ElemGivesRule(q, p, f, ElementOf(x, i));
      }
    } else {
      ElemGivesRule(q, p, f, x);
    }
  }

  lemma {:induction false} ElemGivesRule(q: TypeNode -> bool, p: Rule, f: TypeNode, x: Value)
    requires forall s, g, v :: q(g) ==> p(s, g, v)
    requires ThroughoutField(q, f)
    ensures OnElem(p, f, x)
    decreases f, 1
  {
    if IsStruct(f) {
      ThroughoutGivesRule(q, p, f, x);
    }
  }

  lemma {:induction false} Weaken(q: TypeNode -> bool, r: TypeNode -> bool, node: TypeNode)
    requires forall f :: q(f) ==> r(f)
    requires Throughout(q, node)
    ensures Throughout(r, node)
    decreases node
  {
    forall f | f in node.children
      ensures ThroughoutField(r, f)
    {
      if IsStruct(f) {
        Weaken(q, r, f);
      }
    }
  }

  // ------------------------------------------------------ building type trees

  // TypeInfo::Set. Only the type code changes, not the isStruct bit, and a
  // DataSize other than -1 is ignored.
  function SetInfo(item: TypeInfo, t: LeafType, itemName: Text, itemType: Text, dataSize: int): TypeInfo
  {
    item.(
      itemName := itemName,
      itemType := itemType,
      kind := if item.kind.Leaf? then Leaf(t) else if LeafCode(t) == 2 then StructOptFld else StructFixed,
      dataSize := if dataSize == -1 then DefaultDataSize(t) else item.dataSize)
  }

  // TypeNode::AddChild, for a child that is complete with its own children.
  function AddChild(node: TypeNode, child: TypeNode): TypeNode
  {
    node.(children := node.children + [child])
  }

  // A writer for each leaf, no gap in a buffer and no array of structures.
  predicate Plain(f: TypeNode)
  {
    HasWriter(f) && LeavesNoGap(f) && NoStructArray(f)
  }

  // A leaf set up with the default size is wide enough for its writer; it is
  // plain exactly when there is one.
  lemma DefaultLeafIsPlain(item: TypeInfo, t: LeafType, itemName: Text, itemType: Text)
    requires item.kind.Leaf? && item.offset == 0
    requires item.isArray ==> item.arrayDimensions != [] && -0x8000_0000 <= item.arrayDimensions[0] < 0x8000_0000
    ensures var leaf := TypeNode(SetInfo(item, t, itemName, itemType, -1), []);
            WellFormedField(leaf) && (ThroughoutField(Plain, leaf) <==> Supported(t))
  {
    assert !IsText(t) && Supported(t) ==> DefaultDataSize(t) == Width(t);
  }

  // Adding a plain field under a new name keeps a tree well formed and plain.
  lemma AddChildKeepsPlain(node: TypeNode, child: TypeNode)
    requires WellFormed(node) && Throughout(Plain, node)
    requires WellFormedField(child) && ThroughoutField(Plain, child)
    requires forall f :: f in node.children ==> f.item.itemName != child.item.itemName
    ensures WellFormed(AddChild(node, child)) && Throughout(Plain, AddChild(node, child))
  {
    var built := AddChild(node, child);
    assert forall f :: f in built.children <==> f in node.children || f == child;
    forall i, j | 0 <= i < j < |built.children|
      ensures built.children[i].item.itemName != built.children[j].item.itemName
    {
      assert node.children[i] in node.children;
    }
  }
}
