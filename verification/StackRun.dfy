// serialize as a program on the Lua stack, for every type tree: the stack it
// leaves, the cells it writes, and how often it meets a type without a writer
// (each time it pushes one value more than it pops). None where the C code
// would raise a Lua error or leave defined behaviour, and where it would index
// a string, which Lua looks up in the string library instead.
module StackRun {
  import opened Bytes
  import opened Codec
  import opened Leaves
  import opened LuaStack
  import opened LuaValues
  import opened Symbols
  import opened Wrappers

  datatype Step = Step(stack: Stack, cells: seq<Cell>, misses: nat)

  function RunStruct(node: TypeNode, stack: Stack): Option<Step>
    decreases node, 0
  {
    if HasMask(node) && node.item.offset < 4 then None
    else match RunFields(node.children, stack)
      case None => None
      case Some(s) => Some(s.(cells := Header(node) + s.cells))
  }

  function RunFields(fs: seq<TypeNode>, stack: Stack): Option<Step>
    decreases fs
  {
    if fs == [] then Some(Step(stack, [], 0))
    else match RunField(fs[0], stack)
      case None => None
      case Some(s) =>
        match RunFields(fs[1..], s.stack)
        case None => None
        case Some(r) => Some(Step(r.stack, s.cells + r.cells, s.misses + r.misses))
  }

  function RunField(f: TypeNode, stack: Stack): Option<Step>
    decreases f, 3
  {
    if !Top(stack).Table? then None
    else
      var x := FieldOf(Top(stack), f.item.itemName);
      if !f.item.isArray then RunElem(f, stack + [x])
      else if !ArrayShape(f) || !HasLength(x) || Length(x) >= 0x8000_0000 then None
      else match RunElems(f, stack + [x, Nil], 0, Count(f, x))
        case None => None
        case Some(s) =>
          if |s.stack| < 2 then None
          else Some(Step(Drop(s.stack, 2), Puts(LittleEndian(Count(f, x), 4)) + s.cells, s.misses))
  }

  // The stack after lua_next, or after the values pushed in its place.
  function Advance(stack: Stack, i: nat): Stack
    requires |stack| >= 2 && CanStep(stack[|stack| - 2], Top(stack))
  {
    var below := Drop(stack, 1);
    match NextIndex(Top(below), Top(stack))
    case Some(k) => below + [Integer(k), Top(below).fields[Index(k)]]
    case None => below + [Integer(i + 1), Nil]
  }

  function RunElems(f: TypeNode, stack: Stack, i: nat, count: int): Option<Step>
    decreases f, 2, count - i
  {
    if i >= count then Some(Step(stack, [], 0))
    else if |stack| < 2 || !CanStep(stack[|stack| - 2], Top(stack)) then None
    else match RunElem(f, Advance(stack, i))
      case None => None
      case Some(s) =>
        match RunElems(f, s.stack, i + 1, count)
        case None => None
        case Some(r) => Some(Step(r.stack, s.cells + r.cells, s.misses + r.misses))
  }

  function RunElem(f: TypeNode, stack: Stack): Option<Step>
    decreases f, 1
  {
    if stack == [] then None
    else match f.item.kind
      case Leaf(t) =>
        if !Supported(t) then Some(Step(stack, [], 1))
        else if !LeafDomain(f.item, t, Top(stack)) then None
        else Some(Step(Drop(stack, 1), LeafCells(f.item, t, Top(stack)), 0))
      case _ =>
        match RunStruct(f, stack)
        case None => None
        case Some(s) => if s.stack == [] then None else Some(s.(stack := Drop(s.stack, 1)))
  }

  // ------------------------------------------------------ growth of the stack

  // Whatever the type: nothing below is touched, and each miss leaves exactly
  // one value behind.
  lemma {:induction false} StackGrowsByMisses(node: TypeNode, stack: Stack)
    requires RunStruct(node, stack).Some?
    ensures var s := RunStruct(node, stack).value; stack <= s.stack && |s.stack| == |stack| + s.misses
    decreases node, 0
  {
    FieldsGrow(node.children, stack);
  }

  lemma {:induction false} FieldsGrow(fs: seq<TypeNode>, stack: Stack)
    requires RunFields(fs, stack).Some?
    ensures var s := RunFields(fs, stack).value; stack <= s.stack && |s.stack| == |stack| + s.misses
    decreases fs
  {
    if fs != [] {
      FieldGrows(fs[0], stack);
      FieldsGrow(fs[1..], RunField(fs[0], stack).value.stack);
    }
  }

  lemma {:induction false} FieldGrows(f: TypeNode, stack: Stack)
    requires RunField(f, stack).Some?
    ensures var s := RunField(f, stack).value; stack <= s.stack && |s.stack| == |stack| + s.misses
    decreases f, 3
  {
    hide LittleEndian;
    var x := FieldOf(Top(stack), f.item.itemName);
    if f.item.isArray {
      ElemsGrow(f, stack + [x, Nil], 0, Count(f, x));
      assert Drop(stack + [x, Nil], 1) == stack + [x];
    } else {
      ElemGrows(f, stack + [x]);
      assert Drop(stack + [x], 1) == stack;
    }
  }

  lemma {:induction false} ElemsGrow(f: TypeNode, stack: Stack, i: nat, count: int)
    requires |stack| >= 2 && RunElems(f, stack, i, count).Some?
    ensures var s := RunElems(f, stack, i, count).value; Drop(stack, 1) <= s.stack && |s.stack| == |stack| + s.misses
    decreases f, 2, count - i
  {
    hide RunElem;
    if i < count {
      var next := Advance(stack, i);
      ElemGrows(f, next);
      var s := RunElem(f, next).value;
      assert Drop(stack, 1) <= Drop(next, 1) <= s.stack;
      assert Drop(stack, 1) <= Drop(s.stack, 1);
      ElemsGrow(f, s.stack, i + 1, count);
    }
  }

  lemma {:induction false} ElemGrows(f: TypeNode, stack: Stack)
    requires stack != [] && RunElem(f, stack).Some?
    ensures var s := RunElem(f, stack).value; Drop(stack, 1) <= s.stack && |s.stack| + 1 == |stack| + s.misses
    decreases f, 1
  {
    hide LeafDomain, LeafCells;
    if IsStruct(f) {
      StackGrowsByMisses(f, stack);
    }
  }

  // ------------------------------------------------------ agreement with the encoding

  // On its domain the program completes, writes the encoding of the table on
  // top and leaves the stack as it was.
  lemma RunWritesEncoding(node: TypeNode, stack: Stack)
    requires stack != [] && InDomain(node, Top(stack))
    ensures RunStruct(node, stack) == Some(Step(stack, EncodeStruct(node, Top(stack)), 0))
  {
    DomainSplits(node, Top(stack));
    RunStructWrites(node, stack);
  }

  lemma {:induction false} RunStructWrites(node: TypeNode, stack: Stack)
    requires stack != [] && OnStruct(ShapeRule, node, Top(stack)) && OnStruct(SupportedRule, node, Top(stack))
    ensures RunStruct(node, stack) == Some(Step(stack, EncodeStruct(node, Top(stack)), 0))
    decreases node, 0
  {
    RunFieldsWrite(node.children, stack);
  }

  ghost predicate Regular(f: TypeNode, x: Value)
  {
    OnField(ShapeRule, f, x) && OnField(SupportedRule, f, x)
  }

  lemma {:induction false} RunFieldsWrite(fs: seq<TypeNode>, stack: Stack)
    requires stack != [] && (fs == [] || Top(stack).Table?)
    requires forall f :: f in fs ==> Regular(f, FieldOf(Top(stack), f.item.itemName))
    ensures RunFields(fs, stack) == Some(Step(stack, EncodeFields(fs, Top(stack)), 0))
    decreases fs
  {
    if fs != [] {
      RunFieldWrites(fs[0], stack);
      RunFieldsWrite(fs[1..], stack);
    }
  }

  lemma {:induction false} RunFieldWrites(f: TypeNode, stack: Stack)
    requires Top(stack).Table? && Regular(f, FieldOf(Top(stack), f.item.itemName))
    ensures RunField(f, stack) == Some(Step(stack, EncodeField(f, FieldOf(Top(stack), f.item.itemName)), 0))
    decreases f, 3
  {
    hide LittleEndian;
    var x := FieldOf(Top(stack), f.item.itemName);
    if f.item.isArray {
      var count := Count(f, x);
      assert stack + [x, Nil] == stack + [x] + [KeyAt(0)];
      RunElemsWrite(f, stack, x, 0, count);
      var after := stack + [x] + [KeyAt(if 0 < count then count else 0)];
      assert RunElems(f, stack + [x, Nil], 0, count).value.stack == after;
      assert Drop(after, 2) == stack;
    } else {
      RunElemWrites(f, stack + [x]);
      assert Drop(stack + [x], 1) == stack;
    }
  }

  // The key on the stack after i steps of lua_next.
  function KeyAt(i: int): Value
  {
    if i <= 0 then Nil else Integer(i)
  }

  // One step of lua_next from index i, below the border of the table.
  lemma AdvanceStep(stack: Stack, x: Value, i: nat)
    requires x.Table? && IsSequence(x.fields) && i < Border(x.fields)
    ensures var s := stack + [x] + [KeyAt(i)]; var next := stack + [x] + [KeyAt(i + 1)] + [ElementOf(x, i + 1)];
            && |s| >= 2 && CanStep(s[|s| - 2], Top(s)) && Advance(s, i) == next
            && Top(next) == ElementOf(x, i + 1) && Drop(next, 1) == stack + [x] + [KeyAt(i + 1)]
  {
    var s := stack + [x] + [KeyAt(i)];
    var next := stack + [x] + [KeyAt(i + 1)] + [ElementOf(x, i + 1)];
    assert Drop(s, 1) == stack + [x];
    assert Index(i + 1) in x.fields;
    assert Drop(next, 1) == stack + [x] + [KeyAt(i + 1)];
  }

  // Behind the last element the next key and a nil stand in for the pair that
  // lua_next does not find.
  lemma PastTheEnd(stack: Stack, x: Value, i: nat)
    requires x.Table? && IsSequence(x.fields)
    ensures var s := stack + [x] + [KeyAt(Border(x.fields))];
            && |s| >= 2 && CanStep(s[|s| - 2], Top(s))
            && Advance(s, i) == stack + [x] + [Integer(i + 1), Nil]
  {
    var s := stack + [x] + [KeyAt(Border(x.fields))];
    assert Drop(s, 1) == stack + [x];
  }

  lemma {:induction false} RunElemsWrite(f: TypeNode, stack: Stack, x: Value, i: nat, count: int)
    requires count > 0 ==> x.Table? && IsSequence(x.fields) && count <= Border(x.fields) && i <= count
    requires forall k :: 1 <= k <= count ==>
               OnElem(ShapeRule, f, ElementOf(x, k)) && OnElem(SupportedRule, f, ElementOf(x, k))
    ensures RunElems(f, stack + [x] + [KeyAt(i)], i, count)
         == Some(Step(stack + [x] + [KeyAt(if i < count then count else i)], EncodeElems(f, x, i, count), 0))
    decreases f, 2, count - i
  {
    hide RunElem, EncodeElem, OnElem, Advance, CanStep, IsSequence;
    if i < count {
      AdvanceStep(stack, x, i);
      RunElemWrites(f, stack + [x] + [KeyAt(i + 1)] + [ElementOf(x, i + 1)]);
      RunElemsWrite(f, stack, x, i + 1, count);
    }
  }

  lemma {:induction false} RunElemWrites(f: TypeNode, stack: Stack)
    requires stack != [] && OnElem(ShapeRule, f, Top(stack)) && OnElem(SupportedRule, f, Top(stack))
    ensures RunElem(f, stack) == Some(Step(Drop(stack, 1), EncodeElem(f, Top(stack)), 0))
    decreases f, 1
  {
    hide LeafDomain, LeafCells;
    if IsStruct(f) {
      RunStructWrites(f, stack);
    }
  }

  // ------------------------------------------------------ when the stack is neutral

  lemma {:induction false} MissesIffUnsupported(node: TypeNode, stack: Stack)
    requires stack != [] && OnStruct(ShapeRule, node, Top(stack)) && RunStruct(node, stack).Some?
    ensures RunStruct(node, stack).value.misses == 0 <==> OnStruct(SupportedRule, node, Top(stack))
    decreases node, 0
  {
    FieldsMiss(node.children, stack);
  }

  lemma {:induction false} FieldsMiss(fs: seq<TypeNode>, stack: Stack)
    requires stack != [] && RunFields(fs, stack).Some? && (fs == [] || Top(stack).Table?)
    requires forall f :: f in fs ==> OnField(ShapeRule, f, FieldOf(Top(stack), f.item.itemName))
    ensures RunFields(fs, stack).value.misses == 0 <==>
            forall f :: f in fs ==> OnField(SupportedRule, f, FieldOf(Top(stack), f.item.itemName))
    decreases fs
  {
    if fs != [] {
      var f := fs[0];
      assert forall g :: g in fs <==> g == f || g in fs[1..];
      FieldMisses(f, stack);
      if OnField(SupportedRule, f, FieldOf(Top(stack), f.item.itemName)) {
        RunFieldWrites(f, stack);
        FieldsMiss(fs[1..], stack);
      }
    }
  }

  lemma {:induction false} FieldMisses(f: TypeNode, stack: Stack)
    requires Top(stack).Table? && RunField(f, stack).Some?
    requires OnField(ShapeRule, f, FieldOf(Top(stack), f.item.itemName))
    ensures RunField(f, stack).value.misses == 0 <==> OnField(SupportedRule, f, FieldOf(Top(stack), f.item.itemName))
    decreases f, 3
  {
    hide LittleEndian;
    var x := FieldOf(Top(stack), f.item.itemName);
    if f.item.isArray {
      assert stack + [x, Nil] == stack + [x] + [KeyAt(0)];
      ElemsMiss(f, stack, x, 0, Count(f, x));
    } else {
      ElemMisses(f, stack + [x]);
    }
  }

  lemma {:induction false} ElemsMiss(f: TypeNode, stack: Stack, x: Value, i: nat, count: int)
    requires count > 0 ==> x.Table? && IsSequence(x.fields) && count <= Border(x.fields) && i <= count
    requires forall k :: 1 <= k <= count ==> OnElem(ShapeRule, f, ElementOf(x, k))
    requires RunElems(f, stack + [x] + [KeyAt(i)], i, count).Some?
    ensures RunElems(f, stack + [x] + [KeyAt(i)], i, count).value.misses == 0 <==>
            forall k :: i < k <= count ==> OnElem(SupportedRule, f, ElementOf(x, k))
    decreases f, 2, count - i
  {
    hide RunElem, OnElem, Advance, CanStep, IsSequence;
    if i < count {
      var next := stack + [x] + [KeyAt(i + 1)] + [ElementOf(x, i + 1)];
      AdvanceStep(stack, x, i);
      ElemMisses(f, next);
      if OnElem(SupportedRule, f, ElementOf(x, i + 1)) {
        RunElemWrites(f, next);
        ElemsMiss(f, stack, x, i + 1, count);
      }
    }
  }

  lemma {:induction false} ElemMisses(f: TypeNode, stack: Stack)
    requires stack != [] && OnElem(ShapeRule, f, Top(stack)) && RunElem(f, stack).Some?
    ensures RunElem(f, stack).value.misses == 0 <==> OnElem(SupportedRule, f, Top(stack))
    decreases f, 1
  {
    hide LeafDomain, LeafCells;
    if IsStruct(f) {
      MissesIffUnsupported(f, stack);
    }
  }

  // serialize restores the stack exactly when every leaf it meets has a writer.
  lemma NeutralIffSupported(node: TypeNode, stack: Stack)
    requires stack != [] && OnStruct(ShapeRule, node, Top(stack)) && RunStruct(node, stack).Some?
    ensures RunStruct(node, stack).value.stack == stack <==> OnStruct(SupportedRule, node, Top(stack))
  {
    StackGrowsByMisses(node, stack);
    MissesIffUnsupported(node, stack);
  }
}
