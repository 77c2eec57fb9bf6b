// The imperative walkers of src/OpcUA_Serializer.cpp: they move a cursor,
// write the byte buffer in place and push and pop the Lua stack.
module Serializer {
  import opened Bytes
  import opened Codec
  import opened Leaves
  import opened LuaStack
  import opened LuaValues
  import opened StackRun
  import opened Symbols

  // ------------------------------------------------------ storing bytes

  method StoreBytes(buf: array<byte>, p: nat, s: seq<byte>)
    requires p + |s| <= buf.Length
    modifies buf
    ensures buf[..] == Overlay(old(buf[..]), p, Puts(s))
  {
    var i := 0;
    while i < |s|
      invariant 0 <= i <= |s|
      invariant forall k :: 0 <= k < buf.Length ==> buf[k] == if p <= k < p + i then s[k - p] else old(buf[k])
    {
      buf[p + i] := s[i];
      i := i + 1;
    }
  }

  method StoreWord(buf: array<byte>, p: nat, n: int, width: nat)
    requires p + width <= buf.Length
    modifies buf
    ensures buf[..] == Overlay(old(buf[..]), p, Puts(LittleEndian(n, width)))
  {
    StoreBytes(buf, p, LittleEndian(n, width));
  }

  lemma OverlayKeeps(buf: seq<byte>, addr: nat, n: nat)
    requires addr + n <= |buf|
    ensures Overlay(buf, addr, Keeps(n)) == buf
  {}

  lemma OverlayNothing(buf: seq<byte>, addr: nat)
    requires addr <= |buf|
    ensures Overlay(buf, addr, []) == buf
  {}

  // ------------------------------------------------------ serialize

  // The writer registered for a type, run on the value on top of the stack.
  method WriteLeaf(lua: LuaState, item: TypeInfo, t: LeafType, buf: array<byte>, p: nat) returns (len: nat)
    requires lua.stack != [] && Supported(t) && LeafDomain(item, t, Top(lua.stack))
    requires p + |LeafCells(item, t, Top(lua.stack))| <= buf.Length
    modifies buf
    ensures len == |LeafCells(item, t, Top(lua.stack))|
    ensures buf[..] == Overlay(old(buf[..]), p, LeafCells(item, t, Top(lua.stack)))
  {
    var x := Top(lua.stack);
    if IsText(t) {
      var s := TextOf(x);
      StoreBytes(buf, p, LittleEndian(|s|, 4) + s);
      len := 4 + |s|;
    } else {
      ghost var before := buf[..];
      ghost var s := LeafBytes(t, x);
      ghost var pad := item.dataSize - Width(t);
      LeafBytesWidth(item, t, x);
      if t == Bool8 {
        StoreBytes(buf, p, [BoolByte(x)]);
      } else if (t == Float || t == Double) && x.Real? {
        StoreBytes(buf, p, x.pattern);
      } else {
        StoreWord(buf, p, IntegerOr0(x), Width(t));
      }
      OverlayKeeps(buf[..], p + |s|, pad);
      OverlayConcat(before, p, Puts(s), Keeps(pad));
      assert pad == 0 ==> Puts(s) + Keeps(pad) == Puts(s);
      len := item.dataSize;
    }
  }

  method WriteOptStruct(buf: array<byte>, p: nat, count: nat)
    requires p + 4 <= buf.Length
    modifies buf
    ensures buf[..] == Overlay(old(buf[..]), p, Puts(LittleEndian(GetBits(count), 4)))
  {
    StoreWord(buf, p, GetBits(count), 4);
  }

  method WriteHeader(node: TypeNode, buf: array<byte>, addr: nat, pBuf: nat) returns (a: nat, p: nat)
    requires pBuf == addr && addr + |Header(node)| <= buf.Length
    requires HasMask(node) ==> node.item.offset >= 4
    modifies buf
    ensures a == p == addr + |Header(node)|
    ensures buf[..] == Overlay(old(buf[..]), addr, Header(node))
  {
    hide LittleEndian;
    a, p := addr, pBuf;
    OverlayKeeps(buf[..], addr, node.item.offset);
    if node.item.offset != 0 {
      ghost var before := buf[..];
      if node.item.kind == StructOptFld {
        WriteOptStruct(buf, p, |node.children|);
        OverlayKeeps(buf[..], p + 4, node.item.offset - 4);
        OverlayConcat(before, p, Puts(LittleEndian(GetBits(|node.children|), 4)), Keeps(node.item.offset - 4));
      }
      a := a + node.item.offset;
      p := p + node.item.offset;
    }
  }

  method Serialize(lua: LuaState, node: TypeNode, buf: array<byte>, addr0: nat) returns (addr: nat)
    requires RunStruct(node, lua.stack).Some?
    requires addr0 + |RunStruct(node, lua.stack).value.cells| <= buf.Length
    modifies lua, buf
    ensures var s := RunStruct(node, old(lua.stack)).value;
            && lua.stack == s.stack
            && addr == addr0 + |s.cells|
            && buf[..] == Overlay(old(buf[..]), addr0, s.cells)
    decreases node, 0
  {
    hide RunField, Header, Overlay;
    ghost var all := RunStruct(node, lua.stack).value;
    var pBuf := addr0;
    addr, pBuf := WriteHeader(node, buf, addr0, pBuf);
    ghost var done := Header(node);
    var i := 0;
    while i < |node.children|
      invariant 0 <= i <= |node.children|
      invariant pBuf == addr == addr0 + |done|
      invariant RunFields(node.children[i..], lua.stack).Some?
      invariant var rest := RunFields(node.children[i..], lua.stack).value;
                all.stack == rest.stack && all.cells == done + rest.cells
      invariant buf[..] == Overlay(old(buf[..]), addr0, done)
    {
      var tn := node.children[i];
      assert node.children[i..][0] == tn && node.children[i..][1..] == node.children[i + 1..];
      ghost var field := RunField(tn, lua.stack).value.cells;
      addr, pBuf := SerializeField(lua, tn, buf, addr, pBuf);
      OverlayConcat(old(buf[..]), addr0, done, field);
      done := done + field;
      i := i + 1;
    }
    assert all.cells == done;
  }

  method SerializeField(lua: LuaState, tn: TypeNode, buf: array<byte>, addr0: nat, pBuf0: nat)
      returns (addr: nat, pBuf: nat)
    requires pBuf0 == addr0
    requires RunField(tn, lua.stack).Some?
    requires addr0 + |RunField(tn, lua.stack).value.cells| <= buf.Length
    modifies lua, buf
    ensures var s := RunField(tn, old(lua.stack)).value;
            && lua.stack == s.stack
            && addr == pBuf == addr0 + |s.cells|
            && buf[..] == Overlay(old(buf[..]), addr0, s.cells)
    decreases tn, 2
  {
    hide RunElem, RunElems, Overlay;
    if tn.item.isArray {
      addr, pBuf := SerializeArray(lua, tn, buf, addr0, pBuf0);
    } else {
      lua.GetField(tn.item.itemName);
      addr, pBuf := SerializeElem(lua, tn, buf, addr0, pBuf0);
    }
  }

  // A count word, then the elements; the array and the current key stay on
  // the stack in between.
  method SerializeArray(lua: LuaState, tn: TypeNode, buf: array<byte>, addr0: nat, pBuf0: nat)
      returns (addr: nat, pBuf: nat)
    requires pBuf0 == addr0 && tn.item.isArray
    requires RunField(tn, lua.stack).Some?
    requires addr0 + |RunField(tn, lua.stack).value.cells| <= buf.Length
    modifies lua, buf
    ensures var s := RunField(tn, old(lua.stack)).value;
            && lua.stack == s.stack
            && addr == pBuf == addr0 + |s.cells|
            && buf[..] == Overlay(old(buf[..]), addr0, s.cells)
    decreases tn, 1, 2
  {
    hide LittleEndian, RunElem, RunElems, Overlay, Puts;
    ghost var stack := lua.stack;
    ghost var before := buf[..];
    var count := Capacity(tn);
    lua.GetField(tn.item.itemName);
    var length := lua.ObjLen();
    if length < count {
      count := length;
    }
    lua.Push(Nil);
    assert lua.stack == stack + [FieldOf(Top(stack), tn.item.itemName), Nil];
    ghost var run := RunElems(tn, lua.stack, 0, count).value;
    StoreWord(buf, pBuf0, count, 4);
    addr := addr0 + 4;
    pBuf := pBuf0 + 4;
    addr, pBuf := SerializeElems(lua, tn, buf, addr, pBuf, count);
    OverlayConcat(before, addr0, Puts(LittleEndian(count, 4)), run.cells);
    lua.Pop(1);
    lua.Pop(1);
  }

  // The next element of an array, its value on top of its key.
  method FetchNext(lua: LuaState, iSeq: nat)
    requires |lua.stack| >= 2 && CanStep(lua.stack[|lua.stack| - 2], Top(lua.stack))
    modifies lua
    ensures lua.stack == Advance(old(lua.stack), iSeq)
  {
    var more := lua.Next();
    if !more {
      lua.Push(Integer(iSeq + 1));
      lua.Push(Nil);
    }
  }

  // The element loop of an array: table and key are on the stack.
  method SerializeElems(lua: LuaState, tn: TypeNode, buf: array<byte>, addr0: nat, pBuf0: nat, count: int)
      returns (addr: nat, pBuf: nat)
    requires pBuf0 == addr0
    requires RunElems(tn, lua.stack, 0, count).Some?
    requires addr0 + |RunElems(tn, lua.stack, 0, count).value.cells| <= buf.Length
    modifies lua, buf
    ensures var s := RunElems(tn, old(lua.stack), 0, count).value;
            && lua.stack == s.stack
            && addr == pBuf == addr0 + |s.cells|
            && buf[..] == Overlay(old(buf[..]), addr0, s.cells)
    decreases tn, 1, 1
  {
    hide RunElem, Advance, CanStep, Overlay;
    ghost var all := RunElems(tn, lua.stack, 0, count).value;
    ghost var done := [];
    OverlayNothing(buf[..], addr0);
    addr, pBuf := addr0, pBuf0;
    var iSeq := 0;
    while iSeq < count
      invariant 0 <= iSeq
      invariant pBuf == addr == addr0 + |done|
      invariant RunElems(tn, lua.stack, iSeq, count).Some?
      invariant var rest := RunElems(tn, lua.stack, iSeq, count).value;
                all.stack == rest.stack && all.cells == done + rest.cells
      invariant buf[..] == Overlay(old(buf[..]), addr0, done)
      decreases count - iSeq
    {
      ghost var next := Advance(lua.stack, iSeq);
      FetchNext(lua, iSeq);
      ghost var elem := RunElem(tn, next).value.cells;
      addr, pBuf := SerializeElem(lua, tn, buf, addr, pBuf);
      OverlayConcat(old(buf[..]), addr0, done, elem);
      done := done + elem;
      iSeq := iSeq + 1;
    }
    assert all.cells == done;
  }

  // One value, on top of the stack: a nested structure or a leaf.
  method SerializeElem(lua: LuaState, tn: TypeNode, buf: array<byte>, addr0: nat, pBuf0: nat)
      returns (addr: nat, pBuf: nat)
    requires pBuf0 == addr0
    requires RunElem(tn, lua.stack).Some?
    requires addr0 + |RunElem(tn, lua.stack).value.cells| <= buf.Length
    modifies lua, buf
    ensures var s := RunElem(tn, old(lua.stack)).value;
            && lua.stack == s.stack
            && addr == pBuf == addr0 + |s.cells|
            && buf[..] == Overlay(old(buf[..]), addr0, s.cells)
    decreases tn, 1, 0
  {
    hide Overlay;
    ghost var run := RunElem(tn, lua.stack).value;
    addr, pBuf := addr0, pBuf0;
    if IsStruct(tn) {
      addr := Serialize(lua, tn, buf, addr);
      pBuf := addr;
    } else {
      var t := tn.item.kind.leaf;
      var len := 0;
      if Supported(t) {
        len := WriteLeaf(lua, tn.item, t, buf, pBuf);
      } else {
        lua.Push(Str(ERROR_TEXT));
        OverlayNothing(buf[..], pBuf);
      }
      addr := addr + len;
      pBuf := pBuf + len;
    }
    lua.Pop(1);
  }
}
