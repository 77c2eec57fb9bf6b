// deserialize: builds the table on the Lua stack while the cursor advances.
// It checks no bounds, so its caller must supply a buffer that decodes.
module Deserializer {
  import opened Bytes
  import opened Codec
  import opened Leaves
  import opened LuaStack
  import opened LuaValues
  import opened Symbols

  // The stack with one entry added to the table on top.
  function WithEntry(s: Stack, k: Key, v: Value): (r: Stack)
    requires Top(s).Table?
    ensures |r| == |s| && Top(r).Table?
  {
    Drop(s, 1) + [Table(Top(s).fields[k := v])]
  }

  lemma PutEntry(s: Stack, k: Key, v: Value)
    requires Top(s).Table? && !v.Nil?
    ensures Drop(s + [KeyValue(k), v], 3) == Drop(s, 1)
    ensures WithEntry(s, k, v) == Drop(s, 1) + [Table(Set(Top(s).fields, k, v))]
  {}

  // The reader registered for a type; it pushes the value.
  method ReadLeaf(lua: LuaState, item: TypeInfo, t: LeafType, buf: seq<byte>, p: nat) returns (len: nat)
    requires DecodeLeaf(item, t, buf, p).Got?
    modifies lua
    ensures lua.stack == old(lua.stack) + [DecodeLeaf(item, t, buf, p).value]
    ensures p + len == DecodeLeaf(item, t, buf, p).next
  {
    if !Supported(t) {
      lua.Push(Str(ERROR_TEXT));
      len := 0;
    } else if IsText(t) {
      var n := IntWord(buf, p);
      lua.Push(Str(buf[p + 4..p + 4 + n]));
      len := n + 4;
    } else {
      lua.Push(LeafValue(t, buf[p..p + Width(t)]));
      len := item.dataSize;
    }
  }

  method Deserialize(lua: LuaState, node: TypeNode, buf: seq<byte>, addr0: nat, isRoot: bool) returns (addr: nat)
    requires DecodeStruct(node, buf, addr0).Got?
    requires !isRoot ==> Top(lua.stack).Table?
    modifies lua
    ensures var d := DecodeStruct(node, buf, addr0); var name := node.item.itemName;
            && addr == d.next
            && lua.stack == if isRoot then old(lua.stack) + [Str(name), Table(d.value)]
                          else WithEntry(old(lua.stack), Name(name), Table(d.value))
    decreases node, 0
  {
    var name := node.item.itemName;
    ghost var all := DecodeStruct(node, buf, addr0);
    ghost var base := lua.stack + [Str(name)];
    ghost var acc: Fields := map[];
    lua.Push(Str(name));
    lua.Push(Table(map[]));
    addr := addr0;
    var pBuf := addr0;
    if node.item.offset != 0 {
      var bits := 0;
      if node.item.kind == StructOptFld {
        bits := Word(buf, pBuf);
      }
    }
    addr := addr + node.item.offset;
    pBuf := pBuf + node.item.offset;
    var i := 0;
    while i < |node.children|
      invariant 0 <= i <= |node.children|
      invariant pBuf == addr
      invariant lua.stack == base + [Table(acc)]
      invariant DecodeFields(node.children[i..], buf, addr, acc) == all
    {
      var tn := node.children[i];
      assert node.children[i..][0] == tn && node.children[i..][1..] == node.children[i + 1..];
      acc := acc[Name(tn.item.itemName) := DecodeField(tn, buf, addr).value];
      addr, pBuf := DeserializeField(lua, tn, buf, addr, pBuf);
      assert lua.stack == base + [Table(acc)];
      i := i + 1;
    }
    assert lua.stack == old(lua.stack) + [Str(name), Table(all.value)];
    if !isRoot {
      PutEntry(old(lua.stack), Name(name), Table(all.value));
      lua.SetTable();
    }
  }

  method DeserializeField(lua: LuaState, tn: TypeNode, buf: seq<byte>, addr0: nat, pBuf0: nat)
      returns (addr: nat, pBuf: nat)
    requires pBuf0 == addr0 && Top(lua.stack).Table?
    requires DecodeField(tn, buf, addr0).Got?
    modifies lua
    ensures addr == pBuf == DecodeField(tn, buf, addr0).next
    ensures lua.stack == WithEntry(old(lua.stack), Name(tn.item.itemName), DecodeField(tn, buf, addr0).value)
    decreases tn, 2
  {
    addr, pBuf := addr0, pBuf0;
    var name := tn.item.itemName;
    if tn.item.isArray {
      var count := IntWord(buf, pBuf);
      addr := addr + 4;
      pBuf := pBuf + 4;
      lua.Push(Str(name));
      lua.Push(Table(map[]));
      addr, pBuf := DeserializeElems(lua, tn, buf, addr, pBuf, count);
      ghost var v := DecodeField(tn, buf, addr0).value;
      assert lua.stack == old(lua.stack) + [KeyValue(Name(name)), v];
      PutEntry(old(lua.stack), Name(name), v);
      lua.SetTable();
    } else if IsStruct(tn) {
      addr := Deserialize(lua, tn, buf, addr, false);
      pBuf := addr;
    } else {
      var t := tn.item.kind.leaf;
      lua.Push(Str(name));
      var len := ReadLeaf(lua, tn.item, t, buf, pBuf);
      ghost var v := DecodeLeaf(tn.item, t, buf, addr0).value;
      assert lua.stack == old(lua.stack) + [KeyValue(Name(name)), v];
      PutEntry(old(lua.stack), Name(name), v);
      lua.SetTable();
      addr := addr + len;
      pBuf := pBuf + len;
    }
  }

  // The element loop of an array whose fresh table is on top of the stack.
  method DeserializeElems(lua: LuaState, tn: TypeNode, buf: seq<byte>, addr0: nat, pBuf0: nat, count: int)
      returns (addr: nat, pBuf: nat)
    requires pBuf0 == addr0 && Top(lua.stack) == Table(map[])
    requires DecodeElems(tn, buf, addr0, 0, count, map[]).Got?
    modifies lua
    ensures var d := DecodeElems(tn, buf, addr0, 0, count, map[]);
            addr == pBuf == d.next && lua.stack == Drop(old(lua.stack), 1) + [Table(d.value)]
    decreases tn, 1
  {
    hide DecodeLeaf;
    ghost var all := DecodeElems(tn, buf, addr0, 0, count, map[]);
    ghost var base := Drop(lua.stack, 1);
    ghost var acc: Fields := map[];
    addr, pBuf := addr0, pBuf0;
    var iSeq := 0;
    while iSeq < count
      invariant 0 <= iSeq
      invariant pBuf == addr
      invariant lua.stack == base + [Table(acc)]
      invariant DecodeElems(tn, buf, addr, iSeq, count, acc) == all
      decreases count - iSeq
    {
      ghost var v := DecodeElem(tn, buf, addr).value;
      ghost var was := acc;
      acc := acc[ElementKey(tn, iSeq) := v];
      if IsStruct(tn) {
        addr := Deserialize(lua, tn, buf, addr, false);
        pBuf := addr;
      } else {
        var len := ReadLeaf(lua, tn.item, tn.item.kind.leaf, buf, pBuf);
        lua.RawSetI(iSeq + 1);
        addr := addr + len;
        pBuf := pBuf + len;
      }
      assert lua.stack == base + [Table(acc)];
      iSeq := iSeq + 1;
    }
  }
}
