// Concrete inputs outside the conditions of the theorems.
module Counterexamples {
  import opened Bounds
  import opened ByteRoundTrip
  import opened Bytes
  import opened Codec
  import opened Dumper
  import opened Leaves
  import opened LuaStack
  import opened LuaValues
  import opened StackRun
  import opened Symbols
  import opened Wrappers

  function LeafNode(name: Text, t: LeafType): TypeNode
  {
    TypeNode(EMPTY_NODE.item.(itemName := name, kind := Leaf(t), dataSize := DefaultDataSize(t)), [])
  }

  function StructNode(name: Text, children: seq<TypeNode>): TypeNode
  {
    TypeNode(EMPTY_NODE.item.(itemName := name, kind := StructFixed), children)
  }

  // A flag byte of 2 decodes to true and is written back as 1.
  lemma FlagByteChanges()
    ensures var node := StructNode([83], [LeafNode([97], Bool8)]);
            && WellFormed(node) && DecodeStruct(node, [2], 0).Got?
            && Fill(EncodeStruct(node, Table(DecodeStruct(node, [2], 0).value))) == [1]
  {
    var f := LeafNode([97], Bool8);
    var node := StructNode([83], [f]);
    var t := map[Name([97]) := Boolean(true)];
    assert DecodeElem(f, [2], 0) == DecodeLeaf(f.item, Bool8, [2], 0) == Got(Boolean(true), 1);
    assert DecodeField(f, [2], 0) == Got(Boolean(true), 1);
    assert DecodeFields([f], [2], 0, map[]) == Got(t, 1);
    assert EncodeField(f, Boolean(true)) == EncodeElem(f, Boolean(true)) == Puts([1]);
    assert EncodeFields([f], Table(t)) == Puts([1]) + [];
    assert EncodeStruct(node, Table(t)) == Keeps(0) + (Puts([1]) + []) == Puts([1]);
  }

  // An array of one structure is read back under the array's name and then
  // counts as empty.
  lemma StructArrayIsLost(inner: TypeNode, x: Value)
    requires IsStruct(inner) && inner.item.isArray && inner.item.arrayDimensions == [1]
    requires x.Table? && Border(x.fields) == 1
    ensures var y := ReadbackField(inner, x);
            && y == Table(map[Name(inner.item.itemName) := ReadbackElem(inner, ElementOf(x, 1))])
            && Count(inner, x) == 1 && Count(inner, y) == 0
            && EncodeField(inner, y) != EncodeField(inner, x)
  {
    var name := Name(inner.item.itemName);
    var v := ReadbackElem(inner, ElementOf(x, 1));
    assert ReadbackElems(inner, x, 1, 1, map[name := v]) == map[name := v];
    assert ReadbackElems(inner, x, 0, 1, map[]) == map[name := v];
    var y := Table(map[name := v]);
    assert ReadbackField(inner, x) == y;
    BorderIs(y.fields, 0);
    assert EncodeField(inner, x)[0] == Put(1);
    assert EncodeField(inner, y)[0] == Put(0);
  }

  // A 64-bit field has no writer: its value stays on the stack, and the next
  // field is looked up in that value instead of the table.
  lemma MissingWriterLeaksValue(rest: Stack, t: Fields)
    ensures var f := LeafNode([97], UInt64); var stack := rest + [Table(t)];
            && RunField(f, stack) == Some(Step(stack + [Get(t, Name([97]))], [], 1))
            && (Name([97]) !in t ==> RunField(LeafNode([98], UInt8), RunField(f, stack).value.stack) == None)
  {}

  // So what is written may come from another table: {a = {b = 7}, b = 1} for
  // fields a, without a writer, and b gives 7 where its encoding has 1.
  lemma MissingWriterReadsOtherTable()
    ensures var fs := [LeafNode([97], UInt64), LeafNode([98], UInt8)];
            var x := Table(map[Name([97]) := Table(map[Name([98]) := Integer(7)]), Name([98]) := Integer(1)]);
            && RunFields(fs, [x]).Some? && RunFields(fs, [x]).value.cells == Puts([7])
            && EncodeFields(fs, x) == Puts([1])
  {
    var a, b := LeafNode([97], UInt64), LeafNode([98], UInt8);
    var y := Table(map[Name([98]) := Integer(7)]);
    var x := Table(map[Name([97]) := y, Name([98]) := Integer(1)]);
    assert RunField(a, [x]) == Some(Step([x, y], [], 1)) by { assert [x] + [y] == [x, y]; }
    assert RunField(b, [x, y]) == Some(Step([x, y], Puts([7]), 0)) by {
      assert LittleEndian(7, 1) == [7];
      assert Drop([x, y] + [Integer(7)], 1) == [x, y];
    }
    assert [a, b][1..] == [b] && [b][1..] == [];
    assert RunFields([b], [x, y]) == Some(Step([x, y], Puts([7]) + [], 0));
    assert EncodeField(b, Integer(1)) == Puts([1]) by { assert LittleEndian(1, 1) == [1]; }
    assert EncodeFields([b], x) == Puts([1]);
    assert EncodeField(a, y) == [];
  }

  // With 31 optional fields the mask claims a 32nd.
  lemma MaskOf31Fields()
    ensures Bit(GetBits(31), 31)
  {
    MaskMarksFields(31);
  }

  // The third walker does not move over a byte string, the reader does.
  lemma DumpStopsAtByteString(item: TypeInfo, bytes: seq<byte>, addr: nat)
    requires DecodeLeaf(item, ByteString, bytes, addr).Got?
    ensures SkipLeaf(ByteString, bytes, addr) == Some(addr)
        && DecodeLeaf(item, ByteString, bytes, addr).next >= addr + 4
  {}
}
