// TypeNode_Proxy: encoding into a fresh buffer and decoding, and the comparison
// that test/test_client_extensionobj.lua makes between them.
module Client {
  import opened Bounds
  import opened ByteRoundTrip
  import opened Bytes
  import opened Codec
  import opened Deserializer
  import opened LuaStack
  import opened LuaValues
  import opened NormalForm
  import opened RoundTrip
  import opened Schemas
  import opened Serializer
  import opened StackRun
  import opened Symbols
  import opened TypeDB
  import opened Wrappers

  const BUFFER_SIZE: nat := 8192

  // The bytes serialize leaves in a fresh buffer; None where it reports failure.
  method SerializeTable(lua: LuaState, node: TypeNode, x: Value) returns (r: Option<seq<byte>>)
    requires IsValid(node.item) ==>
               RunStruct(node, lua.stack + [x]).Some? && |RunStruct(node, lua.stack + [x]).value.cells| <= 8192
    modifies lua
    ensures !IsValid(node.item) ==> r == None && lua.stack == old(lua.stack)
    ensures IsValid(node.item) ==>
              var s := RunStruct(node, old(lua.stack) + [x]).value;
              && s.stack != [] && lua.stack == Drop(s.stack, 1)
              && (r == None <==> Weightless(node))
              && (r.Some? ==> |r.value| == |s.cells| && Matches(r.value, 0, s.cells))
  {
    if !IsValid(node.item) {
      return None;
    }
    ghost var s := RunStruct(node, lua.stack + [x]).value;
    StackGrowsByMisses(node, lua.stack + [x]);
    RunZeroIffWeightless(node, lua.stack + [x]);
    lua.Push(x);
    var data := new byte[BUFFER_SIZE];
    ghost var before := data[..];
    var length := Serialize(lua, node, data, 0);
    lua.Pop(1);
    OverlayMatches(before, 0, s.cells);
    if length == 0 {
      return None;
    }
    return Some(data[..length]);
  }

  // The same for the tables of the domain: the encoding, on an unchanged
  // stack, and failure exactly for types that take no bytes.
  method SerializeRegular(lua: LuaState, node: TypeNode, x: Value) returns (r: Option<seq<byte>>)
    requires IsValid(node.item) && InDomain(node, x)
    requires |EncodeStruct(node, x)| <= 8192
    modifies lua
    ensures lua.stack == old(lua.stack)
    ensures r == None <==> Weightless(node)
    ensures r.Some? ==> |r.value| == |EncodeStruct(node, x)| && Matches(r.value, 0, EncodeStruct(node, x))
  {
    RunWritesEncoding(node, lua.stack + [x]);
    r := SerializeTable(lua, node, x);
  }

  // Decoding: the table is taken from the top of the stack; the root's name
  // below it stays there.
  method DeserializeTable(lua: LuaState, node: TypeNode, data: seq<byte>) returns (x: Value)
    requires DecodeStruct(node, data, 0).Got?
    modifies lua
    ensures x == Table(DecodeStruct(node, data, 0).value)
    ensures lua.stack == old(lua.stack) + [Str(node.item.itemName)]
  {
    var addr := Deserialize(lua, node, data, 0, true);
    x := Top(lua.stack);
    lua.Pop(1);
  }

  // Encode, then decode: the table that comes back is the normal form of the
  // one that was sent, unless the type takes no bytes.
  method SendAndReceive(lua: LuaState, node: TypeNode, x: Value) returns (y: Option<Value>)
    requires IsValid(node.item) && InDomain(node, x)
    requires |EncodeStruct(node, x)| <= 8192
    modifies lua
    ensures y == if Weightless(node) then None else Some(Normalize(node, x))
    ensures lua.stack == if Weightless(node) then old(lua.stack) else old(lua.stack) + [Str(node.item.itemName)]
  {
    var data := SerializeRegular(lua, node, x);
    if data == None {
      return None;
    }
    ValueRoundTrip(node, x, data.value, 0);
    var back := DeserializeTable(lua, node, data.value);
    y := Some(back);
  }

  // ------------------------------------------------------ decode, then encode

  // With no gaps in the type, the re-encoded bytes are the original ones
  // exactly when these are canonical and were consumed to the end.
  lemma ReencodedEquals(node: TypeNode, raw: seq<byte>, again: seq<byte>)
    requires WellFormed(node) && Throughout(LeavesNoGap, node) && Throughout(HasWriter, node)
    requires DecodeStruct(node, raw, 0).Got?
    requires var cells := EncodeStruct(node, Table(DecodeStruct(node, raw, 0).value));
             |again| == |cells| && Matches(again, 0, cells)
    ensures again == raw <==> CanonicalStruct(node, raw, 0) && DecodeStruct(node, raw, 0).next == |raw|
  {
    var x := Table(DecodeStruct(node, raw, 0).value);
    var cells := EncodeStruct(node, x);
    ThroughoutGivesRule(HasWriter, SupportedRule, node, x);
    ByteRoundTrip.ByteRoundTrip(node, raw, 0);
    ThroughoutGivesRule(LeavesNoGap, TightRule, node, x);
    CoverageIffTight(node, x);
    assert forall i :: 0 <= i < |cells| ==> again[i] == cells[i].b;
    if again == raw {
      assert Matches(raw, 0, cells);
    }
  }

  // test_client_extensionobj.lua: decode the raw data, encode the table, compare.
  method Reencode(lua: LuaState, db: TypeCache, raw: seq<byte>, typeName: Text) returns (matches: bool)
    requires db.Valid() && Mentioned(db.log, typeName)
    requires var node := OrEmpty(LastAdded(db.log, typeName));
             && IsValid(node.item) && WellFormed(node)
             && Throughout(LeavesNoGap, node) && Throughout(HasWriter, node)
             && DecodeStruct(node, raw, 0).Got?
             && |EncodeStruct(node, Table(DecodeStruct(node, raw, 0).value))| <= 8192
    modifies lua, db
    ensures var node := OrEmpty(LastAdded(old(db.log), typeName));
            && (matches <==> raw != [] && CanonicalStruct(node, raw, 0) && DecodeStruct(node, raw, 0).next == |raw|)
            && lua.stack == old(lua.stack) + [Str(node.item.itemName)]
  {
    var known := db.HasTypeByName(typeName);
    var node := db.FindTypeByName(typeName);
    assert known && node == OrEmpty(LastAdded(old(db.log), typeName)) by { LogStep(old(db.log), Op.Has(typeName)); }
    var x := DeserializeTable(lua, node, raw);
    ThroughoutGivesRule(HasWriter, SupportedRule, node, x);
    ByteRoundTrip.ByteRoundTrip(node, raw, 0);
    var again := SerializeRegular(lua, node, x);
    ZeroIffWeightless(node, x);
    if again.Some? {
      ReencodedEquals(node, raw, again.value);
      matches := again.value == raw;
    } else {
      matches := false;
    }
  }
}
