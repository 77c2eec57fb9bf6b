// _getTypeDef, which builds a table describing a type, and _dump_table, which
// prints a table: both work on the Lua stack and must leave it in order.
module TableWalkers {
  import opened ByteRoundTrip
  import opened Deserializer
  import opened LuaStack
  import opened LuaValues
  import opened Symbols
  import opened Wrappers

  // ------------------------------------------------------ _getTypeDef

  // The entries _pushTypeDef sets, for a valid type.
  function InfoEntries(item: TypeInfo): Fields
  {
    if !IsValid(item) then map[]
    else map[
      Name(Ascii("_type")) := Str(item.itemType),
      Name(Ascii("_encoding")) := Str(item.itemEncoding),
      Name(Ascii("_typeid")) := Integer(RawType(item)),
      Name(Ascii("_flags")) := Integer(item.flags),
      Name(Ascii("_offset")) := Integer(item.offset)]
  }

  function TypeDef(node: TypeNode): Fields
    decreases node, 0
  {
    TypeDefFields(node.children, InfoEntries(node.item))
  }

  function TypeDefFields(fs: seq<TypeNode>, acc: Fields): Fields
    decreases fs
  {
    if fs == [] then acc
    else TypeDefFields(fs[1..], acc[Name(fs[0].item.itemName) := Table(TypeDefField(fs[0]))])
  }

  function TypeDefField(f: TypeNode): Fields
    decreases f, 1
  {
    if IsStruct(f) then TypeDef(f) else InfoEntries(f.item)
  }

  method SetField(lua: LuaState, name: Text, v: Value)
    requires Top(lua.stack).Table? && !v.Nil?
    modifies lua
    ensures lua.stack == WithEntry(old(lua.stack), Name(name), v)
  {
    lua.Push(Str(name));
    lua.Push(v);
    PutEntry(old(lua.stack), Name(name), v);
    assert lua.stack == old(lua.stack) + [KeyValue(Name(name)), v];
    lua.SetTable();
  }

  method PushTypeDef(lua: LuaState, item: TypeInfo)
    requires Top(lua.stack) == Table(map[])
    modifies lua
    ensures lua.stack == Drop(old(lua.stack), 1) + [Table(InfoEntries(item))]
  {
    if !IsValid(item) {
      return;
    }
    SetField(lua, Ascii("_type"), Str(item.itemType));
    SetField(lua, Ascii("_encoding"), Str(item.itemEncoding));
    SetField(lua, Ascii("_typeid"), Integer(RawType(item)));
    SetField(lua, Ascii("_flags"), Integer(item.flags));
    SetField(lua, Ascii("_offset"), Integer(item.offset));
    assert Top(lua.stack).fields == InfoEntries(item);
  }

  method GetLeafDef(lua: LuaState, tn: TypeNode)
    requires !IsStruct(tn) && Top(lua.stack).Table?
    modifies lua
    ensures lua.stack == WithEntry(old(lua.stack), Name(tn.item.itemName), Table(TypeDefField(tn)))
  {
    hide InfoEntries;
    lua.Push(Str(tn.item.itemName));
    lua.Push(Table(map[]));
    PushTypeDef(lua, tn.item);
    var v := Table(InfoEntries(tn.item));
    assert lua.stack == old(lua.stack) + [KeyValue(Name(tn.item.itemName)), v];
    PutEntry(old(lua.stack), Name(tn.item.itemName), v);
    lua.SetTable();
  }

  method GetTypeDef(lua: LuaState, node: TypeNode, isRoot: bool)
    requires !isRoot ==> Top(lua.stack).Table?
    modifies lua
    ensures var name := node.item.itemName;
            lua.stack == if isRoot then old(lua.stack) + [Str(name), Table(TypeDef(node))]
                       else WithEntry(old(lua.stack), Name(name), Table(TypeDef(node)))
    decreases node
  {
    hide InfoEntries;
    var name := node.item.itemName;
    ghost var base := lua.stack + [Str(name)];
    ghost var acc := InfoEntries(node.item);
    lua.Push(Str(name));
    lua.Push(Table(map[]));
    PushTypeDef(lua, node.item);
    var i := 0;
    while i < |node.children|
      invariant 0 <= i <= |node.children|
      invariant lua.stack == base + [Table(acc)]
      invariant TypeDefFields(node.children[i..], acc) == TypeDef(node)
    {
      var tn := node.children[i];
      assert node.children[i..][0] == tn && node.children[i..][1..] == node.children[i + 1..];
      acc := acc[Name(tn.item.itemName) := Table(TypeDefField(tn))];
      if IsStruct(tn) {
        GetTypeDef(lua, tn, false);
      } else {
        GetLeafDef(lua, tn);
      }
      assert lua.stack == base + [Table(acc)];
      i := i + 1;
    }
    assert lua.stack == old(lua.stack) + [KeyValue(Name(name)), Table(TypeDef(node))];
    if !isRoot {
      PutEntry(old(lua.stack), Name(name), Table(TypeDef(node)));
      lua.SetTable();
    }
  }

  // The table has one entry per field, describing it, besides the type's own;
  // a field called like one of those hides it.
  lemma {:induction false} TypeDefEntries(fs: seq<TypeNode>, acc: Fields)
    requires DistinctNames(fs)
    ensures var t := TypeDefFields(fs, acc);
            && (forall f :: f in fs ==> Get(t, Name(f.item.itemName)) == Table(TypeDefField(f)))
            && (forall k :: (forall f :: f in fs ==> k != Name(f.item.itemName)) ==> Get(t, k) == Get(acc, k))
    decreases fs
  {
    if fs != [] {
      var f := fs[0];
      var key := Name(f.item.itemName);
      var acc' := acc[key := Table(TypeDefField(f))];
      TypeDefEntries(fs[1..], acc');
      assert forall g :: g in fs <==> g == f || g in fs[1..];
      assert Get(acc', key) == Table(TypeDefField(f));
    }
  }

  // The five entries of a valid type itself, where no field has their names.
  lemma TypeDefInfo(node: TypeNode)
    requires IsValid(node.item) && DistinctNames(node.children)
    requires forall f :: f in node.children ==> f.item.itemName !in InfoNames
    ensures DescribesItem(TypeDef(node), node.item)
  {
    TypeDefEntries(node.children, InfoEntries(node.item));
    InfoKeysDiffer();
  }

  // A field that is no structure is described by these entries alone, and by
  // none if it is not valid.
  lemma LeafDefInfo(f: TypeNode)
    requires f.item.kind.Leaf?
    ensures IsValid(f.item) ==> DescribesItem(TypeDefField(f), f.item)
    ensures forall k :: k in TypeDefField(f) ==> IsValid(f.item) && k.Name? && k.s in InfoNames
  {
    InfoKeysDiffer();
  }

  // A field that is a structure is described like a type.
  lemma StructDefInfo(f: TypeNode)
    requires !f.item.kind.Leaf?
    ensures TypeDefField(f) == TypeDef(f)
  {}

  const InfoNames: set<Text> :=
    {Ascii("_type"), Ascii("_encoding"), Ascii("_typeid"), Ascii("_flags"), Ascii("_offset")}

  predicate DescribesItem(t: Fields, item: TypeInfo)
  {
    && Get(t, Name(Ascii("_type"))) == Str(item.itemType)
    && Get(t, Name(Ascii("_encoding"))) == Str(item.itemEncoding)
    && Get(t, Name(Ascii("_typeid"))) == Integer(RawType(item))
    && Get(t, Name(Ascii("_flags"))) == Integer(item.flags)
    && Get(t, Name(Ascii("_offset"))) == Integer(item.offset)
  }

  lemma InfoKeysDiffer()
    ensures Ascii("_type")[4] != Ascii("_typeid")[4] || |Ascii("_type")| != |Ascii("_typeid")|
    ensures |Ascii("_type")| == 5 && |Ascii("_encoding")| == 9 && |Ascii("_typeid")| == 7
    ensures |Ascii("_flags")| == 6 && |Ascii("_offset")| == 7 && Ascii("_typeid")[1] != Ascii("_offset")[1]
  {}

  // ------------------------------------------------------ _dump_table

  // The order in which lua_next visits the keys of a table.
  type Order = Fields -> seq<Key>

  ghost predicate IsOrder(order: Order)
  {
    forall t: Fields ::
      && (forall k :: k in order(t) <==> k in t)
      && (forall i, j :: 0 <= i < j < |order(t)| ==> order(t)[i] != order(t)[j])
  }

  // What is printed for a value that is no table. A boolean goes through
  // lua_tointeger, which is 0 for both of them.
  datatype Shown = ShownNumber(v: Value) | ShownBoolean(b: bool) | ShownText(s: Text)

  function Show(v: Value): Shown
  {
    match v
    case Integer(_) => ShownNumber(v)
    case Real(_) => ShownNumber(v)
    case Boolean(_) => ShownBoolean(false)
    case Str(s) => ShownText(s)
    case _ => ShownText(Ascii("(nil)"))
  }

  // Both booleans are printed as false; numbers and texts are told apart.
  lemma ShownValues(v: Value)
    ensures v.Boolean? ==> Show(v) == ShownBoolean(false)
    ensures v.Integer? || v.Real? ==> Show(v) == ShownNumber(v)
    ensures v.Str? ==> Show(v) == ShownText(v.s)
  {}

  datatype Line = Open(level: nat, key: Key) | Entry(level: nat, key: Key, shown: Shown) | Close(level: nat)

  // The printed lines: a nested table between an opening and a closing line.
  ghost function TableLines(order: Order, v: Value, level: nat): seq<Line>
    requires IsOrder(order)
    decreases v, 1
  {
    if v.Table? then KeyLines(order, v, order(v.fields), level) else []
  }

  ghost function KeyLines(order: Order, v: Value, keys: seq<Key>, level: nat): seq<Line>
    requires IsOrder(order) && v.Table? && forall k :: k in keys ==> k in v.fields
    decreases v, 0, |keys|
  {
    if keys == [] then []
    else
      EntryLines(order, keys[0], v.fields[keys[0]], level) + KeyLines(order, v, keys[1..], level)
  }

  ghost function EntryLines(order: Order, key: Key, x: Value, level: nat): seq<Line>
    requires IsOrder(order)
    decreases x, 2
  {
    if x.Table? then [Open(level, key)] + TableLines(order, x, level + 1) + [Close(level)]
        else [Entry(level, key, Show(x))]
  }

  // lua_next(L, -2) for a table visited in the given order; pos counts the
  // keys already visited.
  method NextIn(lua: LuaState, order: Order, ghost pos: nat) returns (more: bool)
    requires IsOrder(order) && |lua.stack| >= 2 && lua.stack[|lua.stack| - 2].Table?
    requires var keys := order(lua.stack[|lua.stack| - 2].fields);
             pos <= |keys| && Top(lua.stack) == if pos == 0 then Nil else KeyValue(keys[pos - 1])
    modifies lua
    ensures var below := Drop(old(lua.stack), 1); var keys := order(Top(below).fields);
            && (more <==> pos < |keys|)
            && lua.stack == below + if more then [KeyValue(keys[pos]), Top(below).fields[keys[pos]]] else []
  {
    var t := lua.stack[|lua.stack| - 2].fields;
    var keys := order(t);
    var i := 0;
    if !Top(lua.stack).Nil? {
      while KeyValue(keys[i]) != Top(lua.stack)
        invariant 0 <= i < pos
        decreases pos - i
      {
        i := i + 1;
      }
      i := i + 1;
    }
    assert i == pos;
    lua.Pop(1);
    more := i < |keys|;
    if more {
      assert keys[i] in t;
      lua.Push(KeyValue(keys[i]));
      lua.Push(t[keys[i]]);
    }
  }

  // The value at a stack index, counted from the top when negative.
  function At(s: Stack, index: int): Value
    requires 1 <= index <= |s| || 1 <= -index <= |s|
  {
    if index > 0 then s[index - 1] else s[|s| + index]
  }

  // Both ways of counting name the same place; -1 is the top, 1 the bottom.
  lemma IndexFromBothEnds(s: Stack, i: int)
    requires 1 <= i <= |s|
    ensures At(s, i) == At(s, i - |s| - 1) && At(s, -1) == Top(s) && At(s, 1) == s[0]
  {}

  lemma OrderOf(order: Order, t: Fields)
    requires IsOrder(order)
    ensures forall k :: k in order(t) ==> k in t
  {}

  lemma DropLast(s: Stack, v: Value)
    ensures Drop(s + [v], 1) == s
  {}

  // One key and value: the value and a copy of the key are popped, the key stays.
  method DumpEntry(lua: LuaState, order: Order, level: nat) returns (lines: seq<Line>)
    requires IsOrder(order) && |lua.stack| >= 2 && KeyOf(lua.stack[|lua.stack| - 2]).Some?
    modifies lua
    ensures lua.stack == Drop(old(lua.stack), 1)
    ensures lines == EntryLines(order, KeyOf(old(lua.stack)[|old(lua.stack)| - 2]).value, Top(old(lua.stack)), level)
    decreases Top(lua.stack), 2
  {
    lua.Push(At(lua.stack, -2));
    var key := KeyOf(At(lua.stack, -1)).value;
    var x := At(lua.stack, -2);
    if x.Table? {
      var nested := DumpTable(lua, order, -2, level + 1);
      lines := [Open(level, key)] + nested + [Close(level)];
    } else {
      lines := [Entry(level, key, Show(x))];
    }
    lua.Pop(2);
  }

  // The key loop, over the table below the nil it starts from.
  method DumpKeys(lua: LuaState, order: Order, level: nat) returns (lines: seq<Line>)
    requires IsOrder(order) && |lua.stack| >= 2 && Top(lua.stack) == Nil && lua.stack[|lua.stack| - 2].Table?
    modifies lua
    ensures lua.stack == Drop(old(lua.stack), 1)
    ensures lines == TableLines(order, Top(lua.stack), level)
    decreases lua.stack[|lua.stack| - 2], 0
  {
    hide EntryLines, KeyLines, IsOrder, Drop;
    ghost var below := Drop(lua.stack, 1);
    ghost var v := lua.stack[|lua.stack| - 2];
    ghost var keys := order(v.fields);
    ghost var pos := 0;
    DropLast(lua.stack[..|lua.stack| - 1], Nil);
    assert lua.stack == lua.stack[..|lua.stack| - 1] + [Nil];
    OrderOf(order, v.fields);
    lines := [];
    assert keys[0..] == keys;
    var more := NextIn(lua, order, 0);
    while more
      invariant pos <= |keys| && (more <==> pos < |keys|)
      invariant lua.stack == below + if more then [KeyValue(keys[pos]), v.fields[keys[pos]]] else []
      invariant lines + KeyLines(order, v, keys[pos..], level) == TableLines(order, v, level)
      decreases |keys| - pos
    {
      KeyLinesStep(order, v, keys, pos, level);
      ghost var held := below + [KeyValue(keys[pos])];
      DropLast(held, v.fields[keys[pos]]);
      DropLast(below, KeyValue(keys[pos]));
      assert lua.stack == held + [v.fields[keys[pos]]];
      var entry := DumpEntry(lua, order, level);
      lines := lines + entry;
      pos := pos + 1;
      more := NextIn(lua, order, pos);
    }
    NoKeyLines(order, v, level);
    assert keys[pos..] == [];
  }

  lemma KeyLinesStep(order: Order, v: Value, keys: seq<Key>, pos: nat, level: nat)
    requires IsOrder(order) && v.Table? && pos < |keys| && forall k :: k in keys ==> k in v.fields
    ensures KeyLines(order, v, keys[pos..], level) ==
            EntryLines(order, keys[pos], v.fields[keys[pos]], level) + KeyLines(order, v, keys[pos + 1..], level)
  {
    assert keys[pos..][0] == keys[pos] && keys[pos..][1..] == keys[pos + 1..];
  }

  lemma NoKeyLines(order: Order, v: Value, level: nat)
    requires IsOrder(order) && v.Table?
    ensures KeyLines(order, v, [], level) == []
  {}

  // Whatever the index and the nesting, the stack is restored.
  method DumpTable(lua: LuaState, order: Order, index: int, level: nat) returns (lines: seq<Line>)
    requires IsOrder(order) && (1 <= index <= |lua.stack| || 1 <= -index <= |lua.stack|)
    modifies lua
    ensures lua.stack == old(lua.stack)
    ensures lines == TableLines(order, At(lua.stack, index), level)
    decreases At(lua.stack, index), 1
  {
    hide TableLines, IsOrder;
    var v := At(lua.stack, index);
    if !v.Table? {
      NoLines(order, v, level);
      return [];
    }
    lua.Push(v);
    lua.Push(Nil);
    lines := DumpKeys(lua, order, level);
    lua.Pop(1);
  }

  lemma NoLines(order: Order, v: Value, level: nat)
    requires IsOrder(order) && !v.Table?
    ensures TableLines(order, v, level) == []
  {}

  // Of a table without nested tables one line is printed per key, in the order
  // of lua_next.
  lemma {:induction false} FlatLines(order: Order, v: Value, keys: seq<Key>, level: nat)
    requires IsOrder(order) && v.Table? && forall k :: k in keys ==> k in v.fields && !v.fields[k].Table?
    ensures KeyLines(order, v, keys, level)
         == seq(|keys|, i requires 0 <= i < |keys| => Entry(level, keys[i], Show(v.fields[keys[i]])))
    decreases keys
  {
    if keys != [] {
      FlatLines(order, v, keys[1..], level);
    }
  }

  // The level after some lines: an opening line stands at the level it leaves,
  // an entry at the current one, a closing line at the one it returns to.
  function LevelAfter(lines: seq<Line>, level: nat): Option<nat>
  {
    if lines == [] then Some(level)
    else match lines[0]
      case Open(n, _) => if n == level then LevelAfter(lines[1..], level + 1) else None
      case Entry(n, _, _) => if n == level then LevelAfter(lines[1..], level) else None
      case Close(n) => if n + 1 == level then LevelAfter(lines[1..], n) else None
  }

  lemma {:induction false} LevelConcat(a: seq<Line>, b: seq<Line>, level: nat)
    requires LevelAfter(a, level).Some?
    ensures LevelAfter(a + b, level) == LevelAfter(b, LevelAfter(a, level).value)
    decreases a
  {
    if a == [] {
      assert a + b == b;
    } else {
      assert (a + b)[1..] == a[1..] + b;
      LevelConcat(a[1..], b, match a[0] case Open(_, _) => level + 1 case Entry(_, _, _) => level case Close(n) => n);
    }
  }

  // The lines of a table are nested properly and return to their level.
  lemma {:induction false} LinesAreNested(order: Order, v: Value, level: nat)
    requires IsOrder(order)
    ensures LevelAfter(TableLines(order, v, level), level) == Some(level)
    decreases v, 1
  {
    if v.Table? {
      KeyLinesAreNested(order, v, order(v.fields), level);
    }
  }

  lemma {:induction false} KeyLinesAreNested(order: Order, v: Value, keys: seq<Key>, level: nat)
    requires IsOrder(order) && v.Table? && forall k :: k in keys ==> k in v.fields
    ensures LevelAfter(KeyLines(order, v, keys, level), level) == Some(level)
    decreases v, 0, |keys|
  {
    hide Show, IsOrder;
    if keys != [] {
      var x := v.fields[keys[0]];
      var first := EntryLines(order, keys[0], x, level);
      if x.Table? {
        LinesAreNested(order, x, level + 1);
        var nested := TableLines(order, x, level + 1);
        assert first == [Open(level, keys[0])] + (nested + [Close(level)]);
        LevelConcat(nested, [Close(level)], level + 1);
      }
      LevelConcat(first, KeyLines(order, v, keys[1..], level), level);
      KeyLinesAreNested(order, v, keys[1..], level);
    }
  }

  // All lines of a table stand at the given level or further in. At the level
  // itself there is an opening line for each key of a nested table, and an
  // entry for each other key.
  lemma {:induction false} OwnLines(order: Order, v: Value, keys: seq<Key>, level: nat)
    requires IsOrder(order) && v.Table? && forall k :: k in keys ==> k in v.fields
    ensures var lines := KeyLines(order, v, keys, level);
            && (forall line :: line in lines ==> line.level >= level)
            && (forall k :: Open(level, k) in lines <==> k in keys && v.fields[k].Table?)
            && (forall k, shown :: Entry(level, k, shown) in lines <==>
                                     k in keys && !v.fields[k].Table? && shown == Show(v.fields[k]))
    decreases v, |keys|
  {
    hide Show, IsOrder;
    if keys != [] {
      var x := v.fields[keys[0]];
      OwnEntryLines(order, keys[0], x, level);
      OwnLines(order, v, keys[1..], level);
    }
  }

  lemma OwnEntryLines(order: Order, key: Key, x: Value, level: nat)
    requires IsOrder(order)
    ensures var lines := EntryLines(order, key, x, level);
            && (forall line :: line in lines ==> line.level >= level)
            && (forall k :: Open(level, k) in lines <==> k == key && x.Table?)
            && (forall k, shown :: Entry(level, k, shown) in lines <==> k == key && !x.Table? && shown == Show(x))
    decreases x
  {
    hide Show, IsOrder;
    if x.Table? {
      OrderOf(order, x.fields);
      OwnLines(order, x, order(x.fields), level + 1);
      var nested := TableLines(order, x, level + 1);
      assert forall line :: line in EntryLines(order, key, x, level) <==>
          line == Open(level, key) || line in nested || line == Close(level);
    }
  }
}
