// The part of the Lua 5.1 C API the serializer uses. Tables have value
// semantics: the serializer never changes a table it can reach twice.
module LuaStack {
  import opened LuaValues

  type Stack = seq<Value>

  function Top(s: Stack): Value
  {
    if s == [] then Nil else s[|s| - 1]
  }

  function Drop(s: Stack, n: nat): Stack
    requires n <= |s|
  {
    s[..|s| - n]
  }

  class LuaState {
    var stack: Stack

    constructor ()
      ensures stack == []
    {
      stack := [];
    }

    method Push(v: Value)
      modifies this
      ensures stack == old(stack) + [v]
    {
      stack := stack + [v];
    }

    method Pop(n: nat)
      requires n <= |stack|
      modifies this
      ensures stack == Drop(old(stack), n)
    {
      stack := stack[..|stack| - n];
    }

    // lua_getfield(L, -1, name); anything but a table raises a Lua error.
    method GetField(name: Text)
      requires Top(stack).Table?
      modifies this
      ensures stack == old(stack) + [FieldOf(Top(old(stack)), name)]
    {
      stack := stack + [FieldOf(Top(stack), name)];
    }

    // lua_objlen(L, -1)
    method ObjLen() returns (n: nat)
      requires stack != [] && HasLength(Top(stack))
      ensures n == Length(Top(stack))
    {
      n := Length(Top(stack));
    }

    // lua_next(L, -2): pops a key and pushes the next pair, if there is one.
    method Next() returns (more: bool)
      requires |stack| >= 2 && CanStep(stack[|stack| - 2], Top(stack))
      modifies this
      ensures var below := Drop(old(stack), 1);
              match NextIndex(Top(below), Top(old(stack)))
              case Some(k) => more && stack == below + [Integer(k), Top(below).fields[Index(k)]]
              case None => !more && stack == below
    {
      var below := stack[..|stack| - 1];
      match NextIndex(Top(below), Top(stack)) {
        case Some(k) =>
          stack, more := below + [Integer(k), Top(below).fields[Index(k)]], true;
        case None =>
          stack, more := below, false;
      }
    }

    // lua_settable(L, -3): table, key, value.
    method SetTable()
      requires |stack| >= 3 && stack[|stack| - 3].Table? && KeyOf(stack[|stack| - 2]).Some?
      modifies this
      ensures var s := old(stack);
              stack == Drop(s, 3) + [Table(Set(s[|s| - 3].fields, KeyOf(s[|s| - 2]).value, Top(s)))]
    {
      var n := |stack|;
      stack := stack[..n - 3] + [Table(Set(stack[n - 3].fields, KeyOf(stack[n - 2]).value, stack[n - 1]))];
    }

    // lua_rawseti(L, -2, i): table, value.
    method RawSetI(i: int)
      requires |stack| >= 2 && stack[|stack| - 2].Table?
      modifies this
      ensures var s := old(stack);
              stack == Drop(s, 2) + [Table(Set(s[|s| - 2].fields, Index(i), Top(s)))]
    {
      var n := |stack|;
      stack := stack[..n - 2] + [Table(Set(stack[n - 2].fields, Index(i), stack[n - 1]))];
    }
  }
}
