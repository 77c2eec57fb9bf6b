// The Lua 5.1 values the codec handles, and the table operations of the C API.
module LuaValues {
  import opened Bytes
  import opened Wrappers

  type Text = seq<byte>

  // The table keys that occur: strings and integers.
  datatype Key = Name(s: Text) | Index(i: int)

  type Fields = map<Key, Value>

  // A number is an Integer or the opaque pattern of a stored float.
  datatype Value =
    | Nil
    | Boolean(b: bool)
    | Integer(n: int)
    | Real(pattern: seq<byte>)
    | Str(s: Text)
    | Table(fields: map<Key, Value>)

  function Ascii(s: string): (t: Text)
    ensures |t| == |s|
  {
    seq(|s|, i requires 0 <= i < |s| => s[i] as int % 256)
  }

  function KeyOf(v: Value): Option<Key>
  {
    match v
    case Str(s) => Some(Name(s))
    case Integer(n) => Some(Index(n))
    case _ => None
  }

  function KeyValue(k: Key): Value
  {
    match k
    case Name(s) => Str(s)
    case Index(i) => Integer(i)
  }

  function Get(t: Fields, k: Key): Value
  {
    if k in t then t[k] else Nil
  }

  // Assigning nil removes the key.
  function Set(t: Fields, k: Key, v: Value): Fields
  {
    if v.Nil? then t - {k} else t[k := v]
  }

  function FieldOf(v: Value, name: Text): Value
  {
    if v.Table? then Get(v.fields, Name(name)) else Nil
  }

  function ElementOf(v: Value, i: int): Value
  {
    if v.Table? then Get(v.fields, Index(i)) else Nil
  }

  // ------------------------------------------------------ length and order

  ghost function IndicesAbove(t: Fields, n: nat): set<Key>
  {
    set k | k in t && k.Index? && k.i > n
  }

  function BorderFrom(t: Fields, n: nat): (r: nat)
    ensures n <= r
    ensures forall i :: n < i <= r ==> Index(i) in t
    ensures Index(r + 1) !in t
    decreases IndicesAbove(t, n)
  {
    if Index(n + 1) in t then
      assert Index(n + 1) in IndicesAbove(t, n) && Index(n + 1) !in IndicesAbove(t, n + 1);
      BorderFrom(t, n + 1)
    else n
  }

  // The length lua_objlen reports for a table without holes.
  function Border(t: Fields): nat
  {
    BorderFrom(t, 0)
  }

  // The integer keys are exactly 1..Border(t).
  predicate NoHoles(t: Fields)
  {
    forall k :: k in t && k.Index? ==> 1 <= k.i <= Border(t)
  }

  // Without holes and without string keys: lua_next visits 1..Border(t) in order.
  predicate IsSequence(t: Fields)
  {
    NoHoles(t) && forall k :: k in t ==> k.Index?
  }

  lemma BorderIs(t: Fields, n: nat)
    requires forall i :: Index(i) in t <==> 1 <= i <= n
    ensures Border(t) == n && NoHoles(t)
  {
    assert Index(n + 1) !in t && Index(Border(t) + 1) !in t;
  }

  // lua_objlen, for the values where this model defines it.
  predicate HasLength(v: Value)
  {
    match v
    case Table(t) => NoHoles(t)
    case Integer(_) => false
    case Real(_) => false
    case _ => true
  }

  function Length(v: Value): nat
  {
    match v
    case Table(t) => Border(t)
    case Str(s) => |s|
    case _ => 0
  }

  // lua_next is defined on a sequence, after nil or after one of its keys.
  predicate CanStep(v: Value, key: Value)
  {
    v.Table? && IsSequence(v.fields) && (key.Nil? || (key.Integer? && 1 <= key.n <= Border(v.fields)))
  }

  function NextIndex(v: Value, key: Value): (r: Option<int>)
    requires CanStep(v, key)
    ensures r.Some? ==> Index(r.value) in v.fields
  {
    var i := if key.Nil? then 1 else key.n + 1;
    if i <= Border(v.fields) then Some(i) else None
  }

  // ------------------------------------------------------ numbers as text

  function Digits(n: nat): Text
  {
    if n < 10 then [n + 48] else Digits(n / 10) + [n % 10 + 48]
  }

  // lua_tolstring of an integer below 10^14 in magnitude.
  function Decimal(n: int): Text
  {
    if n < 0 then [45] + Digits(-n) else Digits(n)
  }
}
