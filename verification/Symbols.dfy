// The type descriptions of src/Symbols.h: one node per field, a tree per type.
module Symbols {
  import opened LuaValues

  datatype LeafType =
    | Undefined | Bool8 | UInt8 | SInt8 | UInt16 | SInt16 | UInt32 | SInt32
    | UInt64 | SInt64 | Float | Double | StringL4 | StringFix | DateTime | Guid | ByteString

  // The isStruct bit together with the type code. The two struct codes share
  // their numbers with Bool8 and UInt8; only the isStruct bit tells them apart.
  datatype Kind = StructFixed | StructOptFld | Leaf(leaf: LeafType)

  datatype TypeInfo = TypeInfo(
    itemName: Text,
    itemType: Text,
    itemEncoding: Text,
    kind: Kind,
    isArray: bool,
    dataSize: nat,
    arrayDimensions: seq<int>,
    flags: nat,
    offset: nat)

  datatype TypeNode = TypeNode(item: TypeInfo, children: seq<TypeNode>)

  function LeafCode(t: LeafType): nat
  {
    match t
    case Undefined => 0
    case Bool8 => 1
    case UInt8 => 2
    case SInt8 => 3
    case UInt16 => 4
    case SInt16 => 5
    case UInt32 => 6
    case SInt32 => 7
    case UInt64 => 8
    case SInt64 => 9
    case Float => 10
    case Double => 11
    case StringL4 => 12
    case StringFix => 13
    case DateTime => 14
    case Guid => 15
    case ByteString => 16
  }

  // DataType.raw: bit 0 isArray, bit 1 isStruct, the type code above.
  function RawType(item: TypeInfo): (raw: nat)
  {
    (if item.isArray then 1 else 0) +
    match item.kind
    case StructFixed => 2 + 4 * 1
    case StructOptFld => 2 + 4 * 2
    case Leaf(t) => 4 * LeafCode(t)
  }

  predicate IsValid(item: TypeInfo)
  {
    RawType(item) != 0
  }

  // The raw type tells apart kinds and array marks, and is 0 only for a plain
  // undefined leaf.
  lemma RawTypeDetermines(a: TypeInfo, b: TypeInfo)
    ensures RawType(a) == RawType(b) <==> a.kind == b.kind && a.isArray == b.isArray
    ensures IsValid(a) <==> a.isArray || a.kind != Leaf(Undefined)
    ensures RawType(a) % 2 == (if a.isArray then 1 else 0) && RawType(a) / 2 % 2 == (if a.kind.Leaf? then 0 else 1)
  {}

  // The codes number the types in the order of their declaration.
  lemma CodesInOrder(t: LeafType)
    ensures LeafCode(t) < 17
    ensures [Undefined, Bool8, UInt8, SInt8, UInt16, SInt16, UInt32, SInt32, UInt64, SInt64, Float, Double,
             StringL4, StringFix, DateTime, Guid, ByteString][LeafCode(t)] == t
  {}

  predicate IsStruct(node: TypeNode)
  {
    !node.item.kind.Leaf?
  }

  // A default-constructed TypeNode, except for the members its constructor
  // leaves uninitialised, which are 0 here.
  const EMPTY_NODE: TypeNode :=
    TypeNode(TypeInfo([], [], [], Leaf(Undefined), false, 0, [], 0, 0), [])

  // The width TypeInfo::Set gives to a type when called with DataSize -1.
  function DefaultDataSize(t: LeafType): nat
  {
    match t
    case Bool8 => 1
    case UInt8 => 1
    case SInt8 => 1
    case UInt16 => 2
    case SInt16 => 2
    case UInt32 => 4
    case SInt32 => 4
    case Float => 4
    case UInt64 => 8
    case SInt64 => 8
    case Double => 8
    case Guid => 16
    case _ => 0
  }
}
