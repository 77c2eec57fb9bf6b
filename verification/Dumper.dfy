// _dump, the third walker: it has a size table of its own and follows the
// buffer without decoding values.
module Dumper {
  import opened Bytes
  import opened Codec
  import opened Leaves
  import opened LuaValues
  import opened Symbols
  import opened Wrappers

  // The sizes _GetOpcuaTypeSize knows for types without a length word.
  function TableSize(t: LeafType): nat
  {
    match t
    case Bool8 => 1
    case UInt8 => 1
    case SInt8 => 1
    case UInt16 => 2
    case SInt16 => 2
    case UInt32 => 4
    case SInt32 => 4
    case UInt64 => 8
    case SInt64 => 8
    case Float => 4
    case Double => 8
    case _ => 0
  }

  // The size of a leaf at an address. A length is added to 4 as an unsigned
  // word, so the sum wraps, and is then taken as an int; None where the word
  // lies outside the buffer or the int is negative.
  function OpcuaTypeSize(t: LeafType, bytes: seq<byte>, addr: nat): (r: Option<nat>)
  {
    if t != StringL4 && t != StringFix then Some(TableSize(t))
    else if addr + 4 > |bytes| then None
    else
      var size := WrapSigned(Word(bytes, addr) + 4, 4);
      if size < 0 then None else Some(size)
  }

  // The size table gives each type without a length word its own width; a
  // byte string and a GUID it does not know.
  lemma SizesAreWidths(t: LeafType, bytes: seq<byte>, addr: nat)
    ensures t !in {StringL4, StringFix, Guid} ==> OpcuaTypeSize(t, bytes, addr) == Some(DefaultDataSize(t))
    ensures t in {UInt64, SInt64} ==> OpcuaTypeSize(t, bytes, addr) == Some(8)
    ensures t in {ByteString, Guid} ==> OpcuaTypeSize(t, bytes, addr) == Some(0)
    ensures DefaultDataSize(Guid) == 16
    ensures Supported(t) && !IsText(t) ==> OpcuaTypeSize(t, bytes, addr) == Some(Width(t))
  {}

  function SkipLeaf(t: LeafType, bytes: seq<byte>, addr: nat): Option<nat>
  {
    match OpcuaTypeSize(t, bytes, addr)
    case None => None
    case Some(len) => Some(addr + len)
  }

  function SkipStruct(node: TypeNode, bytes: seq<byte>, addr: nat): Option<nat>
    decreases node, 0
  {
    SkipFields(node.children, bytes, addr + node.item.offset)
  }

  function SkipFields(fs: seq<TypeNode>, bytes: seq<byte>, addr: nat): Option<nat>
    decreases fs
  {
    if fs == [] then Some(addr)
    else match SkipField(fs[0], bytes, addr)
      case None => None
      case Some(next) => SkipFields(fs[1..], bytes, next)
  }

  function SkipField(f: TypeNode, bytes: seq<byte>, addr: nat): Option<nat>
    decreases f, 3
  {
    if !f.item.isArray then SkipElem(f, bytes, addr)
    else if addr + 4 > |bytes| then None
    else SkipElems(f, bytes, addr + 4, 0, IntWord(bytes, addr))
  }

  function SkipElems(f: TypeNode, bytes: seq<byte>, addr: nat, i: nat, count: int): Option<nat>
    decreases f, 2, count - i
  {
    if i >= count then Some(addr)
    else match SkipElem(f, bytes, addr)
      case None => None
      case Some(next) => SkipElems(f, bytes, next, i + 1, count)
  }

  function SkipElem(f: TypeNode, bytes: seq<byte>, addr: nat): Option<nat>
    decreases f, 1
  {
    match f.item.kind
    case Leaf(t) => SkipLeaf(t, bytes, addr)
    case _ => SkipStruct(f, bytes, addr)
  }

  // ------------------------------------------------------ the method

  method Dump(node: TypeNode, buf: seq<byte>, offset0: nat) returns (offset: nat)
    requires SkipStruct(node, buf, offset0).Some?
    ensures offset == SkipStruct(node, buf, offset0).value
    decreases node, 0
  {
    hide OpcuaTypeSize;
    ghost var all := SkipStruct(node, buf, offset0);
    offset := offset0 + node.item.offset;
    var pBuf := offset;
    var i := 0;
    while i < |node.children|
      invariant 0 <= i <= |node.children|
      invariant pBuf == offset
      invariant SkipFields(node.children[i..], buf, offset) == all
    {
      var tn := node.children[i];
      assert node.children[i..][0] == tn && node.children[i..][1..] == node.children[i + 1..];
      ghost var field := SkipField(tn, buf, offset);
      var count := 1;
      if tn.item.isArray {
        count := IntWord(buf, pBuf);
        offset := offset + 4;
        pBuf := pBuf + 4;
      }
      assert SkipElems(tn, buf, offset, 0, count) == field by {
        var elem := SkipElem(tn, buf, offset);
        assert elem.Some? ==> SkipElems(tn, buf, elem.value, 1, 1) == elem;
      }
      var iSeq := 0;
      while iSeq < count
        invariant 0 <= iSeq
        invariant pBuf == offset
        invariant SkipElems(tn, buf, offset, iSeq, count) == field
        decreases count - iSeq
      {
        if IsStruct(tn) {
          offset := Dump(tn, buf, offset);
          pBuf := offset;
        } else {
          var len := OpcuaTypeSize(tn.item.kind.leaf, buf, pBuf).value;
          offset := offset + len;
          pBuf := pBuf + len;
        }
        iSeq := iSeq + 1;
      }
      i := i + 1;
    }
  }

  // ------------------------------------------------------ agreement with deserialize

  // Leaves on which both walkers advance alike.
  predicate SameSize(item: TypeInfo, t: LeafType)
  {
    if Supported(t) then t != ByteString && (IsText(t) || item.dataSize == Width(t))
    else t in {Undefined, LeafType.DateTime, Guid}
  }

  lemma SizeOfText(bytes: seq<byte>, addr: nat)
    requires addr + 4 <= |bytes| && 0 <= IntWord(bytes, addr) < 0x7FFF_FFFC
    ensures OpcuaTypeSize(StringL4, bytes, addr) == OpcuaTypeSize(StringFix, bytes, addr)
         == Some(IntWord(bytes, addr) + 4)
  {
    hide Unsigned;
    assert Pow256(4) == 0x1_0000_0000;
    WrapInRange(Word(bytes, addr) + 4, 4);
  }

  // A fixed string, which has no reader, is passed over in place only when its
  // length word wraps the size to 0.
  lemma SizeZero(bytes: seq<byte>, addr: nat)
    requires addr + 4 <= |bytes|
    ensures OpcuaTypeSize(StringFix, bytes, addr) == Some(0) <==> Word(bytes, addr) == 0xFFFF_FFFC
  {
    hide Unsigned;
    assert Pow256(4) == 0x1_0000_0000;
    var n := Word(bytes, addr) + 4;
    if n < 0x1_0000_0000 {
      ModuloUnique(n, 0x1_0000_0000, 0, n);
    } else {
      ModuloUnique(n, 0x1_0000_0000, 1, n - 0x1_0000_0000);
    }
  }

  lemma SkipLeafAgreesIff(item: TypeInfo, t: LeafType, bytes: seq<byte>, addr: nat)
    requires DecodeLeaf(item, t, bytes, addr).Got?
    ensures SkipLeaf(t, bytes, addr) == Some(DecodeLeaf(item, t, bytes, addr).next) <==>
            SameSize(item, t) || (t == StringFix && addr + 4 <= |bytes| && Word(bytes, addr) == 0xFFFF_FFFC)
  {
    hide Unsigned, WrapSigned;
    if t == StringL4 {
      SizeOfText(bytes, addr);
    } else if t == StringFix && addr + 4 <= |bytes| {
      SizeZero(bytes, addr);
    }
  }

  predicate SameSizes(node: TypeNode)
    decreases node, 0
  {
    forall f :: f in node.children ==> SameSizesField(f)
  }

  predicate SameSizesField(f: TypeNode)
    decreases f, 1
  {
    match f.item.kind
    case Leaf(t) => SameSize(f.item, t)
    case _ => SameSizes(f)
  }

  // Both walkers end at the same address on every buffer that decodes.
  lemma {:induction false} DumpFollowsDeserialize(node: TypeNode, bytes: seq<byte>, addr: nat)
    requires SameSizes(node) && DecodeStruct(node, bytes, addr).Got?
    ensures SkipStruct(node, bytes, addr) == Some(DecodeStruct(node, bytes, addr).next)
    decreases node, 0
  {
    FieldsFollow(node.children, bytes, addr + node.item.offset, map[]);
  }

  lemma {:induction false} FieldsFollow(fs: seq<TypeNode>, bytes: seq<byte>, addr: nat, acc: Fields)
    requires forall f :: f in fs ==> SameSizesField(f)
    requires DecodeFields(fs, bytes, addr, acc).Got?
    ensures SkipFields(fs, bytes, addr) == Some(DecodeFields(fs, bytes, addr, acc).next)
    decreases fs
  {
    if fs != [] {
      var r := DecodeField(fs[0], bytes, addr);
      FieldFollows(fs[0], bytes, addr);
      FieldsFollow(fs[1..], bytes, r.next, acc[Name(fs[0].item.itemName) := r.value]);
    }
  }

  lemma {:induction false} FieldFollows(f: TypeNode, bytes: seq<byte>, addr: nat)
    requires SameSizesField(f) && DecodeField(f, bytes, addr).Got?
    ensures SkipField(f, bytes, addr) == Some(DecodeField(f, bytes, addr).next)
    decreases f, 3
  {
    if f.item.isArray {
      ElemsFollow(f, bytes, addr + 4, 0, IntWord(bytes, addr), map[]);
    } else {
      ElemFollows(f, bytes, addr);
    }
  }

  lemma {:induction false} ElemsFollow(f: TypeNode, bytes: seq<byte>, addr: nat, i: nat, count: int, acc: Fields)
    requires SameSizesField(f) && DecodeElems(f, bytes, addr, i, count, acc).Got?
    ensures SkipElems(f, bytes, addr, i, count) == Some(DecodeElems(f, bytes, addr, i, count, acc).next)
    decreases f, 2, count - i
  {
    hide DecodeElem, SkipElem, SameSizesField;
    if i < count {
      var r := DecodeElem(f, bytes, addr);
      ElemFollows(f, bytes, addr);
      ElemsFollow(f, bytes, r.next, i + 1, count, acc[ElementKey(f, i) := r.value]);
    }
  }

  lemma {:induction false} ElemFollows(f: TypeNode, bytes: seq<byte>, addr: nat)
    requires SameSizesField(f) && DecodeElem(f, bytes, addr).Got?
    ensures SkipElem(f, bytes, addr) == Some(DecodeElem(f, bytes, addr).next)
    decreases f, 1
  {
    match f.item.kind
    case Leaf(t) => SkipLeafAgreesIff(f.item, t, bytes, addr);
    case _ => DumpFollowsDeserialize(f, bytes, addr);
  }
}
