// The round trips for plain types: those built from fields with default sizes,
// structures with offset 0, or 4 for optional fields, and arrays of leaves.
// Nothing has to be asked of the table or of the buffer's earlier content.
module PlainTypes {
  import opened Bounds
  import opened ByteRoundTrip
  import opened Bytes
  import opened Client
  import opened Codec
  import opened LuaValues
  import opened NormalForm
  import opened Schemas
  import opened Symbols

  // Values: the table read back encodes to the same bytes and is stable, and
  // every byte of the encoding is written.
  lemma PlainTypesKeepValues(node: TypeNode, x: Value)
    requires WellFormed(node) && Throughout(Plain, node) && InDomain(node, x)
    ensures EncodeStruct(node, Normalize(node, x)) == EncodeStruct(node, x)
    ensures Normalize(node, Normalize(node, x)) == Normalize(node, x)
    ensures NoGap(EncodeStruct(node, x))
  {
    ThroughoutGivesRule(Plain, LosslessRule, node, x);
    ThroughoutGivesRule(Plain, TightRule, node, x);
    StructReencode(node, x);
    NormalizeIdempotentIff(node, x);
    CoverageIffTight(node, x);
  }

  // Bytes: a buffer that decodes to its end is reproduced exactly when it is
  // canonical.
  lemma PlainTypesKeepBytes(node: TypeNode, raw: seq<byte>)
    requires WellFormed(node) && Throughout(Plain, node)
    requires DecodeStruct(node, raw, 0).Got? && DecodeStruct(node, raw, 0).next == |raw|
    ensures Fill(EncodeStruct(node, Table(DecodeStruct(node, raw, 0).value))) == raw <==> CanonicalStruct(node, raw, 0)
  {
    var cells := EncodeStruct(node, Table(DecodeStruct(node, raw, 0).value));
    Weaken(Plain, LeavesNoGap, node);
    Weaken(Plain, HasWriter, node);
    FillMatches(cells, []);
    assert Fill(cells) + [] == Fill(cells);
    ReencodedEquals(node, raw, Fill(cells));
  }
}
