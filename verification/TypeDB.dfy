// The type cache: a map from type names to descriptions whose lookup inserts.
module TypeDB {
  import opened LuaValues
  import opened Symbols
  import opened Wrappers

  datatype Op = Add(varName: Text, node: TypeNode) | Find(itemType: Text) | Has(itemType: Text) | Clear

  // ------------------------------------------------------ what the log says

  // The description added last under t since the last Clear.
  function LastAdded(log: seq<Op>, t: Text): Option<TypeNode>
  {
    if log == [] then None
    else
      var older := log[..|log| - 1];
      match log[|log| - 1]
      case Clear => None
      case Add(_, node) => if node.item.itemType == t then Some(node) else LastAdded(older, t)
      case _ => LastAdded(older, t)
  }

  // t was added or looked up since the last Clear.
  predicate Mentioned(log: seq<Op>, t: Text)
  {
    if log == [] then false
    else
      var older := log[..|log| - 1];
      match log[|log| - 1]
      case Clear => false
      case Add(_, node) => node.item.itemType == t || Mentioned(older, t)
      case Find(s) => s == t || Mentioned(older, t)
      case Has(_) => Mentioned(older, t)
  }

  // The type name recorded last for a variable; Clear does not forget it.
  function LastTypeOf(log: seq<Op>, varName: Text): Option<Text>
  {
    if log == [] then None
    else
      var older := log[..|log| - 1];
      match log[|log| - 1]
      case Add(v, node) => if v == varName then Some(node.item.itemType) else LastTypeOf(older, varName)
      case _ => LastTypeOf(older, varName)
  }

  function OrEmpty(n: Option<TypeNode>): TypeNode
  {
    match n
    case Some(node) => node
    case None => EMPTY_NODE
  }

  lemma AddedIsMentioned(log: seq<Op>, t: Text)
    ensures LastAdded(log, t).Some? ==> Mentioned(log, t)
  {}

  lemma LogStep(log: seq<Op>, op: Op)
    ensures (log + [op])[..|log + [op]| - 1] == log && (log + [op])[|log + [op]| - 1] == op
  {}

  // ------------------------------------------------------ the cache

  class TypeCache {
    var types: map<Text, TypeNode>
    var vars: map<Text, Text>
    ghost var log: seq<Op>

    // The maps hold exactly what the log of calls says.
    ghost predicate Valid()
      reads this
    {
      && (forall t :: t in types <==> Mentioned(log, t))
      && (forall t :: t in types ==> types[t] == OrEmpty(LastAdded(log, t)))
      && (forall v :: v in vars <==> LastTypeOf(log, v).Some?)
      && (forall v :: v in vars ==> vars[v] == LastTypeOf(log, v).value)
    }

    constructor ()
      ensures Valid() && log == []
    {
      types := map[];
      vars := map[];
      log := [];
    }

    // operator[] on the map: a miss inserts a default node.
    method FindTypeByName(itemType: Text) returns (node: TypeNode)
      requires Valid()
      modifies this
      ensures Valid() && log == old(log) + [Op.Find(itemType)]
      ensures node == OrEmpty(LastAdded(old(log), itemType))
    {
      LogStep(log, Op.Find(itemType));
      AddedIsMentioned(log, itemType);
      if itemType !in types {
        types := types[itemType := EMPTY_NODE];
      }
      node := types[itemType];
      log := log + [Op.Find(itemType)];
    }

    method HasTypeByName(itemType: Text) returns (found: bool)
      requires Valid()
      modifies this
      ensures Valid() && log == old(log) + [Op.Has(itemType)]
      ensures found <==> Mentioned(old(log), itemType)
    {
      LogStep(log, Op.Has(itemType));
      found := itemType in types;
      log := log + [Op.Has(itemType)];
    }

    method Add(varName: Text, node: TypeNode)
      requires Valid()
      modifies this
      ensures Valid() && log == old(log) + [Op.Add(varName, node)]
    {
      LogStep(log, Op.Add(varName, node));
      vars := vars[varName := node.item.itemType];
      types := types[node.item.itemType := node];
      log := log + [Op.Add(varName, node)];
    }

    method Clear()
      requires Valid()
      modifies this
      ensures Valid() && log == old(log) + [Op.Clear]
    {
      LogStep(log, Op.Clear);
      types := map[];
      log := log + [Op.Clear];
    }
  }

  // ------------------------------------------------------ properties of the log

  // A description was found at position i of the log and counts until today.
  predicate AddedAt(log: seq<Op>, t: Text, i: nat, node: TypeNode)
  {
    && i < |log| && log[i].Add? && log[i].node == node && node.item.itemType == t
    && forall j :: i < j < |log| ==> !log[j].Clear? && !(log[j].Add? && log[j].node.item.itemType == t)
  }

  // The last description is the one of the Add after which there is neither
  // another Add of the name nor a Clear.
  lemma {:induction false} LastAddedIff(log: seq<Op>, t: Text, node: TypeNode)
    ensures LastAdded(log, t) == Some(node) <==> exists i :: AddedAt(log, t, i, node)
  {
    if log != [] {
      var n := |log| - 1;
      var older := log[..n];
      LastAddedIff(older, t, node);
      if log[n].Add? && log[n].node.item.itemType == t {
        assert log[n].node == node ==> AddedAt(log, t, n, node);
      } else if !log[n].Clear? {
        forall i: nat
          ensures AddedAt(older, t, i, node) <==> AddedAt(log, t, i, node)
        {
          assert i < n ==> older[i] == log[i];
          assert AddedAt(log, t, i, node) ==> forall j :: i < j < n ==> older[j] == log[j];
        }
      }
    }
  }

  // The same for variables, which Clear leaves alone.
  predicate TypedAt(log: seq<Op>, varName: Text, i: nat, itemType: Text)
  {
    && i < |log| && log[i].Add? && log[i].varName == varName && log[i].node.item.itemType == itemType
    && forall j :: i < j < |log| ==> !(log[j].Add? && log[j].varName == varName)
  }

  lemma {:induction false} LastTypeOfIff(log: seq<Op>, varName: Text, itemType: Text)
    ensures LastTypeOf(log, varName) == Some(itemType) <==> exists i :: TypedAt(log, varName, i, itemType)
  {
    if log != [] {
      var n := |log| - 1;
      var older := log[..n];
      LastTypeOfIff(older, varName, itemType);
      if log[n].Add? && log[n].varName == varName {
        assert log[n].node.item.itemType == itemType ==> TypedAt(log, varName, n, itemType);
      } else {
        forall i: nat
          ensures TypedAt(older, varName, i, itemType) <==> TypedAt(log, varName, i, itemType)
        {
          assert i < n ==> older[i] == log[i];
          assert TypedAt(log, varName, i, itemType) ==> forall j :: i < j < n ==> older[j] == log[j];
        }
      }
    }
  }

  predicate MentionedAt(log: seq<Op>, t: Text, i: nat)
  {
    && i < |log|
    && ((log[i].Add? && log[i].node.item.itemType == t) || log[i] == Op.Find(t))
    && forall j :: i < j < |log| ==> !log[j].Clear?
  }

  // Known names are exactly those of Add and Find calls with no later Clear.
  lemma {:induction false} MentionedIff(log: seq<Op>, t: Text)
    ensures Mentioned(log, t) <==> exists i :: MentionedAt(log, t, i)
  {
    if log != [] {
      var n := |log| - 1;
      var older := log[..n];
      MentionedIff(older, t);
      assert (log[n].Add? && log[n].node.item.itemType == t) || log[n] == Op.Find(t) ==> MentionedAt(log, t, n);
      if !log[n].Clear? {
        forall i: nat | i < n
          ensures MentionedAt(older, t, i) <==> MentionedAt(log, t, i)
        {
          assert older[i] == log[i];
          assert forall j :: i < j < n ==> older[j] == log[j];
        }
        if Mentioned(older, t) {
          var i :| MentionedAt(older, t, i);
          assert MentionedAt(log, t, i);
        }
      }
    }
  }

  // A lookup that misses makes the name known, with an invalid description.
  lemma FindMakesKnown(log: seq<Op>, t: Text)
    requires !Mentioned(log, t)
    ensures Mentioned(log + [Op.Find(t)], t)
    ensures !IsValid(OrEmpty(LastAdded(log + [Op.Find(t)], t)).item)
  {
    LogStep(log, Op.Find(t));
    AddedIsMentioned(log, t);
  }
}
