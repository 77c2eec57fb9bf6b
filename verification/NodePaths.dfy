// Browsing by name: UA_Node_Finder, UA_Node::_getChild and UA_Node::getChild.
module NodePaths {
  import opened Bytes
  import opened LuaValues

  datatype NodeId = NodeId(ns: nat, identifier: Text)

  datatype Reference = Reference(target: NodeId, isInverse: bool, referenceType: NodeId)

  // What the server reports: the references of a node in callback order, and
  // the browse names and node classes that can be read.
  datatype Server = Server(
    references: map<NodeId, seq<Reference>>,
    browseNames: map<NodeId, Text>,
    classes: map<NodeId, int>)

  datatype Node = Node(id: NodeId, referenceType: NodeId, class_: int)

  const CLASS_UNSPECIFIED: int := 0
  const CLASS_OBJECT: int := 1

  function ReferencesOf(server: Server, id: NodeId): seq<Reference>
  {
    if id in server.references then server.references[id] else []
  }

  // ------------------------------------------------------ the searched name

  function IndexOf(s: Text, c: byte): (i: nat)
    ensures i <= |s| && c !in s[..i] && (i < |s| ==> s[i] == c)
  {
    if s == [] || s[0] == c then 0
    else
      var i := IndexOf(s[1..], c);
      assert s[..1 + i] == [s[0]] + s[1..][..i];
      1 + i
  }

  predicate IsBlank(c: byte)
  {
    c == 32 || 9 <= c <= 13
  }

  predicate IsDigit(c: byte)
  {
    48 <= c <= 57
  }

  function DigitsValue(s: Text, acc: nat): nat
  {
    if s == [] || !IsDigit(s[0]) then acc else DigitsValue(s[1..], 10 * acc + s[0] - 48)
  }

  function Clamp(n: int): int
  {
    if n > 0x7FFF_FFFF then 0x7FFF_FFFF else if n < -0x8000_0000 then -0x8000_0000 else n
  }

  // Formatted input of an int: blanks, a sign, digits; 0 without digits.
  function ReadInt(s: Text): int
  {
    if s == [] then 0
    else if IsBlank(s[0]) then ReadInt(s[1..])
    else if s[0] == 45 then Clamp(-(DigitsValue(s[1..], 0) as int))
    else if s[0] == 43 then Clamp(DigitsValue(s[1..], 0))
    else Clamp(DigitsValue(s, 0))
  }

  // The text up to the first NUL.
  function CString(s: Text): Text
  {
    s[..IndexOf(s, 0)]
  }

  datatype Query = Query(ns: int, name: Text)

  // "ns:name", or a name in the namespace of the parent.
  function ParseQuery(parent: NodeId, name: Text): Query
  {
    var i := IndexOf(name, 58);
    if i < |name| then Query(ReadInt(name[..i]), CString(name[i + 1..])) else Query(parent.ns, CString(name))
  }

  lemma {:induction false} IndexOfFirst(s: Text, c: byte, rest: Text)
    requires c !in s
    ensures IndexOf(s + [c] + rest, c) == |s|
    decreases s
  {
    var t := s + [c] + rest;
    if s != [] {
      assert t[0] == s[0] && t[1..] == s[1..] + [c] + rest;
      IndexOfFirst(s[1..], c, rest);
    }
  }

  lemma {:induction false} DigitsAreRead(n: nat, tail: Text)
    ensures forall c :: c in Digits(n) ==> IsDigit(c)
    ensures DigitsValue(Digits(n) + tail, 0) == DigitsValue(tail, n)
    decreases n
  {
    if n < 10 {
      assert ([n + 48] + tail)[1..] == tail;
    } else {
      var t := [n % 10 + 48] + tail;
      DigitsAreRead(n / 10, t);
      assert Digits(n) + tail == Digits(n / 10) + t;
      assert t[1..] == tail;
    }
  }

  lemma DecimalIsRead(n: int)
    ensures ReadInt(Decimal(n)) == Clamp(n) && 58 !in Decimal(n)
  {
    hide Digits;
    var m: nat := if n < 0 then -n else n;
    DigitsAreRead(m, []);
    assert Digits(m) + [] == Digits(m);
    if n < 0 {
      assert Decimal(n)[1..] == Digits(m);
    } else {
      DigitsNotEmpty(m);
      assert IsDigit(Digits(m)[0]);
    }
  }

  // Blanks before the number, a plus sign, and anything after its digits are
  // passed over.
  lemma {:induction false} PaddedIsRead(blanks: Text, plus: Text, n: int, tail: Text)
    requires forall c :: c in blanks ==> c in {9, 10, 11, 12, 13, 32}
    requires plus == [] || (plus == [43] && n >= 0)
    requires tail == [] || !(48 <= tail[0] <= 57)
    ensures ReadInt(blanks + plus + Decimal(n) + tail) == Clamp(n)
    decreases blanks
  {
    hide Digits, Decimal, Clamp;
    var s := blanks + plus + Decimal(n) + tail;
    if blanks != [] {
      assert s[0] == blanks[0] && s[0] in blanks;
      assert s[1..] == blanks[1..] + plus + Decimal(n) + tail;
      assert forall c :: c in blanks[1..] ==> c in blanks;
      PaddedIsRead(blanks[1..], plus, n, tail);
    } else {
      SignedIsRead(plus, n, tail);
      assert s == plus + Decimal(n) + tail;
    }
  }

  lemma SignedIsRead(plus: Text, n: int, tail: Text)
    requires plus == [] || (plus == [43] && n >= 0)
    requires tail == [] || !(48 <= tail[0] <= 57)
    ensures ReadInt(plus + Decimal(n) + tail) == Clamp(n)
  {
    hide ReadInt, Digits, DigitsValue, Clamp;
    var m: nat := if n < 0 then -n else n;
    var u := Digits(m) + tail;
    UnsignedIsRead(m, tail);
    if n < 0 {
      SignPassed(45, u);
      assert plus + Decimal(n) + tail == [45] + u;
    } else if plus != [] {
      SignPassed(43, u);
      assert plus + Decimal(n) + tail == [43] + u;
    } else {
      assert plus + Decimal(n) + tail == u;
    }
  }

  lemma SignPassed(sign: byte, u: Text)
    requires sign == 43 || sign == 45
    ensures ReadInt([sign] + u) == Clamp(if sign == 45 then -(DigitsValue(u, 0) as int) else DigitsValue(u, 0))
  {
    hide DigitsValue, Clamp;
    assert ([sign] + u)[1..] == u;
  }

  lemma UnsignedIsRead(n: nat, tail: Text)
    requires tail == [] || !(48 <= tail[0] <= 57)
    ensures DigitsValue(Digits(n) + tail, 0) == n && ReadInt(Digits(n) + tail) == Clamp(n)
  {
    hide Digits, Clamp;
    DigitsAreRead(n, tail);
    DigitsNotEmpty(n);
    assert (Digits(n) + tail)[0] == Digits(n)[0] && Digits(n)[0] in Digits(n);
  }

  lemma DigitsNotEmpty(n: nat)
    ensures Digits(n) != []
  {}

  lemma IndexOfAbsent(s: Text, c: byte)
    ensures c !in s ==> IndexOf(s, c) == |s|
  {
    assert IndexOf(s, c) == |s| || s[IndexOf(s, c)] in s;
  }

  // The name searched ends at the first NUL, if there is one.
  lemma CStringIs(s: Text, rest: Text)
    requires 0 !in s
    ensures CString(s) == s == CString(s + [0] + rest)
  {
    IndexOfAbsent(s, 0);
    IndexOfFirst(s, 0, rest);
  }

  // "n:rest" asks for the name rest in namespace n, as far as an int can hold n.
  lemma QualifiedQuery(parent: NodeId, n: int, rest: Text)
    ensures var q := ParseQuery(parent, Decimal(n) + [58] + rest);
            && q.ns == (if n > 0x7FFF_FFFF then 0x7FFF_FFFF else if n < -0x8000_0000 then -0x8000_0000 else n)
            && q.name == CString(rest)
    ensures 0 !in rest ==> CString(rest) == rest
  {
    var name := Decimal(n) + [58] + rest;
    var i := |Decimal(n)|;
    DecimalIsRead(n);
    IndexOfFirst(Decimal(n), 58, rest);
    assert name[..i] == Decimal(n) && name[i + 1..] == rest;
    IndexOfAbsent(rest, 0);
  }

  // Without a colon the name is asked for in the namespace of the parent.
  lemma PlainQuery(parent: NodeId, name: Text)
    requires 58 !in name
    ensures ParseQuery(parent, name) == Query(parent.ns, CString(name))
    ensures 0 !in name ==> CString(name) == name
  {
    IndexOfAbsent(name, 58);
    IndexOfAbsent(name, 0);
  }

  predicate Selects(server: Server, q: Query, ref: Reference)
  {
    && ref.target.ns == q.ns
    && ref.target in server.browseNames
    && server.browseNames[ref.target] == q.name
  }

  // ------------------------------------------------------ one step

  function Refresh(server: Server, n: Node): Node
  {
    if n.id in server.classes then n.(class_ := server.classes[n.id]) else n
  }

  // The node a reference leads to, as getChild returns it.
  function Reached(server: Server, ref: Reference): Node
  {
    Refresh(server, Node(ref.target, ref.referenceType, CLASS_OBJECT))
  }

  function Selected(server: Server, q: Query, refs: seq<Reference>): seq<Node>
  {
    if refs == [] then []
    else (if Selects(server, q, refs[0]) then [Reached(server, refs[0])] else []) + Selected(server, q, refs[1..])
  }

  function Children(server: Server, parent: Node, name: Text): seq<Node>
  {
    Selected(server, ParseQuery(parent.id, name), ReferencesOf(server, parent.id))
  }

  function Expand(server: Server, frontier: seq<Node>, name: Text): seq<Node>
  {
    if frontier == [] then [] else Children(server, frontier[0], name) + Expand(server, frontier[1..], name)
  }

  function Levels(server: Server, frontier: seq<Node>, names: seq<Text>): seq<Node>
    decreases names
  {
    if names == [] then frontier else Levels(server, Expand(server, frontier, names[0]), names[1..])
  }

  // ------------------------------------------------------ the callback object

  class NodeFinder {
    const server: Server
    const query: Query
    var nodes: seq<Node>
    var found: bool

    constructor (parent: Node, name: Text, server: Server)
      ensures this.server == server && query == ParseQuery(parent.id, name)
      ensures nodes == [] && !found
    {
      this.server := server;
      query := ParseQuery(parent.id, name);
      nodes := [];
      found := false;
    }

    // Called once per reference; inverse references count as well.
    method Visit(ref: Reference)
      modifies this
      ensures var target := ref.target;
              if target.ns == query.ns && target in server.browseNames && server.browseNames[target] == query.name
              then found && nodes == old(nodes) + [Node(target, ref.referenceType, 1)]
              else found == old(found) && nodes == old(nodes)
    {
      if ref.target.ns != query.ns {
        return;
      }
      var node := Node(ref.target, ref.referenceType, CLASS_OBJECT);
      if ref.target in server.browseNames && server.browseNames[ref.target] == query.name {
        nodes := nodes + [node];
        found := true;
      }
    }
  }

  function RefreshAll(server: Server, nodes: seq<Node>): (r: seq<Node>)
    ensures |r| == |nodes|
  {
    seq(|nodes|, i requires 0 <= i < |nodes| => Refresh(server, nodes[i]))
  }

  // The classes of these nodes are the ones the server reports.
  predicate Fresh(server: Server, nodes: seq<Node>)
  {
    forall n :: n in nodes && n.id in server.classes ==> n.class_ == server.classes[n.id]
  }

  // The node at the end of a reference: the target, the kind of reference, and
  // the reported class, or an object where none can be read.
  lemma ReachedIs(server: Server, ref: Reference)
    ensures var n := Reached(server, ref);
            && n.id == ref.target && n.referenceType == ref.referenceType
            && n.class_ == if ref.target in server.classes then server.classes[ref.target] else 1
  {}

  // Everything selected has the namespace and the browse name asked for.
  lemma {:induction false} SelectedFit(server: Server, q: Query, refs: seq<Reference>)
    ensures forall n :: n in Selected(server, q, refs) ==>
              n.id.ns == q.ns && n.id in server.browseNames && server.browseNames[n.id] == q.name
  {
    if refs != [] {
      SelectedFit(server, q, refs[1..]);
    }
  }

  // Each reference adds one node, at the place given by the references before
  // it, if namespace and browse name of its target fit, and none otherwise.
  lemma SelectedPlace(server: Server, q: Query, refs: seq<Reference>, i: nat)
    requires i < |refs|
    ensures var before := Selected(server, q, refs[..i]); var target := refs[i].target;
            Selected(server, q, refs[..i + 1]) ==
            if target.ns == q.ns && target in server.browseNames && server.browseNames[target] == q.name
            then before + [Reached(server, refs[i])] else before
  {
    assert refs[..i + 1] == refs[..i] + [refs[i]];
    SelectedConcat(server, q, refs[..i], refs[i]);
  }

  // Lifted to the children of a node.
  lemma ChildrenFit(server: Server, parent: Node, name: Text)
    ensures var q := ParseQuery(parent.id, name); var c := Children(server, parent, name);
            && (forall n :: n in c ==>
                  n.id.ns == q.ns && n.id in server.browseNames && server.browseNames[n.id] == q.name)
            && (forall ref | ref in ReferencesOf(server, parent.id) && ref.target.ns == q.ns
                  && ref.target in server.browseNames && server.browseNames[ref.target] == q.name ::
                  Reached(server, ref) in c)
  {
    var q := ParseQuery(parent.id, name);
    var refs := ReferencesOf(server, parent.id);
    SelectedFit(server, q, refs);
    forall ref | ref in refs && ref.target.ns == q.ns
      && ref.target in server.browseNames && server.browseNames[ref.target] == q.name
      ensures Reached(server, ref) in Selected(server, q, refs)
    {
      FittingIsSelected(server, q, refs, ref);
    }
  }

  lemma {:induction false} FittingIsSelected(server: Server, q: Query, refs: seq<Reference>, ref: Reference)
    requires ref in refs && ref.target.ns == q.ns
    requires ref.target in server.browseNames && server.browseNames[ref.target] == q.name
    ensures Reached(server, ref) in Selected(server, q, refs)
  {
    if ref != refs[0] {
      FittingIsSelected(server, q, refs[1..], ref);
    }
  }

  lemma {:induction false} SelectedFresh(server: Server, q: Query, refs: seq<Reference>)
    ensures Fresh(server, Selected(server, q, refs))
  {
    if refs != [] {
      SelectedFresh(server, q, refs[1..]);
    }
  }

  lemma SelectedConcat(server: Server, q: Query, refs: seq<Reference>, ref: Reference)
    ensures Selected(server, q, refs + [ref]) == Selected(server, q, refs) + Selected(server, q, [ref])
  {
    if refs != [] {
      assert (refs + [ref])[1..] == refs[1..] + [ref];
      SelectedConcat(server, q, refs[1..], ref);
    }
  }

  // The loop that reads the class of every node in a list.
  method RefreshList(server: Server, given: seq<Node>) returns (nodes: seq<Node>)
    ensures nodes == RefreshAll(server, given)
  {
    nodes := given;
    var i := 0;
    while i < |nodes|
      invariant 0 <= i <= |nodes| == |given|
      invariant forall k :: 0 <= k < |nodes| ==> nodes[k] == if k < i then Refresh(server, given[k]) else given[k]
    {
      if nodes[i].id in server.classes {
        nodes := nodes[i := nodes[i].(class_ := server.classes[nodes[i].id])];
      }
      i := i + 1;
    }
  }

  lemma RefreshAppended(server: Server, nodes: seq<Node>, n: Node)
    ensures RefreshAll(server, nodes + [n]) == RefreshAll(server, nodes) + [Refresh(server, n)]
  {}

  lemma RefreshConcat(server: Server, given: seq<Node>, nodes: seq<Node>)
    requires Fresh(server, given)
    ensures RefreshAll(server, given + nodes) == given + RefreshAll(server, nodes)
  {}

  // _getChild(name, result): appends the children, then reads the class of
  // every node in the list.
  method AppendChildren(server: Server, parent: Node, name: Text, given: seq<Node>)
      returns (found: bool, result: seq<Node>)
    requires Fresh(server, given)
    ensures result == given + Children(server, parent, name)
    ensures found <==> Children(server, parent, name) != []
    ensures Fresh(server, result)
  {
    hide RefreshAll, Refresh, Selected, Selects, ParseQuery;
    var op := new NodeFinder(parent, name, server);
    var refs := ReferencesOf(server, parent.id);
    NoneSelected(server, op.query);
    var i := 0;
    while i < |refs|
      invariant 0 <= i <= |refs|
      invariant RefreshAll(server, op.nodes) == Selected(server, op.query, refs[..i])
      invariant op.found <==> op.nodes != []
    {
      SelectedPlace(server, op.query, refs, i);
      RefreshAppended(server, op.nodes, Node(refs[i].target, refs[i].referenceType, CLASS_OBJECT));
      op.Visit(refs[i]);
      i := i + 1;
    }
    assert refs[..i] == refs;
    SelectedFresh(server, op.query, refs);
    result := given;
    if op.found {
      RefreshConcat(server, given, op.nodes);
      result := RefreshList(server, result + op.nodes);
    }
    found := op.found;
  }

  lemma NoneSelected(server: Server, q: Query)
    ensures Selected(server, q, []) == [] == RefreshAll(server, [])
  {}

  // getChild(name)
  method GetChild(server: Server, node: Node, name: Text) returns (r: Lookup)
    ensures var c := Children(server, node, name);
            r == if c == [] then NotFound([]) else Found(c)
  {
    var found, nodes := AppendChildren(server, node, name, []);
    r := if found then Found(nodes) else NotFound([]);
  }

  // The nodes, or the name of the level at which none was found.
  datatype Lookup = Found(nodes: seq<Node>) | NotFound(name: Text)

  function FirstEmpty(server: Server, frontier: seq<Node>, names: seq<Text>): Lookup
    decreases names
  {
    if names == [] then Found(frontier)
    else
      var next := Expand(server, frontier, names[0]);
      if next == [] then NotFound(names[0]) else FirstEmpty(server, next, names[1..])
  }

  // _getChild(nodes, name, results): the children of every node, in order.
  method AppendAllChildren(server: Server, nodes: seq<Node>, name: Text) returns (results: seq<Node>)
    ensures results == Expand(server, nodes, name)
  {
    hide Children;
    results := [];
    var k := 0;
    while k < |nodes|
      invariant 0 <= k <= |nodes|
      invariant Fresh(server, results)
      invariant results + Expand(server, nodes[k..], name) == Expand(server, nodes, name)
    {
      assert nodes[k..][0] == nodes[k] && nodes[k..][1..] == nodes[k + 1..];
      var found;
      found, results := AppendChildren(server, nodes[k], name, results);
      k := k + 1;
    }
  }

  // getChild(names): the frontier search.
  method GetChildByPath(server: Server, start: Node, names: seq<Text>) returns (r: Lookup)
    ensures r == FirstEmpty(server, [start], names)
  {
    hide Expand;
    var results := [start];
    var i := 0;
    while i < |names|
      invariant 0 <= i <= |names|
      invariant FirstEmpty(server, results, names[i..]) == FirstEmpty(server, [start], names)
    {
      var name := names[i];
      assert names[i..][0] == name && names[i..][1..] == names[i + 1..];
      var founds := AppendAllChildren(server, results, name);
      if founds == [] {
        return NotFound(name);
      }
      results := founds;
      i := i + 1;
    }
    r := Found(results);
  }

  // ------------------------------------------------------ walks

  // A walk names one reference per step by its position at its node.
  type Walk = seq<nat>

  predicate IsWalk(server: Server, start: Node, names: seq<Text>, w: Walk)
    decreases names
  {
    if names == [] then w == []
    else
      var refs := ReferencesOf(server, start.id);
      var q := ParseQuery(start.id, names[0]);
      && w != [] && w[0] < |refs|
      && refs[w[0]].target.ns == q.ns
      && refs[w[0]].target in server.browseNames
      && server.browseNames[refs[w[0]].target] == q.name
      && IsWalk(server, Reached(server, refs[w[0]]), names[1..], w[1..])
  }

  function EndOf(server: Server, start: Node, names: seq<Text>, w: Walk): Node
    requires IsWalk(server, start, names, w)
    decreases names
  {
    if names == [] then start
    else EndOf(server, Reached(server, ReferencesOf(server, start.id)[w[0]]), names[1..], w[1..])
  }

  // Left-to-right order: the first step that differs decides.
  predicate Before(v: Walk, w: Walk)
  {
    v != [] && w != [] && (v[0] < w[0] || (v[0] == w[0] && Before(v[1..], w[1..])))
  }

  function Prepend(j: nat, ws: seq<Walk>): (r: seq<Walk>)
    ensures |r| == |ws|
  {
    seq(|ws|, i requires 0 <= i < |ws| => [j] + ws[i])
  }

  // All walks, those through reference j and later ones first to last.
  function WalksFrom(server: Server, start: Node, names: seq<Text>, j: nat): seq<Walk>
    requires names != []
    decreases names, |ReferencesOf(server, start.id)| - j
  {
    var refs := ReferencesOf(server, start.id);
    if j >= |refs| then []
    else
      (if Selects(server, ParseQuery(start.id, names[0]), refs[j])
       then Prepend(j, Walks(server, Reached(server, refs[j]), names[1..])) else [])
      + WalksFrom(server, start, names, j + 1)
  }

  function Walks(server: Server, start: Node, names: seq<Text>): seq<Walk>
    decreases names
  {
    if names == [] then [[]] else WalksFrom(server, start, names, 0)
  }

  // The list enumerates exactly the walks, each once, in left-to-right order.
  ghost predicate Enumerates(server: Server, start: Node, names: seq<Text>, j: nat, ws: seq<Walk>)
  {
    && (forall w :: w in ws <==> IsWalk(server, start, names, w) && (names != [] ==> w[0] >= j))
    && (forall a, b :: 0 <= a < b < |ws| ==> Before(ws[a], ws[b]))
  }

  lemma {:induction false} WalksEnumerate(server: Server, start: Node, names: seq<Text>)
    ensures Enumerates(server, start, names, 0, Walks(server, start, names))
    decreases names
  {
    if names != [] {
      WalksFromEnumerate(server, start, names, 0);
    }
  }

  lemma {:induction false} WalksFromEnumerate(server: Server, start: Node, names: seq<Text>, j: nat)
    requires names != []
    ensures Enumerates(server, start, names, j, WalksFrom(server, start, names, j))
    decreases names, |ReferencesOf(server, start.id)| - j
  {
    var refs := ReferencesOf(server, start.id);
    if j < |refs| {
      WalksFromEnumerate(server, start, names, j + 1);
      if Selects(server, ParseQuery(start.id, names[0]), refs[j]) {
        var child := Reached(server, refs[j]);
        WalksEnumerate(server, child, names[1..]);
        PrependEnumerates(server, start, names, j, Walks(server, child, names[1..]), WalksFrom(server, start, names,
            j + 1));
      }
    }
  }

  lemma PrependEnumerates(server: Server, start: Node, names: seq<Text>, j: nat, inner: seq<Walk>, later: seq<Walk>)
    requires names != [] && j < |ReferencesOf(server, start.id)|
    requires Selects(server, ParseQuery(start.id, names[0]), ReferencesOf(server, start.id)[j])
    requires Enumerates(server, Reached(server, ReferencesOf(server, start.id)[j]), names[1..], 0, inner)
    requires Enumerates(server, start, names, j + 1, later)
    ensures Enumerates(server, start, names, j, Prepend(j, inner) + later)
  {
    var first := Prepend(j, inner);
    var ws := first + later;
    forall w
      ensures w in ws <==> IsWalk(server, start, names, w) && w[0] >= j
    {
      if IsWalk(server, start, names, w) && w[0] == j {
        assert IsWalk(server, Reached(server, ReferencesOf(server, start.id)[j]), names[1..], w[1..]);
        assert w[1..] in inner;
        var i :| 0 <= i < |inner| && inner[i] == w[1..];
        assert first[i] == w;
        assert w in first;
      }
      if w in first {
        var i :| 0 <= i < |first| && first[i] == w;
        assert w[1..] == inner[i] && inner[i] in inner;
      }
    }
    forall a, b | 0 <= a < b < |ws|
      ensures Before(ws[a], ws[b])
    {
      if b < |first| {
        assert ws[a][1..] == inner[a] && ws[b][1..] == inner[b];
      } else if a < |first| {
        assert ws[b] in later;
      }
    }
  }

  // ------------------------------------------------------ the search finds the walks' ends

  ghost function Ends(server: Server, start: Node, names: seq<Text>, ws: seq<Walk>): (r: seq<Node>)
    requires forall w :: w in ws ==> IsWalk(server, start, names, w)
    ensures |r| == |ws|
  {
    seq(|ws|, i requires 0 <= i < |ws| => EndOf(server, start, names, ws[i]))
  }

  lemma {:induction false} ExpandConcat(server: Server, a: seq<Node>, b: seq<Node>, name: Text)
    ensures Expand(server, a + b, name) == Expand(server, a, name) + Expand(server, b, name)
  {
    if a == [] {
      assert a + b == b;
    } else {
      assert (a + b)[1..] == a[1..] + b;
      ExpandConcat(server, a[1..], b, name);
    }
  }

  lemma {:induction false} LevelsConcat(server: Server, a: seq<Node>, b: seq<Node>, names: seq<Text>)
    ensures Levels(server, a + b, names) == Levels(server, a, names) + Levels(server, b, names)
    decreases names
  {
    if names != [] {
      ExpandConcat(server, a, b, names[0]);
      LevelsConcat(server, Expand(server, a, names[0]), Expand(server, b, names[0]), names[1..]);
    }
  }

  lemma {:induction false} LevelsOfNothing(server: Server, names: seq<Text>)
    ensures Levels(server, [], names) == []
  {
    if names != [] {
      LevelsOfNothing(server, names[1..]);
    }
  }

  // The search returns the end of every walk, in walk order, one node per walk.
  lemma {:induction false} LevelsAreEnds(server: Server, start: Node, names: seq<Text>)
    ensures Enumerates(server, start, names, 0, Walks(server, start, names))
    ensures Levels(server, [start], names) == Ends(server, start, names, Walks(server, start, names))
    decreases names
  {
    WalksEnumerate(server, start, names);
    if names != [] {
      var refs := ReferencesOf(server, start.id);
      SelectedLevels(server, start, names, 0);
      assert refs[0..] == refs;
      assert Expand(server, [start], names[0]) == Children(server, start, names[0]);
    }
  }

  lemma {:induction false} SelectedLevels(server: Server, start: Node, names: seq<Text>, j: nat)
    requires names != [] && j <= |ReferencesOf(server, start.id)|
    ensures Enumerates(server, start, names, j, WalksFrom(server, start, names, j))
    ensures Levels(server, Selected(server, ParseQuery(start.id, names[0]), ReferencesOf(server, start.id)[j..]),
        names[1..])
         == Ends(server, start, names, WalksFrom(server, start, names, j))
    decreases names, |ReferencesOf(server, start.id)| - j
  {
    var refs := ReferencesOf(server, start.id);
    var q := ParseQuery(start.id, names[0]);
    WalksFromEnumerate(server, start, names, j);
    if j == |refs| {
      LevelsOfNothing(server, names[1..]);
    } else {
      SelectedLevels(server, start, names, j + 1);
      assert refs[j..][0] == refs[j] && refs[j..][1..] == refs[j + 1..];
      var later := Selected(server, q, refs[j + 1..]);
      if Selects(server, q, refs[j]) {
        var child := Reached(server, refs[j]);
        LevelsAreEnds(server, child, names[1..]);
        LevelsConcat(server, [child], later, names[1..]);
        EndsOfPrepend(server, start, names, j, Walks(server, child, names[1..]));
        EndsConcat(server, start, names, Prepend(j, Walks(server, child, names[1..])), WalksFrom(server, start,
            names, j + 1));
      } else {
        assert Selected(server, q, refs[j..]) == later;
        assert WalksFrom(server, start, names, j) == WalksFrom(server, start, names, j + 1);
      }
    }
  }

  lemma EndsOfPrepend(server: Server, start: Node, names: seq<Text>, j: nat, inner: seq<Walk>)
    requires names != [] && j < |ReferencesOf(server, start.id)|
    requires Selects(server, ParseQuery(start.id, names[0]), ReferencesOf(server, start.id)[j])
    requires forall w :: w in inner ==> IsWalk(server, Reached(server, ReferencesOf(server, start.id)[j]),
        names[1..], w)
    ensures forall w :: w in Prepend(j, inner) ==> IsWalk(server, start, names, w)
    ensures Ends(server, start, names, Prepend(j, inner)) == Ends(server, Reached(server, ReferencesOf(server,
        start.id)[j]), names[1..], inner)
  {
    var first := Prepend(j, inner);
    forall i | 0 <= i < |first|
      ensures IsWalk(server, start, names, first[i])
      ensures EndOf(server, start, names, first[i]) == EndOf(server, Reached(server, ReferencesOf(server,
          start.id)[j]), names[1..], inner[i])
    {
      assert inner[i] in inner;
      assert first[i][1..] == inner[i];
    }
  }

  lemma EndsConcat(server: Server, start: Node, names: seq<Text>, a: seq<Walk>, b: seq<Walk>)
    requires forall w :: w in a || w in b ==> IsWalk(server, start, names, w)
    ensures Ends(server, start, names, a + b) == Ends(server, start, names, a) + Ends(server, start, names, b)
  {}

  // ------------------------------------------------------ the result of getChild(names)

  lemma {:induction false} FoundLevels(server: Server, frontier: seq<Node>, names: seq<Text>)
    requires Levels(server, frontier, names) != []
    ensures FirstEmpty(server, frontier, names) == Found(Levels(server, frontier, names))
    decreases names
  {
    if names != [] {
      LevelsOfNothing(server, names[1..]);
      FoundLevels(server, Expand(server, frontier, names[0]), names[1..]);
    }
  }

  // The number of steps after which no node is left, if there is one.
  ghost function EmptyAfter(server: Server, frontier: seq<Node>, names: seq<Text>): nat
    decreases names
  {
    if names == [] then 0
    else
      var next := Expand(server, frontier, names[0]);
      if next == [] then 0 else 1 + EmptyAfter(server, next, names[1..])
  }

  lemma LevelsStep(server: Server, frontier: seq<Node>, names: seq<Text>, k: nat)
    requires 0 < k <= |names|
    ensures names[..k][0] == names[0] && names[..k][1..] == names[1..][..k - 1]
    ensures Levels(server, frontier, names[..k]) ==
            Levels(server, Expand(server, frontier, names[0]), names[1..][..k - 1])
  {
    assert names[..k][1..] == names[1..][..k - 1];
  }

  lemma {:induction false} NotFoundLevels(server: Server, frontier: seq<Node>, names: seq<Text>)
    requires frontier != [] && Levels(server, frontier, names) == []
    ensures var k := EmptyAfter(server, frontier, names);
            && k < |names| && FirstEmpty(server, frontier, names) == NotFound(names[k])
            && Levels(server, frontier, names[..k]) != [] && Levels(server, frontier, names[..k + 1]) == []
    decreases names
  {
    hide Expand;
    var next := Expand(server, frontier, names[0]);
    if next == [] {
      LevelsStep(server, frontier, names, 1);
      LevelsOfNothing(server, names[1..][..0]);
    } else {
      NotFoundLevels(server, next, names[1..]);
      var k := EmptyAfter(server, frontier, names);
      LevelsStep(server, frontier, names, k);
      LevelsStep(server, frontier, names, k + 1);
    }
  }

  // The whole statement: the ends of all walks in walk order, or the name of
  // the first level that no walk reaches.
  lemma PathLookup(server: Server, start: Node, names: seq<Text>)
    ensures var ws := Walks(server, start, names); var r := FirstEmpty(server, [start], names);
            && Enumerates(server, start, names, 0, ws)
            && (ws != [] ==> r == Found(Ends(server, start, names, ws)))
            && (ws == [] ==> exists k :: 0 <= k < |names| && r == NotFound(names[k])
                               && Walks(server, start, names[..k]) != [] && Walks(server, start, names[..k + 1]) == [])
  {
    LevelsAreEnds(server, start, names);
    if Walks(server, start, names) == [] {
      var k := EmptyAfter(server, [start], names);
      NotFoundLevels(server, [start], names);
      LevelsAreEnds(server, start, names[..k]);
      LevelsAreEnds(server, start, names[..k + 1]);
    } else {
      FoundLevels(server, [start], names);
    }
  }

  // ------------------------------------------------------ composition and classes

  function LookupEach(server: Server, nodes: seq<Node>, names: seq<Text>): seq<Node>
  {
    if nodes == [] then [] else Levels(server, [nodes[0]], names) + LookupEach(server, nodes[1..], names)
  }

  // Looking up p + q is looking up p, then q from each result in order.
  lemma {:induction false} PathsCompose(server: Server, frontier: seq<Node>, p: seq<Text>, q: seq<Text>)
    ensures Levels(server, frontier, p + q) == LookupEach(server, Levels(server, frontier, p), q)
    decreases p
  {
    if p == [] {
      assert p + q == q;
      EachIsLevels(server, frontier, q);
    } else {
      assert (p + q)[1..] == p[1..] + q;
      PathsCompose(server, Expand(server, frontier, p[0]), p[1..], q);
    }
  }

  lemma {:induction false} EachIsLevels(server: Server, nodes: seq<Node>, names: seq<Text>)
    ensures LookupEach(server, nodes, names) == Levels(server, nodes, names)
    decreases nodes
  {
    if nodes == [] {
      LevelsOfNothing(server, names);
    } else {
      EachIsLevels(server, nodes[1..], names);
      assert nodes == [nodes[0]] + nodes[1..];
      LevelsConcat(server, [nodes[0]], nodes[1..], names);
    }
  }

  // Nodes found by a non-empty path carry the class the server reports.
  lemma {:induction false} FoundClassesAreRead(server: Server, frontier: seq<Node>, names: seq<Text>)
    requires names != [] || Fresh(server, frontier)
    ensures Fresh(server, Levels(server, frontier, names))
    decreases names
  {
    if names != [] {
      ExpandFresh(server, frontier, names[0]);
      FoundClassesAreRead(server, Expand(server, frontier, names[0]), names[1..]);
    }
  }

  lemma {:induction false} ExpandFresh(server: Server, frontier: seq<Node>, name: Text)
    ensures Fresh(server, Expand(server, frontier, name))
  {
    if frontier != [] {
      SelectedFresh(server, ParseQuery(frontier[0].id, name), ReferencesOf(server, frontier[0].id));
      ExpandFresh(server, frontier[1..], name);
    }
  }

  // ------------------------------------------------------ getChildren

  // UA_Node_Iter and getChildren: the targets of forward references.
  function ForwardNodes(server: Server, refs: seq<Reference>): seq<Node>
  {
    if refs == [] then []
    else
      (if refs[0].isInverse then []
       else [Refresh(server, Node(refs[0].target, refs[0].referenceType, CLASS_UNSPECIFIED))])
      + ForwardNodes(server, refs[1..])
  }

  lemma ForwardStep(server: Server, refs: seq<Reference>, i: nat)
    requires i <= |refs|
    ensures refs[0..] == refs
    ensures i == |refs| ==> ForwardNodes(server, refs[i..]) == []
    ensures i < |refs| ==>
              ForwardNodes(server, refs[i..]) ==
              (if refs[i].isInverse then []
               else [Refresh(server, Node(refs[i].target, refs[i].referenceType, CLASS_UNSPECIFIED))])
              + ForwardNodes(server, refs[i + 1..])
  {
    if i < |refs| {
      assert refs[i..][0] == refs[i] && refs[i..][1..] == refs[i + 1..];
    }
  }

  method GetChildren(server: Server, parent: Node) returns (nodes: seq<Node>)
    ensures nodes == ForwardNodes(server, ReferencesOf(server, parent.id))
  {
    hide RefreshAll, Refresh, ForwardNodes;
    var refs := ReferencesOf(server, parent.id);
    ForwardStep(server, refs, 0);
    nodes := [];
    var i := 0;
    while i < |refs|
      invariant 0 <= i <= |refs|
      invariant RefreshAll(server, nodes) + ForwardNodes(server, refs[i..]) == ForwardNodes(server, refs)
    {
      ForwardStep(server, refs, i);
      if !refs[i].isInverse {
        var node := Node(refs[i].target, refs[i].referenceType, CLASS_UNSPECIFIED);
        RefreshAppended(server, nodes, node);
        nodes := nodes + [node];
      }
      i := i + 1;
    }
    ForwardStep(server, refs, i);
    nodes := RefreshList(server, nodes);
  }

  // Each forward reference adds one node, each inverse one none.
  lemma {:induction false} ForwardPlace(server: Server, refs: seq<Reference>, i: nat)
    requires i < |refs|
    ensures var before := ForwardNodes(server, refs[..i]); var target := refs[i].target;
            ForwardNodes(server, refs[..i + 1]) ==
            if refs[i].isInverse then before
            else before + [Node(target, refs[i].referenceType,
                                if target in server.classes then server.classes[target] else 0)]
    decreases i
  {
    if i == 0 {
      assert refs[..1][1..] == [];
    } else {
      ForwardPlace(server, refs[1..], i - 1);
      assert refs[..i][1..] == refs[1..][..i - 1] && refs[..i + 1][1..] == refs[1..][..i];
    }
  }

  // What a forward reference contributes to getChild and to getChildren is the
  // same node exactly when its class can be read: the two start from different
  // classes.
  lemma {:induction false} FoundAmongChildren(server: Server, refs: seq<Reference>, ref: Reference)
    requires ref in refs && !ref.isInverse
    ensures ref.target in server.classes ==> Reached(server, ref) in ForwardNodes(server, refs)
    ensures ref.target !in server.classes ==> Reached(server, ref) !in ForwardNodes(server, refs)
    decreases refs
  {
    if ref in refs[1..] {
      FoundAmongChildren(server, refs[1..], ref);
    } else if ref.target !in server.classes {
      UnreadClassDiffers(server, refs, ref);
    }
  }

  lemma {:induction false} UnreadClassDiffers(server: Server, refs: seq<Reference>, ref: Reference)
    requires ref.target !in server.classes
    ensures Reached(server, ref) !in ForwardNodes(server, refs)
  {
    if refs != [] {
      UnreadClassDiffers(server, refs[1..], ref);
    }
  }
}
