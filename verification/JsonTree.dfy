/** What a value looks like in memory after lib/cJSON.c has read it: a node for each value, the elements of an array and
    the members of an object on a child list. */
module JsonTree {
  import opened Bytes
  import opened JsonNumber
  import opened JsonValue
  import opened JsonList

  /** A node and what hangs from it. */
  datatype Shape = Shape(node: Node, kids: seq<Shape>)

  ghost function Roots(ts: seq<Shape>): (ns: seq<Node>)
    ensures |ns| == |ts|
  {
    seq(|ts|, i requires 0 <= i < |ts| => ts[i].node)
  }

  ghost function RootSet(ts: seq<Shape>): (ns: set<Node>)
    ensures forall i :: 0 <= i < |ts| ==> ts[i].node in ns && Roots(ts)[i] in ns
  {
    set i: nat | i < |ts| :: ts[i].node
  }

  /** All the nodes below the roots. */
  ghost function BelowAll(ts: seq<Shape>): (ns: set<Node>)
    ensures forall i :: 0 <= i < |ts| ==> Below(ts[i]) <= ns
  {
    if ts == [] then {}
    else
      var front := ts[..|ts| - 1];
      assert forall i :: 0 <= i < |front| ==> front[i] == ts[i];
      BelowAll(front) + Below(ts[|ts| - 1])
  }

  ghost function Below(t: Shape): set<Node> { RootSet(t.kids) + BelowAll(t.kids) }

  ghost function All(t: Shape): set<Node> { {t.node} + Below(t) }

  /** No two of them share a node, and none contains its own root. */
  ghost predicate Separate(ts: seq<Shape>)
  {
    && (forall i :: 0 <= i < |ts| ==> ts[i].node !in Below(ts[i]))
    && forall i, j :: 0 <= i < j < |ts| ==> All(ts[i]) !! All(ts[j])
  }

  /** The node holds the value, and so on below it. */
  ghost predicate Built(t: Shape, v: Json)
    reads t.node`kind, t.node`valueInt, t.node`valueDouble, t.node`valueString, t.node`child, Below(t)
    decreases v
  {
    match v
    case Arr(es) => t.node.kind == ArrayKind && Links(t.node, Roots(t.kids)) && BuiltAll(t.kids, es)
    case Obj(ms) => t.node.kind == ObjectKind && Links(t.node, Roots(t.kids)) && BuiltMembers(t.kids, ms)
    case Null => t.node.kind == NullKind && t.kids == [] && t.node.child == null
    case Bool(b) => t.node.kind == (if b then TrueKind else FalseKind) && t.kids == [] && t.node.child == null
    case Num(n) =>
      && t.node.kind == NumberKind && t.node.valueDouble == n && t.node.valueInt == IntOf(n)
      && t.kids == [] && t.node.child == null
    case Str(s) => t.node.kind == StringKind && t.node.valueString == s && t.kids == [] && t.node.child == null
  }

  ghost predicate BuiltAll(ts: seq<Shape>, vs: seq<Json>)
    reads RootSet(ts)`kind, RootSet(ts)`valueInt, RootSet(ts)`valueDouble, RootSet(ts)`valueString, RootSet(ts)`child
    reads BelowAll(ts)
    decreases vs
  {
    |ts| == |vs| && Separate(ts) && forall i :: 0 <= i < |ts| ==> Built(ts[i], vs[i])
  }

  /** With the names of members. */
  ghost predicate BuiltMembers(ts: seq<Shape>, ms: seq<Member>)
    reads RootSet(ts)`kind, RootSet(ts)`valueInt, RootSet(ts)`valueDouble, RootSet(ts)`valueString, RootSet(ts)`child
    reads RootSet(ts)`name, BelowAll(ts)
    decreases ms
  {
    && |ts| == |ms| && Separate(ts)
    && forall i :: 0 <= i < |ts| ==> ts[i].node.name == ms[i].key && Built(ts[i], ms[i].value)
  }

  // ---- building a list ----

  /** A list under construction: without the first element's `prev`. */
  ghost predicate Linked(nodes: seq<Node>)
    reads nodes`next, nodes`prev
  {
    && Distinct(nodes)
    && (nodes != [] ==> nodes[|nodes| - 1].next == null)
    && (forall i :: 0 <= i < |nodes| - 1 ==> nodes[i].next == nodes[i + 1])
    && (forall i :: 0 < i < |nodes| ==> nodes[i].prev == nodes[i - 1])
  }

  /** A new node behind the last one. */
  method AppendNew(current: Node?, ghost nodes: seq<Node>) returns (n: Node)
    requires Linked(nodes) && current == if nodes == [] then null else nodes[|nodes| - 1]
    modifies Only(current)`next
    ensures fresh(n) && n.child == null && Linked(nodes + [n])
  {
    n := new Node();
    if current != null {
      current.next := n;
      n.prev := current;
    }
  }

  /** The list is complete. */
  method Close(item: Node, head: Node?, current: Node?, ghost nodes: seq<Node>)
    requires Linked(nodes) && item !in nodes
    requires head == (if nodes == [] then null else nodes[0])
    requires current == if nodes == [] then null else nodes[|nodes| - 1]
    modifies Only(head)`prev, item`child
    ensures Links(item, nodes)
  {
    if head != null {
      head.prev := current;
    }
    item.child := head;
  }

  method CloseArray(item: Node, head: Node?, current: Node?, ghost ts: seq<Shape>, ghost vs: seq<Json>)
    requires BuiltAll(ts, vs) && Linked(Roots(ts)) && item !in RootSet(ts) && item !in BelowAll(ts)
    requires head == (if ts == [] then null else ts[0].node)
    requires current == if ts == [] then null else ts[|ts| - 1].node
    modifies Only(head)`prev, item`child, item`kind
    ensures Built(Shape(item, ts), Arr(vs))
  {
    hide BuiltAll, Built, BelowAll, RootSet, Linked, Links, Separate;
    FirstRoot(ts);
    LastRoot(ts, vs);
    assert allocated(RootSet(ts)) && allocated(BelowAll(ts));
    Close(item, head, current, Roots(ts));
    item.kind := ArrayKind;
    ArrayBuilt(item, ts, vs);
  }

  method CloseObject(item: Node, head: Node?, current: Node?, ghost ts: seq<Shape>, ghost ms: seq<Member>)
    requires BuiltMembers(ts, ms) && Linked(Roots(ts)) && item !in RootSet(ts) && item !in BelowAll(ts)
    requires head == (if ts == [] then null else ts[0].node)
    requires current == if ts == [] then null else ts[|ts| - 1].node
    modifies Only(head)`prev, item`child, item`kind
    ensures Built(Shape(item, ts), Obj(ms))
  {
    hide BuiltMembers, Built, BelowAll, RootSet, Linked, Links, Separate;
    FirstRoot(ts);
    LastMember(ts, ms);
    assert allocated(RootSet(ts)) && allocated(BelowAll(ts));
    Close(item, head, current, Roots(ts));
    item.kind := ObjectKind;
    ObjectBuilt(item, ts, ms);
  }

  /** One more node, with what hangs from it. */
  lemma OneMore(ts: seq<Shape>, t: Shape)
    ensures Roots(ts + [t]) == Roots(ts) + [t.node]
    ensures RootSet(ts + [t]) == RootSet(ts) + {t.node}
    ensures BelowAll(ts + [t]) == BelowAll(ts) + Below(t)
  {
    assert (ts + [t])[..|ts|] == ts;
    assert forall i :: 0 <= i < |ts| ==> (ts + [t])[i] == ts[i];
    assert (ts + [t])[|ts|] == t;
    forall n | n in RootSet(ts) + {t.node} ensures n in RootSet(ts + [t]) {
      if n in RootSet(ts) {
        var i: nat :| i < |ts| && ts[i].node == n;
        assert (ts + [t])[i].node == n;
      }
    }
  }

  lemma {:induction false} RootsApart(ts: seq<Shape>)
    requires Separate(ts)
    ensures RootSet(ts) !! BelowAll(ts)
  {
    hide Below, RootSet, BelowAll;
    if ts == [] {
      NoNodes();
    } else {
      var front, t := ts[..|ts| - 1], ts[|ts| - 1];
      RootsApart(front);
      assert ts == front + [t];
      OneMore(front, t);
      assert forall i :: 0 <= i < |front| ==> All(ts[i]) !! All(t);
      Apart(front, t);
    }
  }

  lemma NoNodes()
    ensures RootSet([]) == {} && BelowAll([]) == {}
  {
  }

  lemma {:induction false} Apart(ts: seq<Shape>, t: Shape)
    requires forall i :: 0 <= i < |ts| ==> All(ts[i]) !! All(t)
    ensures All(t) !! RootSet(ts) && All(t) !! BelowAll(ts)
  {
    hide Below, RootSet, BelowAll;
    if ts == [] {
      NoNodes();
    } else {
      var front, last := ts[..|ts| - 1], ts[|ts| - 1];
      Apart(front, t);
      assert ts == front + [last];
      OneMore(front, last);
    }
  }

  lemma SeparateMore(ts: seq<Shape>, t: Shape)
    requires Separate(ts) && t.node !in Below(t)
    requires All(t) !! RootSet(ts) && All(t) !! BelowAll(ts)
    ensures Separate(ts + [t])
  {
    hide Below, RootSet, BelowAll;
  }

  lemma BuiltMore(ts: seq<Shape>, vs: seq<Json>, t: Shape, v: Json)
    requires BuiltAll(ts, vs) && Built(t, v) && t.node !in Below(t)
    requires All(t) !! RootSet(ts) && All(t) !! BelowAll(ts)
    ensures BuiltAll(ts + [t], vs + [v])
  {
    hide Built;
    SeparateMore(ts, t);
  }

  lemma BuiltMember(ts: seq<Shape>, ms: seq<Member>, t: Shape, m: Member)
    requires BuiltMembers(ts, ms) && Built(t, m.value) && t.node.name == m.key && t.node !in Below(t)
    requires All(t) !! RootSet(ts) && All(t) !! BelowAll(ts)
    ensures BuiltMembers(ts + [t], ms + [m])
  {
    hide Built;
    SeparateMore(ts, t);
  }

  lemma Leaf(item: Node, v: Json)
    requires item.child == null
    requires match v
      case Null => item.kind == NullKind
      case Bool(b) => item.kind == if b then TrueKind else FalseKind
      case Num(n) => item.kind == NumberKind && item.valueDouble == n && item.valueInt == IntOf(n)
      case Str(s) => item.kind == StringKind && item.valueString == s
      case _ => false
    ensures Built(Shape(item, []), v)
  {
  }

  lemma NoneBuilt()
    ensures BuiltAll([], []) && BuiltMembers([], []) && Roots([]) == [] && Linked([])
    ensures RootSet([]) == {} && BelowAll([]) == {}
  {
  }

  lemma LastRoot(ts: seq<Shape>, vs: seq<Json>)
    requires BuiltAll(ts, vs)
    ensures RootSet(ts) !! BelowAll(ts)
    ensures ts != [] ==> ts[|ts| - 1].node in RootSet(ts) && Roots(ts)[|ts| - 1] == ts[|ts| - 1].node
    ensures (ts == [] <==> Roots(ts) == [])
  {
    hide BelowAll, Built;
    RootsApart(ts);
  }

  lemma LastMember(ts: seq<Shape>, ms: seq<Member>)
    requires BuiltMembers(ts, ms)
    ensures RootSet(ts) !! BelowAll(ts)
    ensures ts != [] ==> ts[|ts| - 1].node in RootSet(ts) && Roots(ts)[|ts| - 1] == ts[|ts| - 1].node
    ensures (ts == [] <==> Roots(ts) == [])
  {
    hide BelowAll, Built;
    RootsApart(ts);
  }

  lemma FirstRoot(ts: seq<Shape>)
    ensures |Roots(ts)| == |ts| && (ts != [] ==> Roots(ts)[0] == ts[0].node && Roots(ts)[|ts| - 1] == ts[|ts| - 1].node)
    ensures forall n :: n in Roots(ts) ==> n in RootSet(ts)
  {
  }

  lemma ArrayBuilt(item: Node, ts: seq<Shape>, vs: seq<Json>)
    requires item.kind == ArrayKind && Links(item, Roots(ts)) && BuiltAll(ts, vs)
    ensures Built(Shape(item, ts), Arr(vs))
  {
    hide Links, BuiltAll;
  }

  lemma ObjectBuilt(item: Node, ts: seq<Shape>, ms: seq<Member>)
    requires item.kind == ObjectKind && Links(item, Roots(ts)) && BuiltMembers(ts, ms)
    ensures Built(Shape(item, ts), Obj(ms))
  {
    hide Links, BuiltMembers;
  }
}
