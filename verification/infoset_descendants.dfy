/**
 * `descendants` (Infoset+Descendant.swift; the legacy Select+Descendant.swift
 * is the same code over `Selection`).
 *
 * Both overloads keep the matching selected nodes themselves and then
 * recurse on all their children, so results come level by level rather
 * than in document order. Each level's ids are larger than the smallest id
 * of the level before, which is what makes the recursion terminate.
 */
module InfosetDescendants {
  import opened Wrappers
  import opened Names
  import opened Dom
  import opened Infoset

  /** `node.name() == qname`: only elements and attributes have a name. */
  predicate NodeNamed(st: Store, x: NodeId, q: QName)
  {
    x in st.nodes && (st.nodes[x].content.ElementNode? || st.nodes[x].content.AttributeNode?)
    && st.nodes[x].content.name == q
  }

  /** The smallest of `nodes` and `bound`. */
  function Lowest(nodes: seq<NodeId>, bound: nat): (r: nat)
    ensures r <= bound
    ensures forall k :: 0 <= k < |nodes| ==> r <= nodes[k]
    ensures r == bound || r in nodes
  {
    if |nodes| == 0 then bound
    else
      var m := Lowest(nodes[1..], bound);
      if nodes[0] < m then nodes[0] else m
  }

  /** The next level starts above the current one. */
  lemma ChildrenRise(st: Store, nodes: seq<NodeId>)
    requires Valid(st) && InStore(st, nodes) && |nodes| > 0
    ensures Lowest(nodes, st.next) < st.next
    ensures Lowest(nodes, st.next) < Lowest(ChildNodes(st, nodes), st.next)
  {
    var cs := ChildNodes(st, nodes);
    assert NodeOk(st, nodes[0]);
    var c := Lowest(cs, st.next);
    if c != st.next {
      assert c in cs;
      var k :| 0 <= k < |nodes| && c in st.nodes[nodes[k]].children;
      assert NodeOk(st, nodes[k]);
      assert ChildOk(st, nodes[k], c);
    }
  }

  /** Every node reachable from `nodes` through children, level by level: the reference the two overloads filter. */
  function Levels(st: Store, nodes: seq<NodeId>): (r: seq<NodeId>)
    requires Valid(st) && InStore(st, nodes)
    ensures InStore(st, r)
    decreases st.next - Lowest(nodes, st.next)
  {
    if |nodes| == 0 then []
    else
      ChildrenRise(st, nodes);
      var below := Levels(st, ChildNodes(st, nodes));
      assert forall k :: 0 <= k < |nodes + below| ==> (nodes + below)[k] in st.nodes by {
        forall k | 0 <= k < |nodes + below| ensures (nodes + below)[k] in st.nodes {
          if k >= |nodes| { assert (nodes + below)[k] == below[k - |nodes|]; }
        }
      }
      nodes + below
  }

  /** The levels hold the selected nodes and are closed under taking children. */
  lemma {:induction false} LevelsClosed(st: Store, nodes: seq<NodeId>, x: NodeId, c: NodeId)
    requires Valid(st) && InStore(st, nodes)
    requires x in Levels(st, nodes) && c in st.nodes[x].children
    ensures c in Levels(st, nodes)
    decreases st.next - Lowest(nodes, st.next)
  {
    ChildrenRise(st, nodes);
    var cs := ChildNodes(st, nodes);
    if x in nodes {
      var k :| 0 <= k < |nodes| && nodes[k] == x;
      assert c in cs;
      LevelsStart(st, cs);
    } else {
      assert x in Levels(st, cs);
      LevelsClosed(st, cs, x, c);
    }
  }

  lemma LevelsStart(st: Store, nodes: seq<NodeId>)
    requires Valid(st) && InStore(st, nodes)
    ensures forall x :: x in nodes ==> x in Levels(st, nodes)
  {
  }

  /** Everything in the levels lies below one of the selected nodes. */
  lemma {:induction false} LevelsUnder(st: Store, nodes: seq<NodeId>, x: NodeId)
    requires Valid(st) && InStore(st, nodes) && x in Levels(st, nodes)
    ensures x in st.nodes && exists k :: 0 <= k < |nodes| && Under(st, nodes[k], x)
    decreases st.next - Lowest(nodes, st.next)
  {
    ChildrenRise(st, nodes);
    var cs := ChildNodes(st, nodes);
    assert forall j :: 0 <= j < |Levels(st, nodes)| ==> Levels(st, nodes)[j] in st.nodes;
    if x in nodes {
      var k :| 0 <= k < |nodes| && nodes[k] == x;
      assert Ancestors(st, x)[0] == x;
    } else {
      assert x in Levels(st, cs);
      LevelsUnder(st, cs, x);
      var j :| 0 <= j < |cs| && Under(st, cs[j], x);
      assert cs[j] in cs;
      var k :| 0 <= k < |nodes| && cs[j] in st.nodes[nodes[k]].children;
      assert NodeOk(st, nodes[k]);
      ChildAncestors(st, nodes[k], cs[j]);
      UnderTransitive(st, nodes[k], cs[j], x);
    }
  }

  /** `descendants(qname)`: the selected nodes named `qname`, then `descendants(qname)` of all their children. */
  function DescendantsNamed(st: Store, s: Selection, q: QName): (r: Selection)
    requires Valid(st) && SelectionOk(st, s)
    ensures SelectionOk(st, r)
    ensures |s.nodes| == 0 ==> r == Empty()
    ensures |s.nodes| > 0 ==> r.document == s.document
    ensures forall k :: 0 <= k < |r.nodes| ==> NodeNamed(st, r.nodes[k], q)
    decreases st.next - Lowest(s.nodes, st.next)
  {
    if |s.nodes| == 0 then Empty()
    else
      ChildrenRise(st, s.nodes);
      var matches := Filter(s.nodes, (x: NodeId) => NodeNamed(st, x, q));
      var below := DescendantsNamed(st, Select(st, s), q);
      assert forall k :: 0 <= k < |matches| ==> matches[k] in matches;
      assert forall k :: 0 <= k < |matches + below.nodes| ==> NodeNamed(st, (matches + below.nodes)[k], q) by {
        forall k | 0 <= k < |matches + below.nodes| ensures NodeNamed(st, (matches + below.nodes)[k], q) {
          if k >= |matches| { assert (matches + below.nodes)[k] == below.nodes[k - |matches|]; }
        }
      }
      Selection(matches + below.nodes, s.document)
  }

  /** `descendants(qname)` keeps exactly the nodes named `qname` among the levels below the selection. */
  lemma {:induction false} DescendantsNamedFiltersLevels(st: Store, s: Selection, q: QName)
    requires Valid(st) && SelectionOk(st, s)
    ensures DescendantsNamed(st, s, q).nodes == Filter(Levels(st, s.nodes), (x: NodeId) => NodeNamed(st, x, q))
    decreases st.next - Lowest(s.nodes, st.next)
  {
    if |s.nodes| > 0 {
      ChildrenRise(st, s.nodes);
      DescendantsNamedFiltersLevels(st, Select(st, s), q);
      FilterAppend(s.nodes, Levels(st, ChildNodes(st, s.nodes)), (x: NodeId) => NodeNamed(st, x, q));
    }
  }

  /** `descendants()`: the selected elements, then `descendants()` of all their children. */
  function DescendantsAll(st: Store, s: Selection): (r: Selection)
    requires Valid(st) && SelectionOk(st, s)
    ensures SelectionOk(st, r)
    ensures |s.nodes| == 0 ==> r == Empty()
    ensures |s.nodes| > 0 ==> r.document == s.document
    ensures forall k :: 0 <= k < |r.nodes| ==> IsElement(st, r.nodes[k])
    decreases st.next - Lowest(s.nodes, st.next)
  {
    if |s.nodes| == 0 then Empty()
    else
      ChildrenRise(st, s.nodes);
      var matches := Filter(s.nodes, (x: NodeId) => IsElement(st, x));
      var below := DescendantsAll(st, Select(st, s));
      assert forall k :: 0 <= k < |matches| ==> matches[k] in matches;
      assert forall k :: 0 <= k < |matches + below.nodes| ==> IsElement(st, (matches + below.nodes)[k]) by {
        forall k | 0 <= k < |matches + below.nodes| ensures IsElement(st, (matches + below.nodes)[k]) {
          if k >= |matches| { assert (matches + below.nodes)[k] == below.nodes[k - |matches|]; }
        }
      }
      Selection(matches + below.nodes, s.document)
  }

  /** `descendants()` keeps exactly the elements among the levels below the selection. */
  lemma {:induction false} DescendantsAllFiltersLevels(st: Store, s: Selection)
    requires Valid(st) && SelectionOk(st, s)
    ensures DescendantsAll(st, s).nodes == Filter(Levels(st, s.nodes), (x: NodeId) => IsElement(st, x))
    decreases st.next - Lowest(s.nodes, st.next)
  {
    if |s.nodes| > 0 {
      ChildrenRise(st, s.nodes);
      DescendantsAllFiltersLevels(st, Select(st, s));
      FilterAppend(s.nodes, Levels(st, ChildNodes(st, s.nodes)), (x: NodeId) => IsElement(st, x));
    }
  }

  /**
   * Membership in `descendants(qname)`: every result is named `qname` and
   * lies below a selected node; every node named `qname` reachable through
   * children from a result is a result too.
   */
  lemma DescendantsNamedMembers(st: Store, s: Selection, q: QName, x: NodeId)
    requires Valid(st) && SelectionOk(st, s)
    ensures x in DescendantsNamed(st, s, q).nodes <==> x in Levels(st, s.nodes) && NodeNamed(st, x, q)
    ensures x in DescendantsNamed(st, s, q).nodes ==> exists k :: 0 <= k < |s.nodes| && Under(st, s.nodes[k], x)
    ensures forall c :: x in DescendantsNamed(st, s, q).nodes && c in st.nodes[x].children && NodeNamed(st, c, q)
              ==> c in DescendantsNamed(st, s, q).nodes
  {
    DescendantsNamedFiltersLevels(st, s, q);
    if x in Levels(st, s.nodes) {
      LevelsUnder(st, s.nodes, x);
      forall c | c in st.nodes[x].children ensures c in Levels(st, s.nodes) {
        LevelsClosed(st, s.nodes, x, c);
      }
    }
  }

  /** The same for `descendants()` and elements. */
  lemma DescendantsAllMembers(st: Store, s: Selection, x: NodeId)
    requires Valid(st) && SelectionOk(st, s)
    ensures x in DescendantsAll(st, s).nodes <==> x in Levels(st, s.nodes) && IsElement(st, x)
    ensures x in DescendantsAll(st, s).nodes ==> exists k :: 0 <= k < |s.nodes| && Under(st, s.nodes[k], x)
    ensures forall c :: x in DescendantsAll(st, s).nodes && c in st.nodes[x].children && IsElement(st, c)
              ==> c in DescendantsAll(st, s).nodes
  {
    DescendantsAllFiltersLevels(st, s);
    if x in Levels(st, s.nodes) {
      LevelsUnder(st, s.nodes, x);
      forall c | c in st.nodes[x].children ensures c in Levels(st, s.nodes) {
        LevelsClosed(st, s.nodes, x, c);
      }
    }
  }
}
