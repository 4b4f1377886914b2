/**
 * The legacy `Selection` of Select.swift and its extensions. Its algebra is
 * that of `Infoset` line for line and shares that model; what differs is
 * defined here: the `text` getter of Select+Text.swift joins the total
 * `nodeToText`, and `descendants(name)` of Select+Descendant.swift resolves
 * the name with `resolveQName`, default namespace included.
 */
module Legacy {
  import opened Names
  import opened Dom
  import opened Infoset
  import InfosetText
  import opened InfosetDescendants

  /** The legacy `text` getter: the total `nodeToText` of every selected node, in order. */
  function Text(st: Store, nodes: seq<NodeId>): (r: string)
    requires Valid(st) && InStore(st, nodes)
    ensures |nodes| == 0 ==> r == ""
    ensures |nodes| > 0 ==> InfosetText.NodeText(st, nodes[0]) <= r
  {
    if |nodes| == 0 then "" else InfosetText.NodeText(st, nodes[0]) + Text(st, nodes[1..])
  }

  /** The legacy getter and the `Infoset` one give the same text on every selection. */
  lemma {:induction false} TextAgrees(st: Store, nodes: seq<NodeId>)
    requires Valid(st) && InStore(st, nodes)
    ensures Text(st, nodes) == InfosetText.Text(st, nodes)
    decreases |nodes|
  {
    if |nodes| > 0 {
      InfosetText.OptNodeTextAgrees(st, nodes[0]);
      TextAgrees(st, nodes[1..]);
    }
  }

  /** The text of a concatenation is the concatenation of the texts. */
  lemma TextAppend(st: Store, a: seq<NodeId>, b: seq<NodeId>)
    requires Valid(st) && InStore(st, a) && InStore(st, b)
    ensures InStore(st, a + b)
    ensures Text(st, a + b) == Text(st, a) + Text(st, b)
  {
    InfosetText.TextAppend(st, a, b);
    TextAgrees(st, a);
    TextAgrees(st, b);
    TextAgrees(st, a + b);
  }

  /** `descendants(name)`: `descendants(qname)` of the name resolved against the document's context, default namespace included. */
  function DescendantsByName(st: Store, s: Selection, name: string): (r: Selection)
    requires Valid(st) && SelectionOk(st, s)
    ensures SelectionOk(st, r)
    ensures |s.nodes| == 0 ==> r == Empty()
    ensures forall k :: 0 <= k < |r.nodes| ==>
              NodeNamed(st, r.nodes[k], ResolveQName(NamespaceContextOf(st, s), name, true))
    ensures forall x :: x in r.nodes <==>
              x in Levels(st, s.nodes) && NodeNamed(st, x, ResolveQName(NamespaceContextOf(st, s), name, true))
  {
    DescendantsNamedFiltersLevels(st, s, ResolveQName(NamespaceContextOf(st, s), name, true));
    DescendantsNamed(st, s, ResolveQName(NamespaceContextOf(st, s), name, true))
  }

  /**
   * A plain name finds the nodes of that local name in the document's
   * default namespace when it has one, and in no namespace otherwise.
   */
  lemma DescendantsPlainName(st: Store, s: Selection, name: string)
    requires Valid(st) && SelectionOk(st, s) && ':' !in name
    ensures var ctx := NamespaceContextOf(st, s);
            && ("" in ctx ==> DescendantsByName(st, s, name) == DescendantsNamed(st, s, QName(name, ctx[""])))
            && ("" !in ctx ==> DescendantsByName(st, s, name) == DescendantsNamed(st, s, Unqualified(name)))
  {
    ResolvePlainName(NamespaceContextOf(st, s), name, true);
  }

  /** A name `prefix:local` finds the nodes of local name `local` in the URI the document binds `prefix` to, or in none. */
  lemma DescendantsPrefixedName(st: Store, s: Selection, prefix: string, local: string)
    requires Valid(st) && SelectionOk(st, s) && ':' !in prefix && ':' !in local
    ensures var ctx := NamespaceContextOf(st, s);
            DescendantsByName(st, s, prefix + ":" + local)
              == DescendantsNamed(st, s, QName(local, if prefix in ctx then ctx[prefix] else ""))
  {
    ResolvePrefixedName(NamespaceContextOf(st, s), prefix, local, true);
  }
}
