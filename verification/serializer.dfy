/**
 * The serializer of Serializer.swift: a handler of the walk of
 * `Document.traverse(handler:)` that writes the document as text.
 *
 * The serializer changes the tree only by adding namespace declarations
 * to working contexts (`assureNamespaceDeclaration`); the walk reads only
 * children and node kinds. The events are therefore those of the tree as
 * it was, and the run is a fold of `Step` over them that threads the
 * store along. A trap of the source (a negative repeat count, a forced
 * unwrap of `nil`) is `None`.
 */
module Serializer {
  import opened Wrappers
  import opened Names
  import Strings
  import opened Dom
  import opened Traversal
  import Escaping
  import InfosetAttributes

  datatype SerializerOption = Indent | OmitXmlDeclaration

  datatype Settings = Settings(indent: bool, omitDeclaration: bool)

  function SettingsOf(options: seq<SerializerOption>): Settings
  {
    Settings(Indent in options, OmitXmlDeclaration in options)
  }

  /** `Document.version`, which the source fixes. */
  const Version: string := "1.0"

  // ------------------------------------------------------------ what the serializer may change

  /** A node with its element's working context blanked out: everything the serializer leaves alone. */
  function Shape(n: Node): Node
  {
    if n.content.ElementNode? then n.(content := n.content.(namespaceContext := None)) else n
  }

  /** `st'` differs from `st` at most in working contexts. */
  predicate SameShape(st: Store, st': Store)
  {
    && st'.next == st.next && st'.nodes.Keys == st.nodes.Keys
    && forall x | x in st.nodes :: Shape(st'.nodes[x]) == Shape(st.nodes[x])
  }

  /** `ctx'` keeps every binding of `ctx`. */
  predicate ContextExtends(ctx: Option<Context>, ctx': Option<Context>)
  {
    ctx.Some? ==> ctx'.Some? && forall p | p in ctx.value :: p in ctx'.value && ctx'.value[p] == ctx.value[p]
  }

  /** Every working context of `st` survives into `st'` with all its bindings. */
  predicate KeepsBindings(st: Store, st': Store)
  {
    forall x | x in st.nodes && IsElement(st, x) && IsElement(st', x) ::
      ContextExtends(st.nodes[x].content.namespaceContext, st'.nodes[x].content.namespaceContext)
  }

  /** A store has its own shape and keeps its own bindings. */
  lemma Unchanged(st: Store)
    ensures SameShape(st, st) && KeepsBindings(st, st)
  {
  }

  /** `st'` keeps every record of `st` except, possibly, that of `e`. */
  predicate OnlyAt(st: Store, st': Store, e: NodeId)
  {
    forall x | x in st.nodes && x != e :: x in st'.nodes && st'.nodes[x] == st.nodes[x]
  }

  /** Element chains are built from parents and node kinds only. */
  lemma {:induction false} ChainShape(st: Store, st': Store, e: NodeId)
    requires Valid(st) && Valid(st') && SameShape(st, st') && IsElement(st, e)
    ensures IsElement(st', e) && ElementChain(st', e) == ElementChain(st, e)
    decreases e
  {
    assert NodeOk(st, e);
    assert Shape(st'.nodes[e]) == Shape(st.nodes[e]);
    match st.nodes[e].parent
    case None =>
    case Some(p) =>
      assert Shape(st'.nodes[p]) == Shape(st.nodes[p]);
      if IsElement(st, p) {
        ChainShape(st, st', p);
      }
  }

  /**
   * With the same shape and every binding kept, a URI that has a prefix
   * keeps having one.
   */
  lemma PrefixSurvives(st: Store, st': Store, e: NodeId, uri: string)
    requires Valid(st) && Valid(st') && SameShape(st, st') && KeepsBindings(st, st')
    requires IsElement(st, e)
    ensures IsElement(st', e) && (ResolvePrefix(st, e, uri).Some? ==> ResolvePrefix(st', e, uri).Some?)
  {
    ChainShape(st, st', e);
    if ResolvePrefix(st, e, uri).Some? {
      PrefixKept(st, st', e, uri);
    }
  }

  lemma PrefixKept(st: Store, st': Store, e: NodeId, uri: string)
    requires Valid(st) && Valid(st') && SameShape(st, st') && KeepsBindings(st, st')
    requires IsElement(st, e) && IsElement(st', e) && ElementChain(st', e) == ElementChain(st, e)
    requires ResolvePrefix(st, e, uri).Some?
    ensures ResolvePrefix(st', e, uri).Some?
  {
    var k := AnswerIndex(st, e, uri);
    var x := ElementChain(st, e)[k];
    BindingKept(st, st', x, uri);
    AnswerAt(st', e, uri, k);
  }

  /** Where along the chain a found prefix comes from. */
  lemma AnswerIndex(st: Store, e: NodeId, uri: string) returns (k: nat)
    requires Valid(st) && IsElement(st, e) && ResolvePrefix(st, e, uri).Some?
    ensures k < |ElementChain(st, e)| && OwnAnswer(st, ElementChain(st, e)[k], PrefixOf(uri)).Some?
  {
    var chain := ElementChain(st, e);
    k :| 0 <= k < |chain| && OwnAnswer(st, chain[k], PrefixOf(uri)) == ResolvePrefix(st, e, uri);
  }

  /** An answer anywhere along the chain means the lookup finds a prefix. */
  lemma AnswerAt(st: Store, e: NodeId, uri: string, k: nat)
    requires Valid(st) && IsElement(st, e) && k < |ElementChain(st, e)|
    requires OwnAnswer(st, ElementChain(st, e)[k], PrefixOf(uri)).Some?
    ensures ResolvePrefix(st, e, uri).Some?
  {
  }

  /** An element that has a prefix for `uri` in its own context still has one once its bindings are kept. */
  lemma BindingKept(st: Store, st': Store, x: NodeId, uri: string)
    requires SameShape(st, st') && KeepsBindings(st, st') && IsElement(st, x)
    requires OwnAnswer(st, x, PrefixOf(uri)).Some?
    ensures IsElement(st', x) && OwnAnswer(st', x, PrefixOf(uri)).Some?
  {
    var ctx := st.nodes[x].content.namespaceContext.value;
    var p := ReversePrefix(ctx, uri).value;
    assert Lookup(ctx, p) == Some(uri);
    assert Shape(st'.nodes[x]) == Shape(st.nodes[x]);
    assert IsElement(st', x);
    var ctx' := st'.nodes[x].content.namespaceContext.value;
    assert Lookup(ctx', p) == Some(uri);
  }

  // ------------------------------------------------------------ assureNamespaceDeclaration

  /** Whose URI a synthesized prefix is bound to: the element's name's, as written, or the one asked for. */
  datatype Rule = AsWritten | Intended

  function BoundURI(st: Store, e: NodeId, uri: string, rule: Rule): string
    requires IsElement(st, e)
  {
    match rule
    case AsWritten => st.nodes[e].content.name.namespaceURI
    case Intended => uri
  }

  /** The store after an assurance and the prefix it answered. */
  datatype Assured = Assured(store: Store, prefix: string)

  /** `"ns\(num)"` */
  function PrefixName(n: nat): string
  {
    "ns" + Strings.Decimal(n)
  }

  lemma PrefixNameInjective(a: nat, b: nat)
    requires PrefixName(a) == PrefixName(b)
    ensures a == b
  {
    assert PrefixName(a)[2..] == Strings.Decimal(a);
    assert PrefixName(b)[2..] == Strings.Decimal(b);
    Strings.DecimalInjective(a, b);
  }

  lemma PrefixNamesDiffer(a: nat, b: nat)
    requires a != b
    ensures PrefixName(a) != PrefixName(b)
  {
    if PrefixName(a) == PrefixName(b) {
      PrefixNameInjective(a, b);
    }
  }

  /** The loop `while resolveURI("ns\(num)") != nil { num += 1 }`, started at `n`, over the prefixes `bound`. */
  function FirstFree(bound: set<string>, n: nat): (r: nat)
    ensures n <= r && PrefixName(r) !in bound
    ensures forall m :: n <= m < r ==> PrefixName(m) in bound
    decreases |bound|
  {
    if PrefixName(n) in bound then
      var r := FirstFree(bound - {PrefixName(n)}, n + 1);
      PrefixNamesDiffer(n, r);
      r
    else n
  }

  /** The working context a declaration goes into: the element's own, or a new empty one. */
  function OwnContext(st: Store, e: NodeId): Context
    requires IsElement(st, e)
  {
    st.nodes[e].content.namespaceContext.GetOr(map[])
  }

  /**
   * `assureNamespaceDeclaration(uri, in: e)`: the prefix the chain of `e`
   * already has for `uri`; failing that, the first `ns<n>` the chain does
   * not bind, declared in the working context of `e` (created empty if
   * need be) and bound as `rule` says.
   */
  function Assure(st: Store, e: NodeId, uri: string, rule: Rule): (r: Assured)
    requires Valid(st) && IsElement(st, e)
    ensures Valid(r.store) && SameShape(st, r.store) && KeepsBindings(st, r.store)
    ensures ResolvePrefix(st, e, uri).Some? ==> r == Assured(st, ResolvePrefix(st, e, uri).value)
    ensures ResolvePrefix(st, e, uri).None? ==>
              && ResolveURI(st, e, r.prefix).None?
              && (exists n: nat :: r.prefix == PrefixName(n)
                    && forall m :: 0 <= m < n ==> ResolveURI(st, e, PrefixName(m)).Some?)
              && r.prefix !in OwnContext(st, e)
              && r.store == SetContext(st, e, Some(OwnContext(st, e)[r.prefix := BoundURI(st, e, uri, rule)]))
    ensures IsElement(r.store, e) && OnlyAt(st, r.store, e)
    ensures uri == BoundURI(st, e, uri, rule) ==> ResolvePrefix(r.store, e, uri) == Some(r.prefix)
  {
    match ResolvePrefix(st, e, uri)
    case Some(p) => Assured(st, p)
    case None =>
      var n := FirstFree(BoundPrefixes(st, e), 0);
      var p := PrefixName(n);
      FreshDeclaration(st, e, uri, rule, n);
      Assured(SetContext(st, e, Some(OwnContext(st, e)[p := BoundURI(st, e, uri, rule)])), p)
  }

  /** The declaration `Assure` makes when the chain has no prefix for `uri`: the first free `ns<n>`, bound in the element's own context. */
  lemma FreshDeclaration(st: Store, e: NodeId, uri: string, rule: Rule, n: nat)
    requires Valid(st) && IsElement(st, e) && ResolvePrefix(st, e, uri).None?
    requires n == FirstFree(BoundPrefixes(st, e), 0)
    ensures var p := PrefixName(n);
            var st' := SetContext(st, e, Some(OwnContext(st, e)[p := BoundURI(st, e, uri, rule)]));
            && SameShape(st, st') && KeepsBindings(st, st')
            && ResolveURI(st, e, p).None?
            && (forall m :: 0 <= m < n ==> ResolveURI(st, e, PrefixName(m)).Some?)
            && p !in OwnContext(st, e)
            && IsElement(st', e) && OnlyAt(st, st', e)
            && (uri == BoundURI(st, e, uri, rule) ==> ResolvePrefix(st', e, uri) == Some(p))
  {
    var p := PrefixName(n);
    var u := BoundURI(st, e, uri, rule);
    assert ElementChain(st, e)[0] == e;
    assert OwnAnswer(st, e, UriOf(p, Working)).None?;
    AssureKeeps(st, e, p, u);
    SetContextShape(st, e, Some(OwnContext(st, e)[p := u]));
    OwnFree(st, e, uri);
    if u == uri {
      FreshAnswers(st, e, p, uri);
    }
  }

  /** Declaring a prefix the element's own context lacks keeps every binding, and the new one answers for its URI. */
  lemma AssureKeeps(st: Store, e: NodeId, p: string, u: string)
    requires Valid(st) && IsElement(st, e) && p !in OwnContext(st, e)
    ensures var st' := SetContext(st, e, Some(OwnContext(st, e)[p := u]));
            SameShape(st, st') && KeepsBindings(st, st') && IsElement(st', e) && ResolvePrefix(st', e, u).Some?
  {
    var st' := SetContext(st, e, Some(OwnContext(st, e)[p := u]));
    SetContextKeeps(st, e, Some(OwnContext(st, e)[p := u]));
    assert ElementChain(st', e)[0] == e;
    assert Lookup(OwnContext(st, e)[p := u], p) == Some(u);
  }

  /** Replacing a working context by one that extends it keeps every binding of the store. */
  lemma SetContextKeeps(st: Store, e: NodeId, ctx: Option<Context>)
    requires Valid(st) && IsElement(st, e) && ContextExtends(st.nodes[e].content.namespaceContext, ctx)
    ensures SameShape(st, SetContext(st, e, ctx)) && KeepsBindings(st, SetContext(st, e, ctx))
  {
    var st' := SetContext(st, e, ctx);
    forall x | x in st.nodes && IsElement(st, x) && IsElement(st', x)
      ensures ContextExtends(st.nodes[x].content.namespaceContext, st'.nodes[x].content.namespaceContext)
    {
      if x != e {
        assert st'.nodes[x] == st.nodes[x];
      }
    }
  }

  /** An element whose own context has no prefix for `u` binds no key of it to `u`. */
  lemma OwnFree(st: Store, e: NodeId, u: string)
    requires IsElement(st, e)
    ensures OwnAnswer(st, e, PrefixOf(u)).None? ==> forall q :: Lookup(OwnContext(st, e), q) != Some(u)
  {
  }

  /** A prefix declared for a URI no key of the element's own context is bound to is the element's answer for it. */
  lemma FreshAnswers(st: Store, e: NodeId, p: string, u: string)
    requires Valid(st) && IsElement(st, e) && p !in OwnContext(st, e)
    requires forall q :: Lookup(OwnContext(st, e), q) != Some(u)
    ensures var st' := SetContext(st, e, Some(OwnContext(st, e)[p := u]));
            IsElement(st', e) && ResolvePrefix(st', e, u) == Some(p)
  {
    var ctx' := OwnContext(st, e)[p := u];
    var st' := SetContext(st, e, Some(ctx'));
    assert forall q :: q != p ==> Lookup(ctx', q) != Some(u) by {
      forall q | q != p ensures Lookup(ctx', q) != Some(u) {
        assert Lookup(ctx', q) == Lookup(OwnContext(st, e), q);
      }
    }
    ReversePrefixOfOnlyBinding(ctx', p, u);
    var chain := ElementChain(st', e);
    assert chain[0] == e;
    assert st'.nodes[e].content.namespaceContext == Some(ctx');
    assert OwnAnswer(st', chain[0], PrefixOf(u)) == Some(p);
  }

  /** Shapes compose, and so does keeping bindings between stores of one shape. */
  lemma KeepsBindingsTransitive(a: Store, b: Store, c: Store)
    requires SameShape(a, b) && SameShape(b, c) && KeepsBindings(a, b) && KeepsBindings(b, c)
    ensures SameShape(a, c) && KeepsBindings(a, c)
  {
    forall x | x in a.nodes && IsElement(a, x) && IsElement(c, x)
      ensures ContextExtends(a.nodes[x].content.namespaceContext, c.nodes[x].content.namespaceContext)
    {
      assert Shape(b.nodes[x]) == Shape(a.nodes[x]);
      assert IsElement(b, x);
    }
  }

  lemma KeepsBindingsThrough(a: Store, b: Store, r: Option<Writer>)
    requires SameShape(a, b) && KeepsBindings(a, b)
    requires r.Some? ==> SameShape(b, r.value.store) && KeepsBindings(b, r.value.store)
    ensures r.Some? ==> SameShape(a, r.value.store) && KeepsBindings(a, r.value.store)
  {
    if r.Some? {
      KeepsBindingsTransitive(a, b, r.value.store);
    }
  }

  // ------------------------------------------------------------ the parts of a start tag

  /** `xmlns` (`xmlns:p`) declarations the start tag writes, in order: the context's bindings sorted by prefix, without `xml`. */
  function Declarations(ctx: Option<Context>): (r: seq<Declaration>)
    ensures forall d :: d in r <==> ctx.Some? && d.prefix in ctx.value && d.prefix != XmlPrefix && d.uri == ctx.value[d.prefix]
    ensures forall i, j :: 0 <= i < j < |r| ==> Strings.Less(r[i].prefix, r[j].prefix)
  {
    match ctx
    case None => []
    case Some(c) =>
      var keys := SortedStrings(c.Keys);
      DeclarationsOf(c, keys)
  }

  /** A prefix the context does not bind is declared by none of its declarations. */
  lemma DeclarationsWithout(ctx: Option<Context>, p: string)
    requires p !in ctx.GetOr(map[])
    ensures forall d :: d in Declarations(ctx) ==> d.prefix != p
  {
  }

  /** The declarations of the bound prefixes among `keys`, which come sorted, in their order. */
  function DeclarationsOf(c: Context, keys: seq<string>): (r: seq<Declaration>)
    requires forall k :: 0 <= k < |keys| ==> keys[k] in c
    requires forall i, j :: 0 <= i < j < |keys| ==> Strings.Less(keys[i], keys[j])
    ensures forall d :: d in r <==> d.prefix in keys && d.prefix != XmlPrefix && d.uri == c[d.prefix]
    ensures forall i, j :: 0 <= i < j < |r| ==> Strings.Less(r[i].prefix, r[j].prefix)
  {
    if |keys| == 0 then []
    else
      var rest := DeclarationsOf(c, keys[1..]);
      assert forall p :: p in keys <==> p == keys[0] || p in keys[1..];
      var head := if keys[0] == XmlPrefix then [] else [Declaration(keys[0], c[keys[0]])];
      forall d | d in rest ensures Strings.Less(keys[0], d.prefix) {
        SortedHeadLeast(keys, d.prefix);
      }
      SortedAfterHead(head, rest, keys[0]);
      head + rest
  }

  /** A declaration of `least` put before sorted declarations of larger prefixes keeps them sorted. */
  lemma SortedAfterHead(head: seq<Declaration>, rest: seq<Declaration>, least: string)
    requires |head| <= 1 && (|head| == 1 ==> head[0].prefix == least)
    requires forall i, j :: 0 <= i < j < |rest| ==> Strings.Less(rest[i].prefix, rest[j].prefix)
    requires forall d :: d in rest ==> Strings.Less(least, d.prefix)
    ensures forall i, j :: 0 <= i < j < |head + rest| ==> Strings.Less((head + rest)[i].prefix, (head + rest)[j].prefix)
  {
    forall i, j | 0 <= i < j < |head + rest| ensures Strings.Less((head + rest)[i].prefix, (head + rest)[j].prefix) {
      if i >= |head| {
        assert (head + rest)[i] == rest[i - |head|] && (head + rest)[j] == rest[j - |head|];
      } else {
        assert (head + rest)[j] == rest[j - 1] && rest[j - 1] in rest;
      }
    }
  }

  lemma SortedHeadLeast(keys: seq<string>, p: string)
    requires |keys| > 0 && p in keys[1..]
    requires forall i, j :: 0 <= i < j < |keys| ==> Strings.Less(keys[i], keys[j])
    ensures Strings.Less(keys[0], p)
  {
    var m :| 0 <= m < |keys[1..]| && keys[1..][m] == p;
    assert keys[m + 1] == p;
  }

  /** ` xmlns="uri"` or ` xmlns:p="uri"` */
  function RenderDeclaration(d: Declaration): string
  {
    " xmlns" + (if d.prefix != "" then ":" + d.prefix else "") + "=" + Escaping.AttributeValue(d.uri)
  }

  function RenderDeclarations(ds: seq<Declaration>): string
  {
    if |ds| == 0 then "" else RenderDeclaration(ds[0]) + RenderDeclarations(ds[1..])
  }

  /** The name of a tag: `prefix:local`, or `local` for the empty prefix. */
  function TagName(prefix: string, local: string): string
  {
    if prefix != "" then prefix + ":" + local else local
  }

  /** The store after a piece of output and the text of that piece. */
  datatype Written = Written(store: Store, text: string)

  /**
   * The attribute loop of `startElement`: ` prefix:local="value"` for each
   * name in turn (the prefix and its colon only for a namespaced name,
   * written even when the prefix found is empty), assuring each prefix on
   * the way; a missing value is written as empty.
   */
  function AttributeList(st: Store, e: NodeId, names: seq<QName>, rule: Rule): (r: Written)
    requires Valid(st) && IsElement(st, e)
    requires forall k :: 0 <= k < |names| ==> names[k] in st.nodes[e].content.attributes
    ensures Valid(r.store) && SameShape(st, r.store) && KeepsBindings(st, r.store) && IsElement(r.store, e)
    ensures OnlyAt(st, r.store, e)
    ensures |names| == 0 ==> r == Written(st, "")
    decreases |names|
  {
    if |names| == 0 then Written(st, "")
    else
      var q := names[0];
      var named := AssureName(st, e, q, rule);
      var rest := AttributeList(named.store, e, names[1..], rule);
      KeepsBindingsTransitive(st, named.store, rest.store);
      Written(rest.store, RenderAttribute(named.prefix, q, ValueOf(st, e, q)) + rest.text)
  }

  /** The value of the attribute `q` of `e`, empty when the attribute node holds none. */
  function ValueOf(st: Store, e: NodeId, q: QName): string
    requires Valid(st) && IsElement(st, e) && q in st.nodes[e].content.attributes
  {
    assert NodeOk(st, e);
    var a := st.nodes[e].content.attributes[q];
    assert AttributeOk(st, e, q, a);
    st.nodes[a].content.attributeValue.GetOr("")
  }

  /** One attribute as a start tag writes it: ` p:local="value"`, the prefix and colon only for a namespaced name. */
  function RenderAttribute(prefix: string, q: QName, value: string): string
  {
    " " + (if q.namespaceURI != "" then prefix + ":" else "") + q.localName + "=" + Escaping.AttributeValue(value)
  }

  /** The attributes `names` of `e`, in that order, each written with its prefix from `prefixes` and its value in `st`. */
  function RenderAttributes(st: Store, e: NodeId, names: seq<QName>, prefixes: seq<string>): string
    requires Valid(st) && IsElement(st, e) && |prefixes| == |names|
    requires forall k :: 0 <= k < |names| ==> names[k] in st.nodes[e].content.attributes
  {
    if |names| == 0 then ""
    else RenderAttribute(prefixes[0], names[0], ValueOf(st, e, names[0])) + RenderAttributes(st, e, names[1..], prefixes[1..])
  }

  /** The prefix of the element's or an attribute's name: assured for a namespaced name, none otherwise. */
  function AssureName(st: Store, e: NodeId, q: QName, rule: Rule): (r: Assured)
    requires Valid(st) && IsElement(st, e)
    ensures Valid(r.store) && SameShape(st, r.store) && KeepsBindings(st, r.store) && OnlyAt(st, r.store, e)
    ensures IsElement(r.store, e) && r.store.nodes[e].content.attributes == st.nodes[e].content.attributes
  {
    var r := if q.namespaceURI != "" then Assure(st, e, q.namespaceURI, rule) else Assured(st, "");
    assert Shape(r.store.nodes[e]) == Shape(st.nodes[e]);
    r
  }

  /** What a start tag is made of, apart from what closes the parent's start tag. */
  datatype OpenTag = OpenTag(store: Store, prefix: string, declarations: seq<Declaration>, attributes: string)

  /**
   * The start tag of `e`: the element's prefix is assured first, then, as
   * written, the declarations of its working context are listed and only
   * then are the attribute prefixes assured. Under the intended rule the
   * attribute prefixes are assured before the declarations are listed.
   */
  function Open(st: Store, e: NodeId, rule: Rule): (r: OpenTag)
    requires Valid(st) && IsElement(st, e)
    ensures Valid(r.store) && SameShape(st, r.store) && KeepsBindings(st, r.store) && IsElement(r.store, e)
    ensures OnlyAt(st, r.store, e)
    ensures var u := st.nodes[e].content.name.namespaceURI;
            u != "" ==> ResolvePrefix(r.store, e, u).Some?
  {
    var q := st.nodes[e].content.name;
    var named := AssureName(st, e, q, rule);
    var attrs := st.nodes[e].content.attributes;
    var attributes := AttributeList(named.store, e, InfosetAttributes.SortedNames(attrs), rule);
    KeepsBindingsTransitive(st, named.store, attributes.store);
    var listed := if rule == AsWritten then named.store else attributes.store;
    assert Shape(listed.nodes[e]) == Shape(st.nodes[e]);
    PrefixSurvives(named.store, attributes.store, e, q.namespaceURI);
    OpenTag(attributes.store, named.prefix, Declarations(listed.nodes[e].content.namespaceContext), attributes.text)
  }

  // ------------------------------------------------------------ writer state

  /** `State`: the element a frame belongs to (`nil` for the outermost one) and what has been written inside it. */
  datatype Frame = Frame(element: Option<NodeId>, isEmpty: bool, hasText: bool, hasChildElements: bool)

  /** `State()`, the frame the `state` getter pushes onto an empty stack. */
  const Outer: Frame := Frame(None, true, false, false)

  /** The serializer: the tree it annotates, the text so far, `identLevel` and the stack of states. */
  datatype Writer = Writer(store: Store, out: string, level: int, stack: seq<Frame>)

  /** The stack as the `state` getter leaves it: never empty. */
  function Current(stack: seq<Frame>): (r: seq<Frame>)
    ensures |r| > 0 && (|stack| > 0 ==> r == stack)
  {
    if |stack| == 0 then [Outer] else stack
  }

  function Top(stack: seq<Frame>): Frame
  {
    var c := Current(stack); c[|c| - 1]
  }

  function WithTop(stack: seq<Frame>, f: Frame): (r: seq<Frame>)
    ensures |r| == |Current(stack)| && r[|r| - 1] == f
  {
    var c := Current(stack); c[..|c| - 1] + [f]
  }

  /** `indentString()`: four spaces per level; `String(repeating:count:)` traps on a negative count. */
  function Indentation(level: int): Option<string>
  {
    if level < 0 then None else Some(Strings.Repeat(' ', 4 * level))
  }

  /** `<?xml version="1.0" encoding="utf-8"?>` and a line break, with ` standalone="true"` for a standalone document. */
  function XmlDeclaration(standalone: bool): string
  {
    "<?xml version=" + Escaping.AttributeValue(Version) + " encoding=" + Escaping.AttributeValue("utf-8")
    + (if standalone then " standalone=\"true\"" else "") + "?>" + "\n"
  }

  /**
   * What `startElement` writes before `<`: `>` when the parent's start tag
   * is still open, and with indentation a line break and indentation after
   * it, and another when the parent already has child elements.
   */
  function Lead(top: Frame, indent: bool, level: int): Option<string>
  {
    var opens := top.element.Some? && top.isEmpty;
    var separates := top.element.Some? && top.hasChildElements && indent;
    if !(indent && (opens || separates)) then Some(if opens then ">" else "")
    else match Indentation(level)
      case None => None
      case Some(ind) => Some((if opens then ">" + "\n" + ind else "") + (if separates then "\n" + ind else ""))
  }

  /** `startDocument`: the XML declaration unless it is omitted. */
  function StartDocumentStep(w: Writer, settings: Settings, d: NodeId): (r: Writer)
    requires IsDocument(w.store, d)
    ensures r.store == w.store && w.out <= r.out
  {
    if settings.omitDeclaration then w
    else w.(out := w.out + XmlDeclaration(w.store.nodes[d].content.standalone))
  }

  /** `startElement`: closes the parent's start tag as needed, writes the start tag, pushes a fresh state. */
  function StartElementStep(w: Writer, settings: Settings, e: NodeId, rule: Rule): (r: Option<Writer>)
    requires Valid(w.store) && IsElement(w.store, e)
    ensures r.Some? ==> Valid(r.value.store) && SameShape(w.store, r.value.store) && KeepsBindings(w.store, r.value.store)
    ensures r.Some? ==> OnlyAt(w.store, r.value.store, e)
  {
    var top := Top(w.stack);
    match Lead(top, settings.indent, w.level)
    case None => None
    case Some(lead) =>
      var q := w.store.nodes[e].content.name;
      var tag := Open(w.store, e, rule);
      var frames := WithTop(w.stack, top.(isEmpty := false, hasChildElements := true));
      Some(Writer(tag.store,
                  w.out + lead + "<" + TagName(tag.prefix, q.localName) + RenderDeclarations(tag.declarations) + tag.attributes,
                  w.level + 1, frames + [Frame(Some(e), true, false, false)]))
  }

  /**
   * `endElement`: `/>` when nothing was written inside, else (after a line
   * break and indentation when indenting an element with child elements)
   * an end tag whose prefix is looked up afresh; the forced unwrap of that
   * lookup traps when it finds nothing.
   */
  function EndElementStep(w: Writer, settings: Settings, e: NodeId): (r: Option<Writer>)
    requires Valid(w.store) && IsElement(w.store, e)
    ensures r.Some? ==> r.value.store == w.store && w.out <= r.value.out
  {
    var level := w.level - 1;
    var top := Top(w.stack);
    var c := Current(w.stack);
    var popped := c[..|c| - 1];
    var q := w.store.nodes[e].content.name;
    if top.isEmpty then Some(Writer(w.store, w.out + "/>", level, popped))
    else
      var brk := if settings.indent && top.hasChildElements then
                   (match Indentation(level) case None => None case Some(ind) => Some("\n" + ind))
                 else Some("");
      var prefix := if q.namespaceURI != "" then ResolvePrefix(w.store, e, q.namespaceURI) else Some("");
      if brk.None? || prefix.None? then None
      else Some(Writer(w.store, w.out + brk.value + "</" + TagName(prefix.value, q.localName) + ">", level, popped))
  }

  /** `textNode` (which CDATA nodes reach too): closes an open start tag, then the escaped text. */
  function CharactersStep(w: Writer, c: NodeId): (r: Writer)
    requires c in w.store.nodes && (w.store.nodes[c].content.TextNode? || w.store.nodes[c].content.CDataNode?)
    ensures r.store == w.store && w.out <= r.out
  {
    var top := Top(w.stack);
    var gt := if top.element.Some? && top.isEmpty then ">" else "";
    Writer(w.store, w.out + gt + Escaping.Text(w.store.nodes[c].content.value), w.level,
           WithTop(w.stack, top.(isEmpty := false, hasText := true)))
  }

  /** The node of an event has the kind its callback expects. */
  predicate EventFits(st: Store, ev: Event)
  {
    match ev
    case StartDocument(d) => IsDocument(st, d)
    case StartElement(e) => IsElement(st, e)
    case EndElement(e) => IsElement(st, e)
    case Characters(c) => c in st.nodes && (st.nodes[c].content.TextNode? || st.nodes[c].content.CDataNode?)
    case _ => true
  }

  lemma EventFitsShape(st: Store, st': Store, ev: Event)
    requires SameShape(st, st') && EventFits(st, ev)
    ensures EventFits(st', ev)
  {
    match ev
    case StartDocument(d) => assert Shape(st'.nodes[d]) == Shape(st.nodes[d]);
    case StartElement(e) => assert Shape(st'.nodes[e]) == Shape(st.nodes[e]);
    case EndElement(e) => assert Shape(st'.nodes[e]) == Shape(st.nodes[e]);
    case Characters(c) => assert Shape(st'.nodes[c]) == Shape(st.nodes[c]);
    case _ =>
  }

  /** One callback. Comments, the end of the document (and instructions, never reported) write nothing. */
  function Step(w: Writer, settings: Settings, ev: Event, rule: Rule): (r: Option<Writer>)
    requires Valid(w.store) && EventFits(w.store, ev)
    ensures r.Some? ==> Valid(r.value.store) && SameShape(w.store, r.value.store) && KeepsBindings(w.store, r.value.store)
    ensures r.Some? ==> w.out <= r.value.out
    ensures r.Some? && ev.StartElement? ==> OnlyAt(w.store, r.value.store, ev.node)
    ensures r.Some? && !ev.StartElement? ==> r.value.store == w.store
  {
    Unchanged(w.store);
    match ev
    case StartDocument(d) => Some(StartDocumentStep(w, settings, d))
    case StartElement(e) => StartElementStep(w, settings, e, rule)
    case EndElement(e) => EndElementStep(w, settings, e)
    case Characters(c) => Some(CharactersStep(w, c))
    case _ => Some(w)
  }

  /** The events in order; `None` once a callback traps. */
  function Run(w: Writer, settings: Settings, events: seq<Event>, rule: Rule): (r: Option<Writer>)
    requires Valid(w.store) && forall k :: 0 <= k < |events| ==> EventFits(w.store, events[k])
    ensures r.Some? ==> Valid(r.value.store) && SameShape(w.store, r.value.store) && KeepsBindings(w.store, r.value.store)
    ensures r.Some? ==> w.out <= r.value.out
    decreases |events|
  {
    if |events| == 0 then Some(w)
    else
      match Step(w, settings, events[0], rule)
      case None => None
      case Some(w') =>
        forall k | 1 <= k < |events| ensures EventFits(w'.store, events[k]) {
          EventFitsShape(w.store, w'.store, events[k]);
        }
        var r := Run(w', settings, events[1..], rule);
        KeepsBindingsThrough(w.store, w'.store, r);
        r
  }

  // ------------------------------------------------------------ the walk fits the callbacks

  predicate AllFit(st: Store, events: seq<Event>)
  {
    forall k :: 0 <= k < |events| ==> EventFits(st, events[k])
  }

  lemma AllFitAppend(st: Store, a: seq<Event>, b: seq<Event>)
    requires AllFit(st, a) && AllFit(st, b)
    ensures AllFit(st, a + b)
  {
    forall k | 0 <= k < |a + b| ensures EventFits(st, (a + b)[k]) {
      if k >= |a| { assert (a + b)[k] == b[k - |a|]; }
    }
  }

  lemma {:induction false} ElementEventsFit(st: Store, e: NodeId)
    requires Valid(st) && IsElement(st, e)
    ensures AllFit(st, ElementEvents(st, e))
    decreases st.next - e, 1
  {
    assert NodeOk(st, e);
    ChildEventsFit(st, e, 0);
    AllFitAppend(st, [StartElement(e)], ChildEvents(st, e, 0));
    AllFitAppend(st, [StartElement(e)] + ChildEvents(st, e, 0), [EndElement(e)]);
  }

  lemma {:induction false} ChildEventsFit(st: Store, e: NodeId, i: nat)
    requires Valid(st) && IsElement(st, e) && i <= |st.nodes[e].children|
    ensures AllFit(st, ChildEvents(st, e, i))
    decreases st.next - e, 0, |st.nodes[e].children| - i
  {
    assert NodeOk(st, e);
    var cs := st.nodes[e].children;
    if i < |cs| {
      assert ChildOk(st, e, cs[i]);
      assert NodeOk(st, cs[i]);
      if st.nodes[cs[i]].content.ElementNode? {
        ElementEventsFit(st, cs[i]);
      }
      ChildEventsFit(st, e, i + 1);
      AllFitAppend(st, NodeEvents(st, cs[i]), ChildEvents(st, e, i + 1));
    }
  }

  /** Every event of the walk of a document names a node of the kind its callback takes. */
  lemma DocumentEventsFit(st: Store, d: NodeId)
    requires Valid(st) && IsDocument(st, d)
    ensures AllFit(st, DocumentEvents(st, d))
  {
    assert NodeOk(st, d);
    var body := match st.nodes[d].content.documentElement
      case None => []
      case Some(root) => ElementEvents(st, root);
    if st.nodes[d].content.documentElement.Some? {
      ElementEventsFit(st, st.nodes[d].content.documentElement.value);
    }
    AllFitAppend(st, [StartDocument(d)], body);
    AllFitAppend(st, [StartDocument(d)] + body, [EndDocument(d)]);
  }

  // ------------------------------------------------------------ the serializer never traps

  /**
   * The state of the serializer while the elements `open` (outermost
   * first) are open: one level and one state per open element above the
   * outermost state, and a prefix for the URI of each open element.
   */
  predicate Balanced(w: Writer, open: seq<NodeId>)
  {
    && Valid(w.store) && w.level == |open| && |Current(w.stack)| == |open| + 1
    && forall k :: 0 <= k < |open| ==>
         && IsElement(w.store, open[k])
         && (w.store.nodes[open[k]].content.name.namespaceURI != "" ==>
               ResolvePrefix(w.store, open[k], w.store.nodes[open[k]].content.name.namespaceURI).Some?)
  }

  lemma BalancedKeepsPrefixes(w: Writer, st': Store, open: seq<NodeId>)
    requires Balanced(w, open) && Valid(st') && SameShape(w.store, st') && KeepsBindings(w.store, st')
    ensures forall k :: 0 <= k < |open| ==>
              && IsElement(st', open[k])
              && (st'.nodes[open[k]].content.name.namespaceURI != "" ==>
                    ResolvePrefix(st', open[k], st'.nodes[open[k]].content.name.namespaceURI).Some?)
  {
    forall k | 0 <= k < |open|
      ensures IsElement(st', open[k])
      ensures st'.nodes[open[k]].content.name.namespaceURI != "" ==>
                ResolvePrefix(st', open[k], st'.nodes[open[k]].content.name.namespaceURI).Some?
    {
      var x := open[k];
      assert Shape(st'.nodes[x]) == Shape(w.store.nodes[x]);
      PrefixSurvives(w.store, st', x, w.store.nodes[x].content.name.namespaceURI);
    }
  }

  lemma StartBalanced(w: Writer, settings: Settings, e: NodeId, rule: Rule, open: seq<NodeId>)
    requires Balanced(w, open) && IsElement(w.store, e)
    ensures StartElementStep(w, settings, e, rule).Some?
    ensures Balanced(StartElementStep(w, settings, e, rule).value, open + [e])
  {
    assert Indentation(w.level).Some?;
    assert Lead(Top(w.stack), settings.indent, w.level).Some?;
    var r := StartElementStep(w, settings, e, rule).value;
    var tag := Open(w.store, e, rule);
    assert r.store == tag.store;
    BalancedKeepsPrefixes(w, tag.store, open);
    assert Shape(tag.store.nodes[e]) == Shape(w.store.nodes[e]);
    var open' := open + [e];
    forall k | 0 <= k < |open'|
      ensures IsElement(tag.store, open'[k])
      ensures tag.store.nodes[open'[k]].content.name.namespaceURI != "" ==>
                ResolvePrefix(tag.store, open'[k], tag.store.nodes[open'[k]].content.name.namespaceURI).Some?
    {
      if k < |open| { assert open'[k] == open[k]; }
    }
  }

  lemma EndBalanced(w: Writer, settings: Settings, e: NodeId, open: seq<NodeId>)
    requires Balanced(w, open) && IsElement(w.store, e) && |open| > 0 && open[|open| - 1] == e
    ensures EndElementStep(w, settings, e).Some?
    ensures Balanced(EndElementStep(w, settings, e).value, open[..|open| - 1])
  {
    assert Indentation(w.level - 1).Some?;
    var open' := open[..|open| - 1];
    forall k | 0 <= k < |open'| ensures open'[k] == open[k] { }
  }

  /** One callback on a balanced serializer does not trap and leaves it balanced for the elements then open. */
  lemma StepBalanced(w: Writer, settings: Settings, ev: Event, rule: Rule, open: seq<NodeId>)
    requires Balanced(w, open) && EventFits(w.store, ev) && Replay([ev], open).Some?
    ensures Step(w, settings, ev, rule).Some?
    ensures Balanced(Step(w, settings, ev, rule).value, Replay([ev], open).value)
  {
    match ev
    case StartElement(e) =>
      assert Replay([ev], open) == Some(open + [e]);
      StartBalanced(w, settings, e, rule, open);
    case EndElement(e) =>
      assert Replay([ev], open) == Some(open[..|open| - 1]);
      EndBalanced(w, settings, e, open);
    case Characters(c) =>
    case StartDocument(d) =>
    case EndDocument(d) =>
    case Comment(c) =>
  }

  lemma {:induction false} RunBalanced(w: Writer, settings: Settings, events: seq<Event>, rule: Rule, open: seq<NodeId>)
    requires Balanced(w, open) && AllFit(w.store, events) && Replay(events, open).Some?
    ensures Run(w, settings, events, rule).Some?
    ensures Balanced(Run(w, settings, events, rule).value, Replay(events, open).value)
    decreases |events|
  {
    if |events| > 0 {
      ReplayAppend([events[0]], events[1..], open);
      assert [events[0]] + events[1..] == events;
      StepBalanced(w, settings, events[0], rule, open);
      var w' := Step(w, settings, events[0], rule).value;
      forall k | 0 <= k < |events[1..]| ensures EventFits(w'.store, events[1..][k]) {
        EventFitsShape(w.store, w'.store, events[k + 1]);
      }
      RunBalanced(w', settings, events[1..], rule, Replay([events[0]], open).value);
    }
  }

  /** The text of a document, or `None` if a callback traps (it never does: `SerializeNeverTraps`). */
  function Serialize(st: Store, d: NodeId, settings: Settings, rule: Rule): Option<string>
    requires Valid(st) && IsDocument(st, d)
  {
    DocumentEventsFit(st, d);
    match Run(Writer(st, "", 0, []), settings, DocumentEvents(st, d), rule)
    case None => None
    case Some(w) => Some(w.out)
  }

  /** Serializing a well-formed document never traps, whatever the options: every forced unwrap finds a prefix and no indentation count is negative. */
  lemma SerializeNeverTraps(st: Store, d: NodeId, settings: Settings, rule: Rule)
    requires Valid(st) && IsDocument(st, d)
    ensures Serialize(st, d, settings, rule).Some?
  {
    DocumentEventsFit(st, d);
    DocumentEventsNest(st, d);
    RunBalanced(Writer(st, "", 0, []), settings, DocumentEvents(st, d), rule, []);
  }

  /** `Document.data(_:)`: the serialized text, as written. */
  function Data(st: Store, d: NodeId, options: seq<SerializerOption>): (r: string)
    requires Valid(st) && IsDocument(st, d)
    ensures OmitXmlDeclaration !in options ==> XmlDeclaration(st.nodes[d].content.standalone) <= r
    ensures st.nodes[d].content.documentElement.None? ==>
              r == if OmitXmlDeclaration in options then "" else XmlDeclaration(st.nodes[d].content.standalone)
  {
    SerializeNeverTraps(st, d, SettingsOf(options), AsWritten);
    DataStartsWithDeclaration(st, d, SettingsOf(options), AsWritten);
    Serialize(st, d, SettingsOf(options), AsWritten).value
  }

  /**
   * `Document.data(_:)` with both findings about `assureNamespaceDeclaration`
   * corrected: a new prefix is bound to the URI it was made for, and a
   * start tag declares the prefixes its attributes needed.
   */
  function CorrectedData(st: Store, d: NodeId, options: seq<SerializerOption>): (r: string)
    requires Valid(st) && IsDocument(st, d)
    ensures OmitXmlDeclaration !in options ==> XmlDeclaration(st.nodes[d].content.standalone) <= r
    ensures st.nodes[d].content.documentElement.None? ==>
              r == if OmitXmlDeclaration in options then "" else XmlDeclaration(st.nodes[d].content.standalone)
  {
    SerializeNeverTraps(st, d, SettingsOf(options), Intended);
    DataStartsWithDeclaration(st, d, SettingsOf(options), Intended);
    Serialize(st, d, SettingsOf(options), Intended).value
  }

  /** The output opens with the XML declaration unless it is omitted; a document without a root writes nothing more. */
  lemma DataStartsWithDeclaration(st: Store, d: NodeId, settings: Settings, rule: Rule)
    requires Valid(st) && IsDocument(st, d) && Serialize(st, d, settings, rule).Some?
    ensures var r := Serialize(st, d, settings, rule).value;
            !settings.omitDeclaration ==> XmlDeclaration(st.nodes[d].content.standalone) <= r
    ensures var r := Serialize(st, d, settings, rule).value;
            st.nodes[d].content.documentElement.None? ==>
              r == if settings.omitDeclaration then "" else XmlDeclaration(st.nodes[d].content.standalone)
  {
    DocumentEventsFit(st, d);
    var events := DocumentEvents(st, d);
    var w0 := Writer(st, "", 0, []);
    var w1 := StartDocumentStep(w0, settings, d);
    RunAfterStart(st, d, settings, rule);
    assert w1.out == if settings.omitDeclaration then "" else XmlDeclaration(st.nodes[d].content.standalone);
    if st.nodes[d].content.documentElement.None? {
      assert NodeOk(st, d);
      assert events[1..] == [EndDocument(d)];
      assert Run(w1, settings, [EndDocument(d)], rule) == Some(w1);
    }
  }

  /** A run over the events of a document is the start of the document followed by a run over the rest. */
  lemma RunAfterStart(st: Store, d: NodeId, settings: Settings, rule: Rule)
    requires Valid(st) && IsDocument(st, d) && AllFit(st, DocumentEvents(st, d))
    ensures AllFit(st, DocumentEvents(st, d)[1..])
    ensures var w1 := StartDocumentStep(Writer(st, "", 0, []), settings, d);
            Run(Writer(st, "", 0, []), settings, DocumentEvents(st, d), rule)
              == Run(w1, settings, DocumentEvents(st, d)[1..], rule)
  {
    var events := DocumentEvents(st, d);
    RunCons(Writer(st, "", 0, []), settings, events, rule);
  }

  /** A run is its first step followed by a run over the remaining events. */
  lemma RunCons(w: Writer, settings: Settings, events: seq<Event>, rule: Rule)
    requires Valid(w.store) && AllFit(w.store, events) && |events| > 0
    requires Step(w, settings, events[0], rule).Some?
    ensures var w' := Step(w, settings, events[0], rule).value;
            AllFit(w'.store, events[1..]) && Run(w, settings, events, rule) == Run(w', settings, events[1..], rule)
  {
    var w' := Step(w, settings, events[0], rule).value;
    forall k | 0 <= k < |events[1..]| ensures EventFits(w'.store, events[1..][k]) {
      EventFitsShape(w.store, w'.store, events[k + 1]);
    }
  }

  // ------------------------------------------------------------ start and end tags

  lemma {:induction false} FirstAnswerCongruent(st: Store, st': Store, chain: seq<NodeId>, query: Query)
    requires forall k :: 0 <= k < |chain| ==> IsElement(st, chain[k]) && IsElement(st', chain[k])
    requires forall k :: 0 <= k < |chain| ==> OwnAnswer(st', chain[k], query) == OwnAnswer(st, chain[k], query)
    ensures FirstAnswer(st', chain, query) == FirstAnswer(st, chain, query)
  {
    if |chain| > 0 {
      FirstAnswerCongruent(st, st', chain[1..], query);
    }
  }

  /** Lookups answer alike when every element of the chain answers alike. */
  lemma ResolvePrefixCongruent(st: Store, st': Store, e: NodeId, uri: string)
    requires Valid(st) && Valid(st') && IsElement(st, e) && IsElement(st', e)
    requires ElementChain(st', e) == ElementChain(st, e)
    requires forall k :: 0 <= k < |ElementChain(st, e)| ==>
               OwnAnswer(st', ElementChain(st, e)[k], PrefixOf(uri)) == OwnAnswer(st, ElementChain(st, e)[k], PrefixOf(uri))
    ensures ResolvePrefix(st', e, uri) == ResolvePrefix(st, e, uri)
  {
    WalkFollowsChain(st, e, PrefixOf(uri));
    WalkFollowsChain(st', e, PrefixOf(uri));
    FirstAnswerCongruent(st, st', ElementChain(st, e), PrefixOf(uri));
  }

  /** A lookup from `e` reads only `e` and its ancestors, whose ids are at most `e`. */
  lemma {:induction false} WalkReadsUpward(st: Store, st': Store, e: NodeId, query: Query)
    requires Valid(st) && Valid(st') && IsElement(st, e)
    requires forall x | x in st.nodes && x <= e :: x in st'.nodes && st'.nodes[x] == st.nodes[x]
    ensures IsElement(st', e) && Dom.Walk(st', e, query) == Dom.Walk(st, e, query)
    decreases e
  {
    assert NodeOk(st, e);
    assert st'.nodes[e] == st.nodes[e];
    match st.nodes[e].parent
    case None =>
    case Some(p) =>
      assert st'.nodes[p] == st.nodes[p];
      if IsElement(st, p) {
        WalkReadsUpward(st, st', p, query);
      }
  }

  /**
   * Under the intended rule, assuring a prefix for any URI leaves the prefix
   * found for every URI that already had one as it was.
   */
  lemma AssureKeepsAnswer(st: Store, e: NodeId, v: string, u: string)
    requires Valid(st) && IsElement(st, e) && ResolvePrefix(st, e, u).Some?
    ensures ResolvePrefix(Assure(st, e, v, Intended).store, e, u) == ResolvePrefix(st, e, u)
  {
    if ResolvePrefix(st, e, v).None? {
      var p := AssureDeclares(st, e, v);
      assert v != u;
      DeclareKeepsAnswer(st, e, p, v, u);
    }
  }

  /** Under the corrected rule, a URI without a prefix gets a fresh one bound to it in `e`'s own context. */
  lemma AssureDeclares(st: Store, e: NodeId, v: string) returns (p: string)
    requires Valid(st) && IsElement(st, e) && ResolvePrefix(st, e, v).None?
    ensures p !in OwnContext(st, e)
    ensures Assure(st, e, v, Intended).store == SetContext(st, e, Some(OwnContext(st, e)[p := v]))
  {
    p := Assure(st, e, v, Intended).prefix;
  }

  /** Declaring a fresh prefix for `v` in `e`'s own context changes no lookup from `e` of another URI. */
  lemma DeclareKeepsAnswer(st: Store, e: NodeId, p: string, v: string, u: string)
    requires Valid(st) && IsElement(st, e) && p !in OwnContext(st, e) && v != u
    ensures var st' := SetContext(st, e, Some(OwnContext(st, e)[p := v]));
            IsElement(st', e) && ResolvePrefix(st', e, u) == ResolvePrefix(st, e, u)
  {
    var st' := SetContext(st, e, Some(OwnContext(st, e)[p := v]));
    SetContextShape(st, e, Some(OwnContext(st, e)[p := v]));
    OwnAnswerAfterDeclare(st, e, p, v, u);
    ChainShape(st, st', e);
    ResolvePrefixOnlyAt(st, st', e, u);
  }

  /** Setting a working context changes the shape of nothing and no other record. */
  lemma SetContextShape(st: Store, e: NodeId, ctx: Option<Context>)
    requires Valid(st) && IsElement(st, e)
    ensures var st' := SetContext(st, e, ctx);
            Valid(st') && SameShape(st, st') && OnlyAt(st, st', e) && IsElement(st', e)
  {
  }

  /** When only `e`'s record changed, and not its own answer for `u`, the lookup of `u` from `e` is unchanged. */
  lemma ResolvePrefixOnlyAt(st: Store, st': Store, e: NodeId, u: string)
    requires Valid(st) && Valid(st') && OnlyAt(st, st', e)
    requires IsElement(st, e) && IsElement(st', e) && ElementChain(st', e) == ElementChain(st, e)
    requires OwnAnswer(st', e, PrefixOf(u)) == OwnAnswer(st, e, PrefixOf(u))
    ensures ResolvePrefix(st', e, u) == ResolvePrefix(st, e, u)
  {
    var chain := ElementChain(st, e);
    forall k | 0 <= k < |chain|
      ensures OwnAnswer(st', chain[k], PrefixOf(u)) == OwnAnswer(st, chain[k], PrefixOf(u))
    {
      if chain[k] != e {
        SameRecordAnswer(st, st', chain[k], u);
      }
    }
    ResolvePrefixCongruent(st, st', e, u);
  }

  /** An element whose record is unchanged gives the same own answer. */
  lemma SameRecordAnswer(st: Store, st': Store, x: NodeId, u: string)
    requires IsElement(st, x) && x in st'.nodes && st'.nodes[x] == st.nodes[x]
    ensures IsElement(st', x) && OwnAnswer(st', x, PrefixOf(u)) == OwnAnswer(st, x, PrefixOf(u))
  {
  }

  /** Declaring a fresh prefix for `v` changes nothing an element's own context answers for another URI. */
  lemma OwnAnswerAfterDeclare(st: Store, e: NodeId, p: string, v: string, u: string)
    requires Valid(st) && IsElement(st, e) && p !in OwnContext(st, e) && v != u
    ensures var st' := SetContext(st, e, Some(OwnContext(st, e)[p := v]));
            IsElement(st', e) && OwnAnswer(st', e, PrefixOf(u)) == OwnAnswer(st, e, PrefixOf(u))
  {
    var own := OwnContext(st, e);
    var ctx' := own[p := v];
    assert forall q :: Lookup(ctx', q) == Some(u) <==> Lookup(own, q) == Some(u) by {
      forall q ensures Lookup(ctx', q) == Some(u) <==> Lookup(own, q) == Some(u) {
        if q != p { assert Lookup(ctx', q) == Lookup(own, q); }
      }
    }
    ReversePrefixDependsOnBindings(ctx', own, u);
    if st.nodes[e].content.namespaceContext.None? {
      assert own == map[];
    }
  }

  /** The same over the attribute loop: under the intended rule it keeps every lookup from the element that already succeeds. */
  lemma {:induction false} AttributeListKeepsAnswer(st: Store, e: NodeId, names: seq<QName>, u: string)
    requires Valid(st) && IsElement(st, e) && Dom.Walk(st, e, PrefixOf(u)).Some?
    requires forall k :: 0 <= k < |names| ==> names[k] in st.nodes[e].content.attributes
    ensures Dom.Walk(AttributeList(st, e, names, Intended).store, e, PrefixOf(u)) == Dom.Walk(st, e, PrefixOf(u))
    decreases |names|
  {
    if |names| > 0 {
      var q := names[0];
      var named := AssureName(st, e, q, Intended);
      assert Dom.Walk(named.store, e, PrefixOf(u)) == Dom.Walk(st, e, PrefixOf(u)) by {
        if q.namespaceURI != "" {
          AssureKeepsAnswer(st, e, q.namespaceURI, u);
        }
      }
      AttributeListUnfold(st, e, names, Intended);
      AttributeListKeepsAnswer(named.store, e, names[1..], u);
    }
  }

  /** The attribute loop is its first attribute followed by the loop over the rest. */
  lemma AttributeListUnfold(st: Store, e: NodeId, names: seq<QName>, rule: Rule)
    requires Valid(st) && IsElement(st, e) && |names| > 0
    requires forall k :: 0 <= k < |names| ==> names[k] in st.nodes[e].content.attributes
    ensures var named := AssureName(st, e, names[0], rule);
            && (forall k :: 0 <= k < |names[1..]| ==> names[1..][k] in named.store.nodes[e].content.attributes)
            && AttributeList(st, e, names, rule).store == AttributeList(named.store, e, names[1..], rule).store
  {
    assert forall k :: 0 <= k < |names[1..]| ==> names[1..][k] == names[k + 1];
  }

  /** Assuring prefixes leaves the attribute values alone. */
  lemma ValueKept(st: Store, st': Store, e: NodeId, q: QName)
    requires Valid(st) && Valid(st') && SameShape(st, st') && IsElement(st, e) && IsElement(st', e)
    requires st'.nodes[e].content.attributes == st.nodes[e].content.attributes && q in st.nodes[e].content.attributes
    ensures ValueOf(st', e, q) == ValueOf(st, e, q)
  {
    assert NodeOk(st, e);
    var a := st.nodes[e].content.attributes[q];
    assert AttributeOk(st, e, q, a);
    assert Shape(st'.nodes[a]) == Shape(st.nodes[a]);
  }

  lemma {:induction false} RenderAttributesKept(st: Store, st': Store, e: NodeId, names: seq<QName>, prefixes: seq<string>)
    requires Valid(st) && Valid(st') && SameShape(st, st') && IsElement(st, e) && IsElement(st', e)
    requires st'.nodes[e].content.attributes == st.nodes[e].content.attributes && |prefixes| == |names|
    requires forall k :: 0 <= k < |names| ==> names[k] in st.nodes[e].content.attributes
    ensures RenderAttributes(st', e, names, prefixes) == RenderAttributes(st, e, names, prefixes)
    decreases |names|
  {
    if |names| > 0 {
      ValueKept(st, st', e, names[0]);
      assert forall k :: 0 <= k < |names[1..]| ==> names[1..][k] == names[k + 1];
      RenderAttributesKept(st, st', e, names[1..], prefixes[1..]);
    }
  }

  /**
   * The attribute loop writes every name of `names`, in that order and
   * nothing else, each with the value it has in the tree it starts from;
   * only the prefixes depend on what assuring found.
   */
  lemma {:induction false} AttributeListText(st: Store, e: NodeId, names: seq<QName>, rule: Rule) returns (prefixes: seq<string>)
    requires Valid(st) && IsElement(st, e)
    requires forall k :: 0 <= k < |names| ==> names[k] in st.nodes[e].content.attributes
    ensures |prefixes| == |names|
    ensures AttributeList(st, e, names, rule).text == RenderAttributes(st, e, names, prefixes)
    decreases |names|
  {
    if |names| == 0 {
      prefixes := [];
    } else {
      var named := AssureName(st, e, names[0], rule);
      assert forall k :: 0 <= k < |names[1..]| ==> names[1..][k] == names[k + 1];
      var more := AttributeListText(named.store, e, names[1..], rule);
      RenderAttributesKept(st, named.store, e, names[1..], more);
      prefixes := [named.prefix] + more;
      assert prefixes[1..] == more;
    }
  }

  /**
   * A start tag lists every attribute of the element once, in the order of
   * `SortedNames` (by description), each with its value.
   */
  lemma OpenAttributesInOrder(st: Store, e: NodeId, rule: Rule) returns (prefixes: seq<string>)
    requires Valid(st) && IsElement(st, e)
    ensures var names := InfosetAttributes.SortedNames(st.nodes[e].content.attributes);
            |prefixes| == |names| && Open(st, e, rule).attributes == RenderAttributes(st, e, names, prefixes)
  {
    var named := AssureName(st, e, st.nodes[e].content.name, rule);
    var names := InfosetAttributes.SortedNames(st.nodes[e].content.attributes);
    OpenParts(st, e, rule);
    prefixes := AttributeListText(named.store, e, names, rule);
    RenderAttributesKept(st, named.store, e, names, prefixes);
  }

  /** Under the intended rule the prefix written in the start tag is the one the element finds for its URI once the tag is written. */
  lemma OpenAnswersPrefix(st: Store, e: NodeId)
    requires Valid(st) && IsElement(st, e)
    ensures var u := st.nodes[e].content.name.namespaceURI;
            var tag := Open(st, e, Intended);
            (u == "" ==> tag.prefix == "") && (u != "" ==> ResolvePrefix(tag.store, e, u) == Some(tag.prefix))
  {
    var q := st.nodes[e].content.name;
    if q.namespaceURI != "" {
      var named := Assure(st, e, q.namespaceURI, Intended);
      assert Shape(named.store.nodes[e]) == Shape(st.nodes[e]);
      AttributeListKeepsAnswer(named.store, e, InfosetAttributes.SortedNames(st.nodes[e].content.attributes), q.namespaceURI);
    }
  }

  lemma AllFitShape(st: Store, st': Store, events: seq<Event>)
    requires SameShape(st, st') && AllFit(st, events)
    ensures AllFit(st', events)
  {
    forall k | 0 <= k < |events| ensures EventFits(st', events[k]) {
      EventFitsShape(st, st', events[k]);
    }
  }

  /** A run over a concatenation is a run over the first part followed by a run over the second. */
  lemma {:induction false} RunAppend(w: Writer, settings: Settings, a: seq<Event>, b: seq<Event>, rule: Rule)
    requires Valid(w.store) && AllFit(w.store, a + b)
    ensures AllFit(w.store, a)
    ensures Run(w, settings, a, rule).None? ==> Run(w, settings, a + b, rule).None?
    ensures Run(w, settings, a, rule).Some? ==>
              AllFit(Run(w, settings, a, rule).value.store, b)
              && Run(w, settings, a + b, rule) == Run(Run(w, settings, a, rule).value, settings, b, rule)
    decreases |a|
  {
    assert forall k :: 0 <= k < |a| ==> a[k] == (a + b)[k];
    assert forall k :: 0 <= k < |b| ==> b[k] == (a + b)[|a| + k];
    if |a| == 0 {
      assert a + b == b;
    } else {
      assert (a + b)[0] == a[0] && (a + b)[1..] == a[1..] + b;
      match Step(w, settings, a[0], rule)
      case None =>
      case Some(w') =>
        RunCons(w, settings, a + b, rule);
        RunCons(w, settings, a, rule);
        RunAppend(w', settings, a[1..], b, rule);
    }
  }

  /** A run changes the record of no element it does not start. */
  lemma {:induction false} RunLeavesUnstarted(w: Writer, settings: Settings, events: seq<Event>, rule: Rule, x: NodeId)
    requires Valid(w.store) && AllFit(w.store, events) && x in w.store.nodes && StartElement(x) !in events
    ensures Run(w, settings, events, rule).Some? ==>
              x in Run(w, settings, events, rule).value.store.nodes
              && Run(w, settings, events, rule).value.store.nodes[x] == w.store.nodes[x]
    decreases |events|
  {
    if |events| > 0 {
      assert events[0] in events;
      match Step(w, settings, events[0], rule)
      case None =>
      case Some(w') =>
        RunCons(w, settings, events, rule);
        assert forall k :: 0 <= k < |events[1..]| ==> events[1..][k] in events;
        RunLeavesUnstarted(w', settings, events[1..], rule, x);
    }
  }

  /** The run of the single event `ev` is its step. */
  lemma RunOne(w: Writer, settings: Settings, ev: Event, rule: Rule)
    requires Valid(w.store) && EventFits(w.store, ev)
    ensures Run(w, settings, [ev], rule) == Step(w, settings, ev, rule)
  {
    assert [ev][1..] == [];
  }

  /** The run over an element's events: its start, the run over its children, its end. */
  lemma ElementRunSplit(w: Writer, settings: Settings, e: NodeId, rule: Rule)
    requires Valid(w.store) && IsElement(w.store, e) && StartElementStep(w, settings, e, rule).Some?
    ensures AllFit(w.store, ElementEvents(w.store, e))
    ensures var s := StartElementStep(w, settings, e, rule).value;
            AllFit(s.store, ChildEvents(w.store, e, 0))
    ensures var s := StartElementStep(w, settings, e, rule).value;
            Run(s, settings, ChildEvents(w.store, e, 0), rule).Some? ==>
              AllFit(Run(s, settings, ChildEvents(w.store, e, 0), rule).value.store, [EndElement(e)])
    ensures var s := StartElementStep(w, settings, e, rule).value;
            var c := ChildEvents(w.store, e, 0);
            Run(w, settings, ElementEvents(w.store, e), rule)
              == if Run(s, settings, c, rule).None? then None
                 else Run(Run(s, settings, c, rule).value, settings, [EndElement(e)], rule)
  {
    var st := w.store;
    var s := StartElementStep(w, settings, e, rule).value;
    var c := ChildEvents(st, e, 0);
    ElementEventsFit(st, e);
    ElementEventsSplit(st, e);
    ElementRunStart(w, settings, e, c + [EndElement(e)], rule);
    RunAppend(s, settings, c, [EndElement(e)], rule);
  }

  /** An element's events are its start, its children's events and its end. */
  lemma ElementEventsSplit(st: Store, e: NodeId)
    requires Valid(st) && IsElement(st, e)
    ensures ElementEvents(st, e) == [StartElement(e)] + (ChildEvents(st, e, 0) + [EndElement(e)])
  {
    assert NodeOk(st, e);
  }

  /** A run that starts with an element's start is that element's start step followed by the rest. */
  lemma ElementRunStart(w: Writer, settings: Settings, e: NodeId, rest: seq<Event>, rule: Rule)
    requires Valid(w.store) && IsElement(w.store, e) && StartElementStep(w, settings, e, rule).Some?
    requires AllFit(w.store, [StartElement(e)] + rest)
    ensures var s := StartElementStep(w, settings, e, rule).value;
            AllFit(s.store, rest)
            && Run(w, settings, [StartElement(e)] + rest, rule) == Run(s, settings, rest, rule)
  {
    RunAppend(w, settings, [StartElement(e)], rest, rule);
    RunOne(w, settings, StartElement(e), rule);
  }

  /** The run over an element's children leaves every record with an id up to the element's alone. */
  lemma ChildrenKeepBelow(s: Writer, settings: Settings, st: Store, e: NodeId, rule: Rule)
    requires Valid(st) && IsElement(st, e) && Valid(s.store) && AllFit(s.store, ChildEvents(st, e, 0))
    ensures var r := Run(s, settings, ChildEvents(st, e, 0), rule);
            r.Some? ==> forall x | x in s.store.nodes && x <= e :: x in r.value.store.nodes && r.value.store.nodes[x] == s.store.nodes[x]
  {
    var c := ChildEvents(st, e, 0);
    ChildEventsStartAfter(st, e, 0);
    forall x | x in s.store.nodes && x <= e
      ensures Run(s, settings, c, rule).Some? ==>
                x in Run(s, settings, c, rule).value.store.nodes && Run(s, settings, c, rule).value.store.nodes[x] == s.store.nodes[x]
    {
      assert StartElement(x) !in c;
      RunLeavesUnstarted(s, settings, c, rule, x);
    }
  }

  /** An end tag names the element with the prefix its URI resolves to, or closes an empty start tag. */
  lemma EndTagName(w: Writer, settings: Settings, e: NodeId, prefix: string) returns (body: string)
    requires Valid(w.store) && IsElement(w.store, e) && EndElementStep(w, settings, e).Some?
    requires var u := w.store.nodes[e].content.name.namespaceURI;
             (u == "" ==> prefix == "") && (u != "" ==> ResolvePrefix(w.store, e, u) == Some(prefix))
    ensures var out := EndElementStep(w, settings, e).value.out;
            var name := TagName(prefix, w.store.nodes[e].content.name.localName);
            out == w.out + body + "/>" || out == w.out + body + "</" + name + ">"
  {
    if Top(w.stack).isEmpty {
      body := "";
      assert EndElementStep(w, settings, e).value.out == w.out + body + "/>";
    } else {
      body := if settings.indent && Top(w.stack).hasChildElements then "\n" + Indentation(w.level - 1).value else "";
    }
  }

  /**
   * Under the intended rule the start and end tag of every element carry
   * the same name: whatever the element's children write, the run over its
   * events writes `<` and the name of its start tag, and ends either with
   * `/>` or with `</`, that name and `>`.
   */
  lemma IntendedTagsMatch(w: Writer, settings: Settings, e: NodeId, open: seq<NodeId>)
    requires Balanced(w, open) && IsElement(w.store, e)
    ensures AllFit(w.store, ElementEvents(w.store, e))
    ensures Run(w, settings, ElementEvents(w.store, e), Intended).Some?
    ensures var name := TagName(Open(w.store, e, Intended).prefix, w.store.nodes[e].content.name.localName);
            var out := Run(w, settings, ElementEvents(w.store, e), Intended).value.out;
            && (exists lead :: Lead(Top(w.stack), settings.indent, w.level) == Some(lead) && w.out + lead + "<" + name <= out)
            && (exists body :: out == w.out + body + "/>" || out == w.out + body + "</" + name + ">")
  {
    var st := w.store;
    var q := st.nodes[e].content.name;
    var tag := Open(st, e, Intended);
    var name := TagName(tag.prefix, q.localName);
    ElementEventsFit(st, e);
    ElementEventsNest(st, e, open);
    RunBalanced(w, settings, ElementEvents(st, e), Intended, open);
    StartBalanced(w, settings, e, Intended, open);
    ElementRunSplit(w, settings, e, Intended);
    var s := StartElementStep(w, settings, e, Intended).value;
    var w2 := Run(s, settings, ChildEvents(st, e, 0), Intended).value;
    var r := Run(w, settings, ElementEvents(st, e), Intended).value;
    StartTagName(w, settings, e, Intended);
    IntendedEndAnswers(s, settings, st, e, tag);
    RunOne(w2, settings, EndElement(e), Intended);
    var body := EndTagName(w2, settings, e, tag.prefix);
    var lead := Lead(Top(w.stack), settings.indent, w.level).value;
    PrefixTransitive(w.out + lead + "<" + name, s.out, w2.out);
    PrefixTransitive(w.out + lead + "<" + name, w2.out, r.out);
    PrefixTransitive(w.out, w.out + lead + "<" + name, w2.out);
    EndingExtends(w.out, w2.out, r.out, name, body);
  }

  /** After the children of an element ran, its URI still resolves to the prefix its start tag wrote under the intended rule. */
  lemma IntendedEndAnswers(s: Writer, settings: Settings, st: Store, e: NodeId, tag: OpenTag)
    requires Valid(st) && IsElement(st, e) && tag == Open(st, e, Intended) && s.store == tag.store
    requires AllFit(s.store, ChildEvents(st, e, 0)) && Run(s, settings, ChildEvents(st, e, 0), Intended).Some?
    ensures var w2 := Run(s, settings, ChildEvents(st, e, 0), Intended).value;
            var u := st.nodes[e].content.name.namespaceURI;
            && IsElement(w2.store, e) && w2.store.nodes[e].content.name == st.nodes[e].content.name
            && (u == "" ==> tag.prefix == "") && (u != "" ==> ResolvePrefix(w2.store, e, u) == Some(tag.prefix))
  {
    var w2 := Run(s, settings, ChildEvents(st, e, 0), Intended).value;
    var u := st.nodes[e].content.name.namespaceURI;
    ChildrenKeepBelow(s, settings, st, e, Intended);
    OpenAnswersPrefix(st, e);
    assert Shape(tag.store.nodes[e]) == Shape(st.nodes[e]);
    WalkReadsUpward(s.store, w2.store, e, PrefixOf(u));
  }

  lemma PrefixTransitive(a: string, b: string, c: string)
    requires a <= b && b <= c
    ensures a <= c
  {
    assert c[..|b|][..|a|] == c[..|a|];
  }

  /** An ending written after `mid`, which extends `prefix`, is an ending written after `prefix`. */
  lemma EndingExtends(prefix: string, mid: string, out: string, name: string, body: string)
    requires prefix <= mid
    requires out == mid + body + "/>" || out == mid + body + "</" + name + ">"
    ensures exists body :: out == prefix + body + "/>" || out == prefix + body + "</" + name + ">"
  {
    var rest := mid[|prefix|..];
    assert mid == prefix + rest;
    if out == mid + body + "/>" {
      assert out == prefix + (rest + body) + "/>";
    } else {
      assert out == prefix + (rest + body) + "</" + name + ">";
    }
  }

  // ------------------------------------------------------------ how an element closes

  /** A child the serializer writes something for: an element, a text or a CDATA node (not a comment or an instruction). */
  predicate WrittenChild(st: Store, x: NodeId)
  {
    x in st.nodes && (st.nodes[x].content.ElementNode? || st.nodes[x].content.TextNode? || st.nodes[x].content.CDataNode?)
  }

  /** Some child of `e` is written: an element, a text or a CDATA node. */
  predicate HasWrittenChild(st: Store, e: NodeId)
    requires IsElement(st, e)
  {
    exists k :: 0 <= k < |st.nodes[e].children| && WrittenChild(st, st.nodes[e].children[k])
  }

  /** Some child of `e` from the `i`-th on is written. */
  predicate ContentFrom(st: Store, e: NodeId, i: nat)
    requires IsElement(st, e) && i <= |st.nodes[e].children|
    decreases |st.nodes[e].children| - i
  {
    i < |st.nodes[e].children| && (WrittenChild(st, st.nodes[e].children[i]) || ContentFrom(st, e, i + 1))
  }

  lemma {:induction false} ContentFromAny(st: Store, e: NodeId, i: nat)
    requires IsElement(st, e) && i <= |st.nodes[e].children|
    ensures ContentFrom(st, e, i) <==> exists k :: i <= k < |st.nodes[e].children| && WrittenChild(st, st.nodes[e].children[k])
    decreases |st.nodes[e].children| - i
  {
    if i < |st.nodes[e].children| {
      ContentFromAny(st, e, i + 1);
    }
  }

  lemma ContentMeansWritten(st: Store, e: NodeId)
    requires IsElement(st, e)
    ensures ContentFrom(st, e, 0) == HasWrittenChild(st, e)
  {
    ContentFromAny(st, e, 0);
  }

  /** Replacing the top state keeps the states below it. */
  lemma WithTopKeepsBelow(stack: seq<Frame>, f: Frame)
    ensures Current(WithTop(stack, f)) == Current(stack)[..|Current(stack)| - 1] + [f] && Top(WithTop(stack, f)) == f
  {
  }

  lemma SameShapeTransitive(a: Store, b: Store, c: Store)
    requires SameShape(a, b) && SameShape(b, c)
    ensures SameShape(a, c)
  {
  }

  /**
   * From `s` to `r` the states below the top one and the element the top
   * one belongs to stay; the top state is left empty exactly when it was
   * empty and nothing was `written`; and when nothing was, nothing changed.
   */
  predicate FramesAfter(s: Writer, r: Writer, written: bool)
  {
    && Current(r.stack) == Current(s.stack)[..|Current(s.stack)| - 1] + [Top(r.stack)]
    && Top(r.stack).element == Top(s.stack).element
    && Top(r.stack).isEmpty == (Top(s.stack).isEmpty && !written)
    && (!written ==> r == s)
  }

  lemma FramesAfterNothing(s: Writer)
    ensures FramesAfter(s, s, false)
  {
    var c := Current(s.stack);
    assert c == c[..|c| - 1] + [c[|c| - 1]];
  }

  lemma FramesAfterThen(s: Writer, m: Writer, r: Writer, a: bool, b: bool)
    requires FramesAfter(s, m, a) && FramesAfter(m, r, b)
    ensures FramesAfter(s, r, a || b)
  {
    assert Current(m.stack)[..|Current(m.stack)| - 1] == Current(s.stack)[..|Current(s.stack)| - 1];
  }

  /** A text or CDATA child writes into the top state and marks it as no longer empty. */
  lemma TextChildFrames(s: Writer, settings: Settings, st: Store, c: NodeId, rule: Rule, open: seq<NodeId>)
    requires Valid(st) && c in st.nodes && (st.nodes[c].content.TextNode? || st.nodes[c].content.CDataNode?)
    requires Balanced(s, open) && SameShape(st, s.store)
    ensures AllFit(s.store, NodeEvents(st, c)) && Run(s, settings, NodeEvents(st, c), rule) == Some(CharactersStep(s, c))
    ensures Balanced(CharactersStep(s, c), open) && FramesAfter(s, CharactersStep(s, c), true)
  {
    assert Shape(s.store.nodes[c]) == Shape(st.nodes[c]);
    assert EventFits(s.store, Characters(c));
    RunOne(s, settings, Characters(c), rule);
    WithTopKeepsBelow(s.stack, Top(s.stack).(isEmpty := false, hasText := true));
  }

  /** A comment or an instruction child writes nothing and changes nothing. */
  lemma SilentChildFrames(s: Writer, settings: Settings, st: Store, c: NodeId, rule: Rule)
    requires Valid(st) && c in st.nodes && !WrittenChild(st, c) && Valid(s.store)
    ensures AllFit(s.store, NodeEvents(st, c)) && Run(s, settings, NodeEvents(st, c), rule) == Some(s)
    ensures FramesAfter(s, s, false)
  {
    FramesAfterNothing(s);
    if st.nodes[c].content.CommentNode? {
      assert NodeEvents(st, c) == [Comment(c)] && EventFits(s.store, Comment(c));
      RunOne(s, settings, Comment(c), rule);
    } else {
      assert NodeEvents(st, c) == [];
    }
  }

  /** An element child leaves the top state marked as holding an element. */
  lemma {:induction false} ElementChildFrames(s: Writer, settings: Settings, st: Store, c: NodeId, rule: Rule, open: seq<NodeId>)
    returns (r: Writer)
    requires Valid(st) && IsElement(st, c) && Balanced(s, open) && SameShape(st, s.store)
    ensures AllFit(s.store, NodeEvents(st, c)) && Run(s, settings, NodeEvents(st, c), rule) == Some(r)
    ensures Balanced(r, open) && SameShape(st, r.store) && FramesAfter(s, r, true)
    decreases st.next - c, 2
  {
    assert NodeEvents(st, c) == ElementEvents(st, c);
    r := ElementRunFrames(s, settings, st, c, rule, open);
    WithTopKeepsBelow(s.stack, Top(s.stack).(isEmpty := false, hasChildElements := true));
  }

  /** The run over one child, as `FramesAfter` says, "written" meaning the child is an element, a text or a CDATA node. */
  lemma {:induction false} NodeRunFrames(s: Writer, settings: Settings, st: Store, c: NodeId, rule: Rule, open: seq<NodeId>)
    returns (r: Writer)
    requires Valid(st) && c in st.nodes && Balanced(s, open) && SameShape(st, s.store)
    ensures AllFit(s.store, NodeEvents(st, c)) && Run(s, settings, NodeEvents(st, c), rule) == Some(r)
    ensures Balanced(r, open) && SameShape(st, r.store) && FramesAfter(s, r, WrittenChild(st, c))
    decreases st.next - c, 3
  {
    var n := st.nodes[c].content;
    if n.ElementNode? {
      r := ElementChildFrames(s, settings, st, c, rule, open);
    } else if n.TextNode? || n.CDataNode? {
      TextChildFrames(s, settings, st, c, rule, open);
      r := CharactersStep(s, c);
    } else {
      SilentChildFrames(s, settings, st, c, rule);
      r := s;
    }
  }

  /** The run over the children of `e` from the `i`-th on, as `FramesAfter` says, "written" meaning some of them is. */
  lemma {:induction false} ChildRunFrames(s: Writer, settings: Settings, st: Store, e: NodeId, i: nat, rule: Rule, open: seq<NodeId>)
    returns (r: Writer)
    requires Valid(st) && IsElement(st, e) && i <= |st.nodes[e].children| && Balanced(s, open) && SameShape(st, s.store)
    ensures AllFit(s.store, ChildEvents(st, e, i)) && Run(s, settings, ChildEvents(st, e, i), rule) == Some(r)
    ensures Balanced(r, open) && SameShape(st, r.store) && FramesAfter(s, r, ContentFrom(st, e, i))
    decreases st.next - e, 0, |st.nodes[e].children| - i
  {
    assert NodeOk(st, e);
    var cs := st.nodes[e].children;
    ChildEventsFit(st, e, i);
    AllFitShape(st, s.store, ChildEvents(st, e, i));
    if i < |cs| {
      var c := cs[i];
      assert ChildOk(st, e, c);
      var head := NodeEvents(st, c);
      var tail := ChildEvents(st, e, i + 1);
      assert ChildEvents(st, e, i) == head + tail;
      var m := NodeRunFrames(s, settings, st, c, rule, open);
      RunAppend(s, settings, head, tail, rule);
      r := ChildRunFrames(m, settings, st, e, i + 1, rule, open);
      FramesAfterThen(s, m, r, WrittenChild(st, c), ContentFrom(st, e, i + 1));
    } else {
      r := s;
      FramesAfterNothing(s);
    }
  }

  /**
   * The run over an element's events leaves the states as the start of the
   * element left its parent's: the parent's state marked as holding an
   * element and no longer empty, everything below it as it was.
   */
  lemma {:induction false} ElementRunFrames(w: Writer, settings: Settings, st: Store, c: NodeId, rule: Rule, open: seq<NodeId>)
    returns (r: Writer)
    requires Valid(st) && IsElement(st, c) && Balanced(w, open) && SameShape(st, w.store)
    ensures AllFit(w.store, ElementEvents(st, c)) && Run(w, settings, ElementEvents(st, c), rule) == Some(r)
    ensures Balanced(r, open) && SameShape(st, r.store)
    ensures r.stack == WithTop(w.stack, Top(w.stack).(isEmpty := false, hasChildElements := true))
    decreases st.next - c, 1
  {
    ElementEventsFit(st, c);
    AllFitShape(st, w.store, ElementEvents(st, c));
    ElementEventsSplit(st, c);
    var s := StartFrames(w, settings, st, c, rule, open);
    var mid := ChildEvents(st, c, 0);
    ElementRunStart(w, settings, c, mid + [EndElement(c)], rule);
    RunAppend(s, settings, mid, [EndElement(c)], rule);
    var m := ChildRunFrames(s, settings, st, c, 0, rule, open + [c]);
    r := EndFrames(m, settings, st, c, open);
    PopsPushed(WithTop(w.stack, Top(w.stack).(isEmpty := false, hasChildElements := true)), Frame(Some(c), true, false, false), s.stack, m.stack);
  }

  /** The start of an element marks the parent's state and pushes an empty one of its own. */
  lemma StartFrames(w: Writer, settings: Settings, st: Store, c: NodeId, rule: Rule, open: seq<NodeId>) returns (s: Writer)
    requires Valid(st) && IsElement(st, c) && Balanced(w, open) && SameShape(st, w.store)
    ensures IsElement(w.store, c) && StartElementStep(w, settings, c, rule) == Some(s)
    ensures Balanced(s, open + [c]) && SameShape(st, s.store)
    ensures s.stack == WithTop(w.stack, Top(w.stack).(isEmpty := false, hasChildElements := true)) + [Frame(Some(c), true, false, false)]
  {
    assert Shape(w.store.nodes[c]) == Shape(st.nodes[c]);
    StartBalanced(w, settings, c, rule, open);
    s := StartElementStep(w, settings, c, rule).value;
    SameShapeTransitive(st, w.store, s.store);
  }

  /** The end of an element pops its state. */
  lemma EndFrames(m: Writer, settings: Settings, st: Store, c: NodeId, open: seq<NodeId>) returns (r: Writer)
    requires Valid(st) && IsElement(st, c) && Balanced(m, open + [c]) && SameShape(st, m.store)
    ensures EventFits(m.store, EndElement(c)) && EndElementStep(m, settings, c) == Some(r)
    ensures forall rule :: Run(m, settings, [EndElement(c)], rule) == Some(r)
    ensures Balanced(r, open) && SameShape(st, r.store) && r.stack == Current(m.stack)[..|Current(m.stack)| - 1]
  {
    assert Shape(m.store.nodes[c]) == Shape(st.nodes[c]);
    forall rule: Rule ensures Run(m, settings, [EndElement(c)], rule) == EndElementStep(m, settings, c) {
      RunOne(m, settings, EndElement(c), rule);
    }
    EndBalanced(m, settings, c, open + [c]);
    assert (open + [c])[..|open + [c]| - 1] == open;
    r := EndElementStep(m, settings, c).value;
  }

  /** Popping, after the top state was replaced, the state pushed on `below` leaves `below`. */
  lemma PopsPushed(below: seq<Frame>, f: Frame, pushed: seq<Frame>, after: seq<Frame>)
    requires pushed == below + [f] && Current(after) == Current(pushed)[..|Current(pushed)| - 1] + [Top(after)]
    ensures Current(after)[..|Current(after)| - 1] == below
  {
    assert Current(pushed) == pushed;
    assert pushed[..|pushed| - 1] == below;
  }

  /**
   * How `endElement` closes an element: right after the start tag with
   * `/>` when no child is an element, a text or a CDATA node (comments and
   * instructions write nothing), and otherwise, after what the children
   * wrote, with `</`, the name with the prefix `p` the element's URI
   * resolves to once the children are written, and `>`. Under the intended
   * rule `p` is the prefix of the start tag.
   */
  lemma ElementClosing(w: Writer, settings: Settings, e: NodeId, rule: Rule, open: seq<NodeId>) returns (s: Writer, r: Writer, p: string)
    requires Balanced(w, open) && IsElement(w.store, e)
    ensures StartElementStep(w, settings, e, rule) == Some(s)
    ensures AllFit(w.store, ElementEvents(w.store, e)) && Run(w, settings, ElementEvents(w.store, e), rule) == Some(r)
    ensures !HasWrittenChild(w.store, e) ==> r.out == s.out + "/>"
    ensures var q := w.store.nodes[e].content.name;
            HasWrittenChild(w.store, e) ==>
              && (q.namespaceURI == "" ==> p == "")
              && (q.namespaceURI != "" ==> ResolvePrefix(r.store, e, q.namespaceURI) == Some(p))
              && (rule == Intended ==> p == Open(w.store, e, Intended).prefix)
              && exists body :: r.out == s.out + body + "</" + TagName(p, q.localName) + ">"
  {
    s, r := ElementClosesEmpty(w, settings, e, rule, open);
    var s', r';
    s', r', p := ElementClosesWithTag(w, settings, e, rule, open);
  }

  lemma ElementClosesEmpty(w: Writer, settings: Settings, e: NodeId, rule: Rule, open: seq<NodeId>) returns (s: Writer, r: Writer)
    requires Balanced(w, open) && IsElement(w.store, e)
    ensures StartElementStep(w, settings, e, rule) == Some(s)
    ensures AllFit(w.store, ElementEvents(w.store, e)) && Run(w, settings, ElementEvents(w.store, e), rule) == Some(r)
    ensures !HasWrittenChild(w.store, e) ==> r.out == s.out + "/>"
  {
    var m;
    s, m, r := ElementRunParts(w, settings, e, rule, open);
    ContentMeansWritten(w.store, e);
  }

  lemma ElementClosesWithTag(w: Writer, settings: Settings, e: NodeId, rule: Rule, open: seq<NodeId>) returns (s: Writer, r: Writer, p: string)
    requires Balanced(w, open) && IsElement(w.store, e)
    ensures StartElementStep(w, settings, e, rule) == Some(s)
    ensures AllFit(w.store, ElementEvents(w.store, e)) && Run(w, settings, ElementEvents(w.store, e), rule) == Some(r)
    ensures var q := w.store.nodes[e].content.name;
            HasWrittenChild(w.store, e) ==>
              && (q.namespaceURI == "" ==> p == "")
              && (q.namespaceURI != "" ==> ResolvePrefix(r.store, e, q.namespaceURI) == Some(p))
              && (rule == Intended ==> p == Open(w.store, e, Intended).prefix)
              && exists body :: r.out == s.out + body + "</" + TagName(p, q.localName) + ">"
  {
    var st := w.store;
    var m;
    s, m, r := ElementRunParts(w, settings, e, rule, open);
    ContentMeansWritten(st, e);
    if ContentFrom(st, e, 0) {
      var body;
      p, body := EndWritesTag(m, settings, e, open, s.out, r);
      if rule == Intended {
        IntendedEndPrefix(s, m, settings, st, e);
      }
    } else {
      p := "";
    }
  }

  /** `IntendedEndAnswers` for the writer `m` the children leave. */
  lemma IntendedEndPrefix(s: Writer, m: Writer, settings: Settings, st: Store, e: NodeId)
    requires Valid(st) && IsElement(st, e) && s.store == Open(st, e, Intended).store
    requires AllFit(s.store, ChildEvents(st, e, 0)) && Run(s, settings, ChildEvents(st, e, 0), Intended) == Some(m)
    ensures var u := st.nodes[e].content.name.namespaceURI;
            && (u == "" ==> Open(st, e, Intended).prefix == "")
            && (u != "" ==> ResolvePrefix(m.store, e, u) == Some(Open(st, e, Intended).prefix))
  {
    IntendedEndAnswers(s, settings, st, e, Open(st, e, Intended));
  }

  /** The writer after an element's start `s`, after its children `m`, and after its end `r`. */
  lemma ElementRunParts(w: Writer, settings: Settings, e: NodeId, rule: Rule, open: seq<NodeId>) returns (s: Writer, m: Writer, r: Writer)
    requires Balanced(w, open) && IsElement(w.store, e)
    ensures StartElementStep(w, settings, e, rule) == Some(s) && s.store == Open(w.store, e, rule).store
    ensures AllFit(s.store, ChildEvents(w.store, e, 0)) && Run(s, settings, ChildEvents(w.store, e, 0), rule) == Some(m)
    ensures AllFit(w.store, ElementEvents(w.store, e)) && Run(w, settings, ElementEvents(w.store, e), rule) == Some(r)
    ensures Balanced(m, open + [e]) && IsElement(m.store, e) && m.store.nodes[e].content.name == w.store.nodes[e].content.name
    ensures s.out <= m.out && EndElementStep(m, settings, e) == Some(r) && r.store == m.store
    ensures Top(m.stack).isEmpty == !ContentFrom(w.store, e, 0) && (!ContentFrom(w.store, e, 0) ==> m == s)
    ensures Top(s.stack) == Frame(Some(e), true, false, false)
  {
    var st := w.store;
    Unchanged(st);
    s := StartFrames(w, settings, st, e, rule, open);
    ElementRunSplit(w, settings, e, rule);
    m := ChildRunFrames(s, settings, st, e, 0, rule, open + [e]);
    r := EndFrames(m, settings, st, e, open);
    assert Shape(m.store.nodes[e]) == Shape(st.nodes[e]);
  }

  /** `endElement` in a state something was written in: `</`, the name with the prefix its URI resolves to, `>`. */
  lemma EndWritesTag(m: Writer, settings: Settings, e: NodeId, open: seq<NodeId>, before: string, r: Writer)
    returns (p: string, body: string)
    requires Balanced(m, open + [e]) && IsElement(m.store, e) && !Top(m.stack).isEmpty && before <= m.out
    requires EndElementStep(m, settings, e) == Some(r)
    ensures var q := m.store.nodes[e].content.name;
            && (q.namespaceURI == "" ==> p == "")
            && (q.namespaceURI != "" ==> ResolvePrefix(m.store, e, q.namespaceURI) == Some(p))
            && r.out == before + body + "</" + TagName(p, q.localName) + ">"
  {
    assert (open + [e])[|open|] == e;
    var q := m.store.nodes[e].content.name;
    p := if q.namespaceURI != "" then ResolvePrefix(m.store, e, q.namespaceURI).value else "";
    var brk := if settings.indent && Top(m.stack).hasChildElements then "\n" + Indentation(m.level - 1).value else "";
    assert r.out == m.out + brk + "</" + TagName(p, q.localName) + ">";
    body := ClosingAfter(before, m.out, brk, TagName(p, q.localName));
  }

  /** An end tag written after `mid`, which extends `before`, is an end tag written after `before`. */
  lemma ClosingAfter(before: string, mid: string, brk: string, name: string) returns (body: string)
    requires before <= mid
    ensures mid + brk + "</" + name + ">" == before + body + "</" + name + ">"
  {
    var tail := mid[|before|..];
    assert mid == before + tail;
    body := tail + brk;
  }

  /** A start tag opens with `<` and the element's name, after what closes the parent's start tag. */
  lemma StartTagName(w: Writer, settings: Settings, e: NodeId, rule: Rule)
    requires Valid(w.store) && IsElement(w.store, e) && StartElementStep(w, settings, e, rule).Some?
    ensures Lead(Top(w.stack), settings.indent, w.level).Some?
    ensures var name := TagName(Open(w.store, e, rule).prefix, w.store.nodes[e].content.name.localName);
            w.out + Lead(Top(w.stack), settings.indent, w.level).value + "<" + name <= StartElementStep(w, settings, e, rule).value.out
  {
    var lead := Lead(Top(w.stack), settings.indent, w.level).value;
    var tag := Open(w.store, e, rule);
    var opening := w.out + lead + "<" + TagName(tag.prefix, w.store.nodes[e].content.name.localName);
    var rest := RenderDeclarations(tag.declarations) + tag.attributes;
    assert StartElementStep(w, settings, e, rule).value.out == opening + RenderDeclarations(tag.declarations) + tag.attributes;
    PrefixOfConcat(opening, RenderDeclarations(tag.declarations), tag.attributes);
  }

  lemma PrefixOfConcat(a: string, b: string, c: string)
    ensures a <= a + b + c
  {
    assert (a + b + c)[..|a|] == a;
  }

  // ------------------------------------------------------------ prefixes synthesized as written

  /**
   * As written, a prefix synthesized for an attribute URI `v` is bound to
   * the element's own URI `u`; when the element's own context had no prefix
   * for `u`, the new prefix becomes the element's answer for `u`.
   */
  lemma AsWrittenAssureRebinds(st: Store, e: NodeId, v: string)
    requires Valid(st) && IsElement(st, e) && ResolvePrefix(st, e, v).None?
    requires OwnAnswer(st, e, PrefixOf(st.nodes[e].content.name.namespaceURI)).None?
    ensures var r := Assure(st, e, v, AsWritten);
            var u := st.nodes[e].content.name.namespaceURI;
            && ResolveURI(st, e, r.prefix).None? && r.prefix !in OwnContext(st, e)
            && OwnContext(r.store, e) == OwnContext(st, e)[r.prefix := u]
            && ResolvePrefix(r.store, e, u) == Some(r.prefix)
  {
    var r := Assure(st, e, v, AsWritten);
    var u := st.nodes[e].content.name.namespaceURI;
    OwnFree(st, e, u);
    FreshAnswers(st, e, r.prefix, u);
  }

  /**
   * `startElement` as written, on an element in namespace `u` whose prefix
   * comes from an ancestor, with one attribute in a namespace no prefix is
   * bound to: the start tag is written with the ancestor's prefix, the
   * attribute with a new prefix `p` that no declaration of the tag and no
   * ancestor binds, and `p` is bound to `u`, so that afterwards the element
   * finds `p`, not the prefix its start tag carries, for its own URI.
   */
  lemma AsWrittenOpen(st: Store, e: NodeId, aq: QName)
    requires Valid(st) && IsElement(st, e)
    requires var u := st.nodes[e].content.name.namespaceURI;
             u != "" && ResolvePrefix(st, e, u).Some? && OwnAnswer(st, e, PrefixOf(u)).None?
    requires st.nodes[e].content.attributes.Keys == {aq}
    requires aq.namespaceURI != "" && ResolvePrefix(st, e, aq.namespaceURI).None?
    ensures var tag := Open(st, e, AsWritten);
            var u := st.nodes[e].content.name.namespaceURI;
            var p := AssureName(st, e, aq, AsWritten).prefix;
            && tag.prefix == ResolvePrefix(st, e, u).value
            && p != tag.prefix && ResolveURI(st, e, p).None?
            && Lookup(OwnContext(tag.store, e), p) == Some(u)
            && ResolvePrefix(tag.store, e, u) == Some(p)
            && (forall d :: d in tag.declarations ==> d.prefix != p)
            && exists value :: tag.attributes == " " + (p + ":") + aq.localName + "=" + value
  {
    var u := st.nodes[e].content.name.namespaceURI;
    var tag := Open(st, e, AsWritten);
    var second := AssureName(st, e, aq, AsWritten);
    AsWrittenOpenParts(st, e, aq);
    AsWrittenAssureRebinds(st, e, aq.namespaceURI);
    ResolvePrefixResolvesBack(st, e, u);
    var p := second.prefix;
    assert p != tag.prefix;
    DeclarationsWithout(st.nodes[e].content.namespaceContext, p);
  }

  lemma AsWrittenOpenParts(st: Store, e: NodeId, aq: QName)
    requires Valid(st) && IsElement(st, e)
    requires var u := st.nodes[e].content.name.namespaceURI;
             u != "" && ResolvePrefix(st, e, u).Some?
    requires st.nodes[e].content.attributes.Keys == {aq} && aq.namespaceURI != ""
    ensures var tag := Open(st, e, AsWritten);
            var second := AssureName(st, e, aq, AsWritten);
            && tag.prefix == ResolvePrefix(st, e, st.nodes[e].content.name.namespaceURI).value
            && tag.store == second.store
            && tag.declarations == Declarations(st.nodes[e].content.namespaceContext)
            && exists value :: tag.attributes == " " + (second.prefix + ":") + aq.localName + "=" + value
  {
    OpenParts(st, e, AsWritten);
    OnlyAttribute(st, e, aq, AsWritten);
  }

  /** A start tag is its element's prefix, the declarations listed as its rule says and the attribute loop. */
  lemma OpenParts(st: Store, e: NodeId, rule: Rule)
    requires Valid(st) && IsElement(st, e)
    ensures var q := st.nodes[e].content.name;
            var named := AssureName(st, e, q, rule);
            var names := InfosetAttributes.SortedNames(st.nodes[e].content.attributes);
            var attributes := AttributeList(named.store, e, names, rule);
            var listed := if rule == AsWritten then named.store else attributes.store;
            var tag := Open(st, e, rule);
            && tag.prefix == named.prefix && tag.store == attributes.store && tag.attributes == attributes.text
            && tag.declarations == Declarations(listed.nodes[e].content.namespaceContext)
  {
  }

  /** The attribute loop over an element's only attribute, after the element's own prefix is found and nothing declared. */
  lemma OnlyAttribute(st: Store, e: NodeId, aq: QName, rule: Rule)
    requires Valid(st) && IsElement(st, e) && st.nodes[e].content.attributes.Keys == {aq} && aq.namespaceURI != ""
    ensures var names := InfosetAttributes.SortedNames(st.nodes[e].content.attributes);
            var second := AssureName(st, e, aq, rule);
            && AttributeList(st, e, names, rule).store == second.store
            && exists value :: AttributeList(st, e, names, rule).text == " " + (second.prefix + ":") + aq.localName + "=" + value
  {
    var names := InfosetAttributes.SortedNames(st.nodes[e].content.attributes);
    assert aq in names;
    assert names == [aq];
    var second := AssureName(st, e, aq, rule);
    AttributeListUnfold(st, e, names, rule);
    assert AttributeList(second.store, e, [], rule) == Written(second.store, "");
    var value := Escaping.AttributeValue(st.nodes[st.nodes[e].content.attributes[aq]].content.attributeValue.GetOr(""));
    var text := " " + (second.prefix + ":") + aq.localName + "=" + value;
    assert AttributeList(st, e, names, rule).text == text + "";
    assert text + "" == text;
  }

  /** Different prefixes give different tag names when the second is not empty. */
  lemma TagNamesDiffer(a: string, p: string, local: string)
    requires a != p && p != ""
    ensures TagName(a, local) != TagName(p, local)
  {
    if a != "" {
      var n := TagName(p, local);
      assert n[..|p|] == p;
      if |a| == |p| {
        assert TagName(a, local)[..|a|] == a;
      } else {
        assert |TagName(a, local)| != |n|;
      }
    }
  }

  /** A start tag pushes the element's fresh state and leaves the tree as `Open` does. */
  lemma StartPushesFrame(w: Writer, settings: Settings, e: NodeId, rule: Rule)
    requires Valid(w.store) && IsElement(w.store, e) && StartElementStep(w, settings, e, rule).Some?
    ensures var s := StartElementStep(w, settings, e, rule).value;
            Top(s.stack) == Frame(Some(e), true, false, false) && s.store == Open(w.store, e, rule).store
  {
  }

  /** The run over an element whose one child is a text node: its start tag, `>`, the escaped text, and the end tag with the prefix the element then resolves. */
  lemma TextElementRun(w: Writer, settings: Settings, e: NodeId, t: NodeId, rule: Rule, p: string)
    requires Valid(w.store) && IsElement(w.store, e) && StartElementStep(w, settings, e, rule).Some?
    requires w.store.nodes[e].children == [t] && t in w.store.nodes && w.store.nodes[t].content.TextNode?
    requires var u := w.store.nodes[e].content.name.namespaceURI;
             u != "" && ResolvePrefix(StartElementStep(w, settings, e, rule).value.store, e, u) == Some(p)
    ensures AllFit(w.store, ElementEvents(w.store, e))
    ensures Run(w, settings, ElementEvents(w.store, e), rule).Some?
    ensures var s := StartElementStep(w, settings, e, rule).value;
            Run(w, settings, ElementEvents(w.store, e), rule).value.out
              == s.out + ">" + Escaping.Text(w.store.nodes[t].content.value)
                 + "</" + TagName(p, w.store.nodes[e].content.name.localName) + ">"
  {
    var st := w.store;
    ElementRunSplit(w, settings, e, rule);
    StartPushesFrame(w, settings, e, rule);
    var s := StartElementStep(w, settings, e, rule).value;
    TextChildEvents(st, e, t);
    assert NodeOk(st, e) && ChildOk(st, e, t);
    assert s.store.nodes[t] == st.nodes[t];
    assert Shape(s.store.nodes[e]) == Shape(st.nodes[e]);
    RunOne(s, settings, Characters(t), rule);
    var c := CharactersStep(s, t);
    RunOne(c, settings, EndElement(e), rule);
    TextThenEnd(s, settings, e, t, p);
  }

  /** The children of an element whose only child is a text node report just that text. */
  lemma TextChildEvents(st: Store, e: NodeId, t: NodeId)
    requires Valid(st) && IsElement(st, e) && st.nodes[e].children == [t]
    requires t in st.nodes && st.nodes[t].content.TextNode?
    ensures ChildEvents(st, e, 0) == [Characters(t)]
  {
    assert ChildEvents(st, e, 1) == [];
    assert ChildEvents(st, e, 0) == NodeEvents(st, t) + ChildEvents(st, e, 1);
  }

  /**
   * Text right after a start tag closes the start tag with `>`; the end
   * that follows writes `</`, the name with the prefix the element's URI
   * resolves to then, and `>`.
   */
  lemma TextThenEnd(s: Writer, settings: Settings, e: NodeId, t: NodeId, prefix: string)
    requires Valid(s.store) && IsElement(s.store, e) && Top(s.stack) == Frame(Some(e), true, false, false)
    requires t in s.store.nodes && s.store.nodes[t].content.TextNode?
    requires s.store.nodes[e].content.name.namespaceURI != ""
    requires ResolvePrefix(s.store, e, s.store.nodes[e].content.name.namespaceURI) == Some(prefix)
    ensures var r := EndElementStep(CharactersStep(s, t), settings, e);
            && r.Some?
            && r.value.out == s.out + ">" + Escaping.Text(s.store.nodes[t].content.value)
                                + "</" + TagName(prefix, s.store.nodes[e].content.name.localName) + ">"
  {
    var c := CharactersStep(s, t);
    var text := s.out + ">" + Escaping.Text(s.store.nodes[t].content.value);
    assert c.out == text;
    assert Top(c.stack) == Frame(Some(e), false, true, false);
    assert text + "" == text;
  }

  /**
   * As written, the end tag of such an element does not repeat its start
   * tag's name: with one text child, the run over the element writes the
   * start tag with the ancestor's prefix, and after the text closes with
   * `</`, the attribute's new prefix `p`, the local name and `>`.
   */
  lemma AsWrittenEndTagDiffers(w: Writer, settings: Settings, e: NodeId, open: seq<NodeId>, aq: QName, t: NodeId)
    requires Balanced(w, open) && IsElement(w.store, e)
    requires var u := w.store.nodes[e].content.name.namespaceURI;
             u != "" && ResolvePrefix(w.store, e, u).Some? && OwnAnswer(w.store, e, PrefixOf(u)).None?
    requires w.store.nodes[e].content.attributes.Keys == {aq}
    requires aq.namespaceURI != "" && ResolvePrefix(w.store, e, aq.namespaceURI).None?
    requires w.store.nodes[e].children == [t] && t in w.store.nodes && w.store.nodes[t].content.TextNode?
    ensures AllFit(w.store, ElementEvents(w.store, e))
    ensures StartElementStep(w, settings, e, AsWritten).Some?
    ensures Run(w, settings, ElementEvents(w.store, e), AsWritten).Some?
    ensures var local := w.store.nodes[e].content.name.localName;
            var start := TagName(Open(w.store, e, AsWritten).prefix, local);
            var end := TagName(AssureName(w.store, e, aq, AsWritten).prefix, local);
            var s := StartElementStep(w, settings, e, AsWritten).value;
            && w.out + Lead(Top(w.stack), settings.indent, w.level).GetOr("") + "<" + start <= s.out
            && Run(w, settings, ElementEvents(w.store, e), AsWritten).value.out
                 == s.out + ">" + Escaping.Text(w.store.nodes[t].content.value) + "</" + end + ">"
            && end != start
  {
    var st := w.store;
    var u := st.nodes[e].content.name.namespaceURI;
    var local := st.nodes[e].content.name.localName;
    var tag := Open(st, e, AsWritten);
    var p := AssureName(st, e, aq, AsWritten).prefix;
    StartBalanced(w, settings, e, AsWritten, open);
    StartTagName(w, settings, e, AsWritten);
    StartPushesFrame(w, settings, e, AsWritten);
    AsWrittenOpen(st, e, aq);
    TextElementRun(w, settings, e, t, AsWritten, p);
    assert p != "" by {
      assert p == PrefixName(FirstFree(BoundPrefixes(st, e), 0));
    }
    TagNamesDiffer(tag.prefix, p, local);
  }

  // ------------------------------------------------- declarations, intended

  /** Under the intended rule a start tag declares exactly the bindings its element holds once every prefix is assured. */
  lemma IntendedDeclaresAll(st: Store, e: NodeId)
    requires Valid(st) && IsElement(st, e)
    ensures var tag := Open(st, e, Intended);
            var own := OwnContext(tag.store, e);
            forall d :: d in tag.declarations <==> d.prefix in own && d.prefix != XmlPrefix && d.uri == own[d.prefix]
  {
    OpenParts(st, e, Intended);
  }

  /** No synthesized prefix is `xml`. */
  lemma PrefixNameNotXml(n: nat)
    ensures PrefixName(n) != XmlPrefix
  {
    assert PrefixName(n)[0] == 'n';
  }

  /** The intended start tag of the same element: the attribute's prefix and the declarations read after it. */
  lemma IntendedOpenParts(st: Store, e: NodeId, aq: QName)
    requires Valid(st) && IsElement(st, e)
    requires var u := st.nodes[e].content.name.namespaceURI;
             u != "" && ResolvePrefix(st, e, u).Some?
    requires st.nodes[e].content.attributes.Keys == {aq} && aq.namespaceURI != ""
    ensures var tag := Open(st, e, Intended);
            var second := AssureName(st, e, aq, Intended);
            && tag.store == second.store
            && tag.declarations == Declarations(second.store.nodes[e].content.namespaceContext)
            && exists value :: tag.attributes == " " + (second.prefix + ":") + aq.localName + "=" + value
  {
    OpenParts(st, e, Intended);
    OnlyAttribute(st, e, aq, Intended);
  }

  /** A synthesized prefix is never `xml`. */
  lemma AssuredNotXml(st: Store, e: NodeId, v: string, rule: Rule)
    requires Valid(st) && IsElement(st, e) && ResolvePrefix(st, e, v).None?
    ensures Assure(st, e, v, rule).prefix != XmlPrefix
  {
    var p := Assure(st, e, v, rule).prefix;
    var n: nat :| p == PrefixName(n) && forall m :: 0 <= m < n ==> ResolveURI(st, e, PrefixName(m)).Some?;
    PrefixNameNotXml(n);
  }

  /** A fresh prefix under the intended rule joins the element's own context, bound to the URI it was assured for. */
  lemma IntendedAssureBinds(st: Store, e: NodeId, v: string)
    requires Valid(st) && IsElement(st, e) && ResolvePrefix(st, e, v).None?
    ensures var r := Assure(st, e, v, Intended);
            && r.prefix != XmlPrefix
            && OwnContext(r.store, e) == OwnContext(st, e)[r.prefix := v]
            && ResolvePrefix(r.store, e, v) == Some(r.prefix)
  {
    AssuredNotXml(st, e, v, Intended);
  }

  /**
   * The case where, as written, the attribute's prefix goes undeclared:
   * under the intended rule the start tag declares the new prefix, bound
   * to the attribute's own URI, and writes the attribute with it.
   */
  lemma IntendedOpenDeclares(st: Store, e: NodeId, aq: QName)
    requires Valid(st) && IsElement(st, e)
    requires var u := st.nodes[e].content.name.namespaceURI;
             u != "" && ResolvePrefix(st, e, u).Some?
    requires st.nodes[e].content.attributes.Keys == {aq}
    requires aq.namespaceURI != "" && ResolvePrefix(st, e, aq.namespaceURI).None?
    ensures var tag := Open(st, e, Intended);
            var p := AssureName(st, e, aq, Intended).prefix;
            && Declaration(p, aq.namespaceURI) in tag.declarations
            && ResolvePrefix(tag.store, e, aq.namespaceURI) == Some(p)
            && exists value :: tag.attributes == " " + (p + ":") + aq.localName + "=" + value
  {
    var second := AssureName(st, e, aq, Intended);
    IntendedOpenParts(st, e, aq);
    assert second == Assure(st, e, aq.namespaceURI, Intended);
    IntendedAssureBinds(st, e, aq.namespaceURI);
    var own := OwnContext(second.store, e);
    assert own[second.prefix] == aq.namespaceURI;
    assert Declaration(second.prefix, aq.namespaceURI) in Declarations(second.store.nodes[e].content.namespaceContext);
  }
}
