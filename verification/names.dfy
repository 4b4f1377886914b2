/**
 * Names and namespace bookkeeping (XMLTools.swift): the `QName` value,
 * its display form, and `NamespaceContext`, a prefix-to-URI dictionary
 * with a reverse lookup. Contexts are modelled as immutable maps; every
 * mutator returns the updated map.
 */
module Names {
  import opened Wrappers
  import Strings
  import Sorting

  /** A namespace-qualified name; the prefix used to write it is not part of it. */
  datatype QName = QName(localName: string, namespaceURI: string)

  /** A (prefix, URI) pair, Swift's `NamespaceDeclaration`. */
  datatype Declaration = Declaration(prefix: string, uri: string)

  const XmlPrefix: string := "xml"
  /** The URI exactly as the source spells it (with `https`). */
  const XmlURI: string := "https://www.w3.org/XML/1998/namespace"
  const Xml: Declaration := Declaration(XmlPrefix, XmlURI)
  const DigitalSignature: Declaration := Declaration("ds", "http://www.w3.org/2000/09/xmldsig#")
  const Schema: Declaration := Declaration("xs", "http://www.w3.org/2001/XMLSchema")
  const SchemaInstance: Declaration := Declaration("xsi", "http://www.w3.org/2001/XMLSchema-instance")

  /** `QName(name)`: a name in no namespace. */
  function Unqualified(name: string): (q: QName)
    ensures q.namespaceURI == "" && q.localName == name
  {
    QName(name, "")
  }

  /** Name identity is the (local name, URI) pair and nothing else. */
  lemma QNameEquality(a: QName, b: QName)
    ensures a == b <==> a.localName == b.localName && a.namespaceURI == b.namespaceURI
  {
  }

  const Anonymous: string := "#anonymous"

  /** `QName.description`: `{uri}local`, or the bare local name, or `#anonymous`. */
  function Description(q: QName): string
  {
    if q.namespaceURI != "" then "{" + q.namespaceURI + "}" + q.localName
    else if q.localName != "" then q.localName
    else Anonymous
  }

  /** Reads a description back: the partner of `Description`. */
  function ParseDescription(d: string): Option<QName>
  {
    if |d| > 0 && d[0] == '{' then
      var parts := Strings.Components(d[1..], '}');
      if |parts| < 2 then None
      else Some(QName(Strings.Join(parts[1..], '}'), parts[0]))
    else if d == Anonymous then Some(QName("", ""))
    else Some(QName(d, ""))
  }

  /** Names whose description can be read back unambiguously. */
  predicate Ordinary(q: QName)
  {
    if q.namespaceURI != "" then '}' !in q.namespaceURI
    else q.localName != Anonymous && (|q.localName| == 0 || q.localName[0] != '{')
  }

  lemma DescriptionRoundTrip(q: QName)
    requires Ordinary(q)
    ensures ParseDescription(Description(q)) == Some(q)
  {
    if q.namespaceURI != "" {
      var d := Description(q);
      assert d[1..] == q.namespaceURI + ['}'] + q.localName;
      Strings.ComponentsAfterHead(q.namespaceURI, '}', q.localName);
      var parts := Strings.Components(d[1..], '}');
      assert parts[1..] == Strings.Components(q.localName, '}');
    }
  }

  /** Two different names share a description, so sorting by description alone leaves ties. */
  lemma DescriptionNotInjective()
    ensures Description(QName(Anonymous, "")) == Description(QName("", ""))
    ensures QName(Anonymous, "") != QName("", "")
  {
  }

  /**
   * The order in which the serializer writes attributes: by description,
   * ties (which Swift's unstable sort leaves to dictionary order) broken by
   * URI and then local name.
   */
  predicate Precedes(a: QName, b: QName)
  {
    var da, db := Description(a), Description(b);
    || Strings.Less(da, db)
    || (da == db && (|| Strings.Less(a.namespaceURI, b.namespaceURI)
                     || (a.namespaceURI == b.namespaceURI && Strings.Less(a.localName, b.localName))))
  }

  lemma PrecedesIsStrictTotal()
    ensures Sorting.StrictTotal(Precedes)
  {
    Strings.LessIsStrictTotal();
    forall a: QName, b: QName | a != b ensures Precedes(a, b) || Precedes(b, a) {
      if Description(a) == Description(b) && a.namespaceURI == b.namespaceURI {
        assert a.localName != b.localName;
      }
    }
  }

  lemma PrecedesIrreflexive(a: QName)
    ensures !Precedes(a, a)
  {
    Strings.LessIrreflexive(Description(a));
    Strings.LessIrreflexive(a.namespaceURI);
    Strings.LessIrreflexive(a.localName);
  }

  /** What `Precedes` adds to the source's comparison is a tie-break: a name never precedes one of smaller description. */
  lemma PrecedesByDescription(a: QName, b: QName)
    requires Precedes(a, b)
    ensures !Strings.Less(Description(b), Description(a))
  {
    Strings.LessIrreflexive(Description(a));
    if Strings.Less(Description(b), Description(a)) {
      Strings.LessTransitive(Description(a), Description(b), Description(a));
    }
  }

  /** A set of names, each once, in the order attributes are written. */
  function SortedQNames(s: set<QName>): (r: seq<QName>)
    ensures |r| == |s| && (forall q :: q in s <==> q in r)
    ensures forall i, j :: 0 <= i < j < |r| ==> Precedes(r[i], r[j])
  {
    PrecedesIsStrictTotal();
    Sorting.SortSet(s, Precedes)
  }

  lemma LessIsStrictTotal()
    ensures Sorting.StrictTotal(Strings.Less)
  {
    Strings.LessIsStrictTotal();
  }

  /** The keys of a string set in increasing order. */
  function SortedStrings(s: set<string>): (r: seq<string>)
    ensures |r| == |s| && (forall x :: x in s <==> x in r)
    ensures forall i, j :: 0 <= i < j < |r| ==> Strings.Less(r[i], r[j])
  {
    LessIsStrictTotal();
    Sorting.SortSet(s, Strings.Less)
  }

  // ---------------------------------------------------------------- contexts

  /** `NamespaceContext`: prefix (`""` for the default namespace) to URI. */
  type Context = map<string, string>

  /** `ctx[prefix]` (also `resolveURI(forPrefix:)`). */
  function Lookup(ctx: Context, prefix: string): Option<string>
  {
    if prefix in ctx then Some(ctx[prefix]) else None
  }

  /** `ctx[prefix] = value`; assigning `nil` removes the binding, as for a Swift dictionary. */
  function Assign(ctx: Context, prefix: string, value: Option<string>): (r: Context)
    ensures Lookup(r, prefix) == value
    ensures forall p :: p != prefix ==> Lookup(r, p) == Lookup(ctx, p)
  {
    match value
    case Some(uri) => ctx[prefix := uri]
    case None => ctx - {prefix}
  }

  /** `declare(prefix, uri:)` */
  function Declare(ctx: Context, prefix: string, uri: string): (r: Context)
    ensures Lookup(r, prefix) == Some(uri)
    ensures forall p :: p != prefix ==> Lookup(r, p) == Lookup(ctx, p)
    ensures r.Keys == ctx.Keys + {prefix}
  {
    Assign(ctx, prefix, Some(uri))
  }

  /** `declare(_ declaration:)` */
  function DeclareBinding(ctx: Context, d: Declaration): (r: Context)
    ensures Lookup(r, d.prefix) == Some(d.uri)
    ensures forall p :: p != d.prefix ==> Lookup(r, p) == Lookup(ctx, p)
  {
    Declare(ctx, d.prefix, d.uri)
  }

  /** `defaultURI` getter: the binding of the empty prefix. */
  function DefaultURI(ctx: Context): Option<string>
  {
    Lookup(ctx, "")
  }

  /** `defaultURI` setter. */
  function SetDefaultURI(ctx: Context, uri: Option<string>): (r: Context)
    ensures DefaultURI(r) == uri
    ensures forall p :: p != "" ==> Lookup(r, p) == Lookup(ctx, p)
  {
    Assign(ctx, "", uri)
  }

  /** `declare(withNoPrefix:)` */
  function DeclareDefault(ctx: Context, uri: string): (r: Context)
    ensures DefaultURI(r) == Some(uri) && Lookup(r, "") == Some(uri)
    ensures forall p :: p != "" ==> Lookup(r, p) == Lookup(ctx, p)
  {
    SetDefaultURI(ctx, Some(uri))
  }

  /** `NamespaceContext.defaultContext`: a context pre-seeded with the `xml` binding. */
  function DefaultContext(): Context
  {
    DeclareBinding(map[], Xml)
  }

  lemma DefaultContextBindsOnlyXml()
    ensures forall p :: Lookup(DefaultContext(), p) == (if p == XmlPrefix then Some(XmlURI) else None)
    ensures AllPrefixes(DefaultContext()) == {XmlPrefix}
  {
  }

  /** `init(copyOf:)`: contexts are values here, so a copy has the very same bindings. */
  function CopyOf(ctx: Context): (r: Context)
    ensures forall p :: Lookup(r, p) == Lookup(ctx, p)
    ensures AllPrefixes(r) == AllPrefixes(ctx)
  {
    map p | p in ctx :: ctx[p]
  }

  /** `allPrefixes()` */
  function AllPrefixes(ctx: Context): (r: set<string>)
    ensures forall p :: p in r <==> Lookup(ctx, p).Some?
  {
    ctx.Keys
  }

  /** `allURIs()` */
  function AllURIs(ctx: Context): (r: set<string>)
    ensures forall p :: Lookup(ctx, p).Some? ==> Lookup(ctx, p).value in r
    ensures forall u :: u in r ==> exists p :: Lookup(ctx, p) == Some(u)
  {
    forall u | u in ctx.Values ensures exists p :: Lookup(ctx, p) == Some(u) {
      var p :| p in ctx && ctx[p] == u;
      assert Lookup(ctx, p) == Some(u);
    }
    ctx.Values
  }

  /** The first of `keys` that `ctx` binds to `uri`. */
  function FirstBoundTo(keys: seq<string>, ctx: Context, uri: string): (r: Option<string>)
    ensures r.Some? ==> r.value in keys && Lookup(ctx, r.value) == Some(uri)
    ensures r.None? ==> forall i :: 0 <= i < |keys| ==> Lookup(ctx, keys[i]) != Some(uri)
  {
    if |keys| == 0 then None
    else if Lookup(ctx, keys[0]) == Some(uri) then Some(keys[0])
    else FirstBoundTo(keys[1..], ctx, uri)
  }

  /**
   * `resolvePrefix(forURI:)`: some prefix bound to `uri`, or `None` when
   * there is none. Which one wins among several is left to dictionary
   * order by the source; the model takes the smallest.
   */
  function ReversePrefix(ctx: Context, uri: string): (r: Option<string>)
    ensures r.Some? ==> Lookup(ctx, r.value) == Some(uri)
    ensures r.None? <==> forall p :: Lookup(ctx, p) != Some(uri)
  {
    var keys := SortedStrings(ctx.Keys);
    var r := FirstBoundTo(keys, ctx, uri);
    assert r.None? ==> forall p :: Lookup(ctx, p) != Some(uri) by {
      if r.None? {
        forall p ensures Lookup(ctx, p) != Some(uri) {
          if p in ctx { assert p in keys; }
        }
      }
    }
    r
  }

  /** Along strictly increasing keys, the first key bound to `uri` is the smallest such key. */
  lemma {:induction false} FirstBoundToIsLeast(keys: seq<string>, ctx: Context, uri: string)
    requires forall i, j :: 0 <= i < j < |keys| ==> Strings.Less(keys[i], keys[j])
    ensures var r := FirstBoundTo(keys, ctx, uri);
            r.Some? ==> forall q :: q in keys && Lookup(ctx, q) == Some(uri) ==>
                          q == r.value || Strings.Less(r.value, q)
    decreases |keys|
  {
    if |keys| > 0 {
      var r := FirstBoundTo(keys, ctx, uri);
      if Lookup(ctx, keys[0]) == Some(uri) {
        forall q | q in keys && Lookup(ctx, q) == Some(uri) ensures q == r.value || Strings.Less(r.value, q) {
          var i :| 0 <= i < |keys| && keys[i] == q;
          if i > 0 { assert Strings.Less(keys[0], keys[i]); }
        }
      } else {
        var tail := keys[1..];
        assert forall i, j :: 0 <= i < j < |tail| ==> Strings.Less(tail[i], tail[j]) by {
          forall i, j | 0 <= i < j < |tail| ensures Strings.Less(tail[i], tail[j]) {
            assert tail[i] == keys[i + 1] && tail[j] == keys[j + 1];
          }
        }
        FirstBoundToIsLeast(tail, ctx, uri);
        forall q | q in keys && Lookup(ctx, q) == Some(uri) ensures q in tail {
          var i :| 0 <= i < |keys| && keys[i] == q;
          assert i != 0;
          assert tail[i - 1] == q;
        }
      }
    }
  }

  /** The reverse lookup answers the smallest prefix bound to `uri`. */
  lemma ReversePrefixIsLeast(ctx: Context, uri: string)
    ensures var r := ReversePrefix(ctx, uri);
            r.Some? ==> forall q :: Lookup(ctx, q) == Some(uri) ==> q == r.value || Strings.Less(r.value, q)
  {
    var keys := SortedStrings(ctx.Keys);
    FirstBoundToIsLeast(keys, ctx, uri);
    assert forall q :: Lookup(ctx, q) == Some(uri) ==> q in keys;
  }

  /** The reverse lookup of `uri` depends only on which prefixes are bound to `uri`. */
  lemma ReversePrefixDependsOnBindings(ctx: Context, ctx': Context, uri: string)
    requires forall q :: Lookup(ctx, q) == Some(uri) <==> Lookup(ctx', q) == Some(uri)
    ensures ReversePrefix(ctx, uri) == ReversePrefix(ctx', uri)
  {
    ReversePrefixIsLeast(ctx, uri);
    ReversePrefixIsLeast(ctx', uri);
    Strings.LessIsStrictTotal();
  }

  /** A prefix that is the only one bound to `uri` is the one found for it. */
  lemma ReversePrefixOfOnlyBinding(ctx: Context, p: string, uri: string)
    requires Lookup(ctx, p) == Some(uri)
    requires forall q :: q != p ==> Lookup(ctx, q) != Some(uri)
    ensures ReversePrefix(ctx, uri) == Some(p)
  {
  }

  lemma ReversePrefixOfDefaultContext()
    ensures ReversePrefix(DefaultContext(), XmlURI) == Some(XmlPrefix)
    ensures forall u :: u != XmlURI ==> ReversePrefix(DefaultContext(), u) == None
  {
    var r := ReversePrefix(DefaultContext(), XmlURI);
    DefaultContextBindsOnlyXml();
  }
}
