/**
 * `qnameValue` (Infoset+QName.swift): the string value of a selection read
 * as a qualified name.
 *
 * `contextElement()` is not part of this model; the element whose scope
 * resolves a prefix is a parameter (`None` when there is none).
 */
module InfosetQName {
  import opened Wrappers
  import opened Names
  import Strings
  import opened Dom
  import opened Infoset
  import opened InfosetText

  /** A prefix through the working contexts above `e`, then through the source contexts. */
  function PrefixURI(st: Store, e: Option<NodeId>, prefix: string): (r: Option<string>)
    requires Valid(st) && (e.Some? ==> IsElement(st, e.value))
    ensures e.None? ==> r.None?
    ensures e.Some? && ResolveURI(st, e.value, prefix).Some? ==> r == ResolveURI(st, e.value, prefix)
    ensures e.Some? && ResolveURI(st, e.value, prefix).None? ==> r == ResolveURIFromSource(st, e.value, prefix)
  {
    match e
    case None => None
    case Some(x) =>
      match ResolveURI(st, x, prefix)
      case Some(uri) => Some(uri)
      case None => ResolveURIFromSource(st, x, prefix)
  }

  /**
   * `qnameValue`: `None` without a string value; a value with a colon is
   * split at every colon, the first piece resolved as a prefix and the
   * second taken as the local name, and gives `None` when the prefix is
   * bound nowhere; a value without one takes the document's default URI
   * when there is one.
   */
  function QNameValue(st: Store, s: Selection, context: Option<NodeId>): (r: Option<QName>)
    requires Valid(st) && SelectionOk(st, s) && (context.Some? ==> IsElement(st, context.value))
    ensures StringValue(st, s.nodes).None? ==> r.None?
    ensures r.Some? ==> StringValue(st, s.nodes).Some?
    ensures r.Some? && ':' in StringValue(st, s.nodes).value ==>
              ':' !in r.value.localName && PrefixURI(st, context, Strings.Components(StringValue(st, s.nodes).value, ':')[0]) == Some(r.value.namespaceURI)
    ensures StringValue(st, s.nodes).Some? && ':' !in StringValue(st, s.nodes).value ==>
              r.Some? && r.value.localName == StringValue(st, s.nodes).value
              && r.value.namespaceURI == DefaultURI(NamespaceContextOf(st, s)).GetOr("")
  {
    match StringValue(st, s.nodes)
    case None => None
    case Some(name) =>
      if ':' in name then
        Strings.ComponentsOfSeparated(name, ':');
        var parts := Strings.Components(name, ':');
        match PrefixURI(st, context, parts[0])
        case Some(uri) => Some(QName(parts[1], uri))
        case None => None
      else
        match DefaultURI(NamespaceContextOf(st, s))
        case Some(uri) => Some(QName(name, uri))
        case None => Some(Unqualified(name))
  }

  /**
   * `prefix:local` names `local` in the URI of the nearest working context
   * binding `prefix`, failing that of the nearest source context, and is
   * `None` when neither binds it.
   */
  lemma PrefixedValue(st: Store, s: Selection, context: Option<NodeId>, prefix: string, local: string)
    requires Valid(st) && SelectionOk(st, s) && (context.Some? ==> IsElement(st, context.value))
    requires StringValue(st, s.nodes) == Some(prefix + ":" + local) && ':' !in prefix && ':' !in local
    ensures PrefixURI(st, context, prefix).None? ==> QNameValue(st, s, context).None?
    ensures PrefixURI(st, context, prefix).Some? ==>
              QNameValue(st, s, context) == Some(QName(local, PrefixURI(st, context, prefix).value))
  {
    Strings.ComponentsAfterHead(prefix, ':', local);
    assert prefix + ":" + local == prefix + [':'] + local;
    OccurrencesZero(local, ':');
    assert ':' in prefix + ":" + local by {
      assert (prefix + ":" + local)[|prefix|] == ':';
    }
  }

  /** Without a context element no prefixed value resolves. */
  lemma NoContextNoPrefix(st: Store, s: Selection)
    requires Valid(st) && SelectionOk(st, s)
    requires StringValue(st, s.nodes).Some? && ':' in StringValue(st, s.nodes).value
    ensures QNameValue(st, s, None).None?
  {
  }
}
