# SwiftXMLTools in Dafny

A model of the core of SwiftXMLTools, a Swift library for reading, querying,
changing and writing XML documents, together with proofs about that model.
The model covers:

- **Names** (`names.dfy`, XMLTools.swift): `QName` and its description, and
  `NamespaceContext`, a map from prefixes to URIs. The model covers
  declaration, the default URI, forward and reverse lookup, the built-in
  `xml` binding and copying.
- **DOM** (`dom.dfy`, DOM.swift): the node tree as an arena `Store` of
  nodes keyed by id.
  - Every node records its parent and its children. A parent's id is
    smaller than its children's ids, so walks up and down the tree
    terminate.
  - Attributes are nodes too.
  - An element carries two optional namespace contexts: the working one and
    the one it was parsed with.
  - Also modelled: the append operations, `parentDocument`, the
    resolutions that walk up the chain of elements, and the document's
    `namespaceContext`.
- **Traversal** (`traversal.dfy`, DOM+Traversal.swift): the visitor walk.
  A visitor is a function of the walk's history. The handler walk is the
  sequence of events it reports. Both are proved to nest properly.
- **Selection** (`infoset*.dfy`, Infoset*.swift; `legacy.dfy`,
  Select*.swift): the selection algebra.
  - Covered: `select` in its forms, `item`, `last`, `byPosition`,
    predicates, subscripts, `parent`, `attr`, `descendants`, `text`,
    `stringValue`, `qnameValue`, and the edits `appendElement`, `remove`,
    `clear`, `manipulate` and `attr(_:setValue:)`.
  - The legacy `Selection` repeats `Infoset` line for line. It shares the
    model, and `legacy.dfy` holds only what differs.
- **Serializer** (`escaping.dfy`, `serializer.dfy`, Serializer.swift): the
  serializer is a fold over the handler walk's events.
  - It threads the tree along, because `assureNamespaceDeclaration` writes
    new prefixes into working contexts.
  - A trap of the source is `None`: a forced unwrap of `nil`, or a negative
    repeat count.
  - Escaping is modelled with entity tables. Their dictionary order does
    not matter, and unescaping is proved to invert escaping.

The serializer's functions take a `Rule`:
- `AsWritten` is the source's `assureNamespaceDeclaration`.
- `Intended` fixes the two defects listed under Findings.

`Data` is `Document.data(_:)` as written; `CorrectedData` is the same with
the corrections.

Swift dictionaries have no fixed order. Wherever the source iterates one,
the model uses a fixed sort:
- strings are compared lexicographically;
- names are compared by description, with ties broken by URI and then by
  local name.

The source compares names by description only, so the tie-break by URI
and local name is the model's own. It decides the order of attributes
whose names share a description (`Names.DescriptionNotInjective` shows two
such names); see `Names.Precedes` under Left out.

## Model

| member | source | states |
|---|---|---|
| Names.Unqualified | Sources/XMLTools/XMLTools.swift:110-113 | `QName(name)` has that local name and the empty URI |
| Names.QNameEquality | Sources/XMLTools/XMLTools.swift:124-126 | two names are equal exactly when their local names and their URIs are |
| Names.DescriptionRoundTrip | Sources/XMLTools/XMLTools.swift:140-150 | a name is read back from its description `{uri}local` (or bare local name) unless the URI contains `}` or an unqualified local name is `#anonymous` or starts with `{` |
| Names.DescriptionNotInjective | Sources/XMLTools/XMLTools.swift:140-150 | `QName("#anonymous")` and `QName("")` differ but share a description, so sorting attributes by description can tie |
| Names.PrecedesIsStrictTotal | Sources/XMLTools/Serializer.swift:120-122 | the model's writing order (the source's comparison of descriptions, refined by its own tie-break on URI and local name) is a strict total order on names |
| Names.PrecedesByDescription | Sources/XMLTools/Serializer.swift:120-122 | the writing order never puts a name before one of smaller description, so it is one of the orders the source's sort by description may produce |
| Names.Assign | Sources/XMLTools/XMLTools.swift:74-81 | after the subscript setter the prefix answers the new value (`nil` unbinds it) and every other prefix answers as before |
| Names.Declare | Sources/XMLTools/XMLTools.swift:49-52 | `declare(prefix, uri:)` binds the prefix to the URI, adds it to the prefixes and leaves every other binding |
| Names.DeclareBinding | Sources/XMLTools/XMLTools.swift:44-46 | declaring a `NamespaceDeclaration` binds its prefix to its URI and leaves every other binding |
| Names.SetDefaultURI | Sources/XMLTools/XMLTools.swift:65-72 | the default URI is the binding of the empty prefix; setting it changes no other prefix |
| Names.DeclareDefault | Sources/XMLTools/XMLTools.swift:55-63 | `declare(withNoPrefix:)` makes the URI the default and leaves every non-empty prefix |
| Names.DefaultContextBindsOnlyXml | Sources/XMLTools/XMLTools.swift:31-37 | the default context binds `xml` to the XML namespace and no other prefix |
| Names.CopyOf | Sources/XMLTools/XMLTools.swift:39-41 | a copy answers every prefix as the original does and has the same prefixes |
| Names.AllPrefixes | Sources/XMLTools/XMLTools.swift:96-98 | a prefix is in `allPrefixes()` exactly when it is bound |
| Names.AllURIs | Sources/XMLTools/XMLTools.swift:100-102 | a URI is in `allURIs()` exactly when some prefix is bound to it |
| Names.ReversePrefix | Sources/XMLTools/XMLTools.swift:87-94 | `resolvePrefix(forURI:)` returns a prefix bound to the URI, and `nil` exactly when none is |
| Names.ReversePrefixIsLeast | Sources/XMLTools/XMLTools.swift:87-94 | when several prefixes are bound to the URI, the one returned is the first in the fixed order |
| Names.ReversePrefixDependsOnBindings | Sources/XMLTools/XMLTools.swift:87-94 | the reverse lookup of a URI depends only on which prefixes are bound to that URI |
| Names.ReversePrefixOfDefaultContext | Sources/XMLTools/XMLTools.swift:87-94 | the default context finds `xml` for the XML namespace and nothing for another URI |
| Dom.NewDocument | Sources/XMLTools/DOM.swift:156-168 | a new document is a valid tree with no children and no document element |
| Dom.AppendElement | Sources/XMLTools/DOM.swift:68-72 | the element gets a new last child, an element of the given name with no attributes and no contexts; no other node changes |
| Dom.AppendText | Sources/XMLTools/DOM.swift:92-96 | the element gets a new last child, a text node with the given value; no other node changes |
| Dom.AppendAttribute | Sources/XMLTools/DOM.swift:85-89 | the attribute entry for the name now holds a new attribute node with the value, replacing any earlier one; no other node changes |
| Dom.DocumentAppendElement | Sources/XMLTools/DOM.swift:175-182 | the document's children are replaced by one new element with the default context, which becomes the document element |
| Dom.SetContext | Sources/XMLTools/DOM.swift:59 | writing an element's working context keeps the tree valid and changes no other field and no other node |
| Dom.ParentDocument | Sources/XMLTools/DOM.swift:15-24 | the nearest document among the node and its ancestors, and `nil` exactly when there is none |
| Dom.ElementChain | Sources/XMLTools/DOM.swift:99-105 | the element and then each parent in turn while the parent is an element |
| Dom.ResolveURI | Sources/XMLTools/DOM.swift:98-107 | the URI from the first element of the chain whose working context binds the prefix, and `nil` exactly when none does |
| Dom.ResolvePrefix | Sources/XMLTools/DOM.swift:109-118 | the prefix from the first element of the chain whose working context has one for the URI, and `nil` exactly when none does |
| Dom.ResolvePrefixResolvesBack | Sources/XMLTools/DOM.swift:109-118 | a prefix found for a URI from an element also resolves from that element |
| Dom.ResolveURIFromSource | Sources/XMLTools/DOM.swift:56-57 | the same walk over the contexts as parsed, and `nil` exactly when none binds the prefix |
| Dom.BoundPrefixes | Sources/XMLTools/Serializer.swift:148-150 | a prefix is in the set exactly when it resolves from the element |
| Dom.DocumentContext | Sources/XMLTools/DOM.swift:185-195 | the document's context is the root's working context, or the default context without a root |
| Dom.MaterializeDocumentContext | Sources/XMLTools/DOM.swift:187-191 | the getter gives a root without a context the default one, reads the same context as before and changes no other node |
| Dom.SetDocumentContext | Sources/XMLTools/DOM.swift:196-198 | the setter replaces the root's context, does nothing without a root and changes no other node |
| Traversal.DocumentTraverse | Sources/XMLTools/DOM+Traversal.swift:25-29 | the visitor sees the document first, and the root only when it steps in; only the last entry can be `stop`; every node visited lies in the document |
| Traversal.ElementTraverse | Sources/XMLTools/DOM+Traversal.swift:56-71 | the element is shown first, and nothing more unless the answer is `stepIn`; only the last entry can be `stop`; every visited node lies below the element |
| Traversal.TraverseChildren | Sources/XMLTools/DOM+Traversal.swift:73-96 | the children's walk stops at the first `stop` and visits nothing outside the element |
| Traversal.VisitChild | Sources/XMLTools/DOM+Traversal.swift:74-93 | an element child is shown, and shown again by its own walk when the answer is `stepIn`; instructions and attributes are never shown |
| Traversal.AlwaysStepInVisitsAll | Sources/XMLTools/DOM+Traversal.swift:56-96 | a visitor that always steps in sees the reference preorder, with each descended child element twice, and the walk ends with `next` |
| Traversal.ElementEvents | Sources/XMLTools/DOM+Traversal.swift:98-115 | an element's events start with its start and end with its end |
| Traversal.NodeEvents | Sources/XMLTools/DOM+Traversal.swift:100-113 | text and CDATA children report text; instructions and attributes report nothing |
| Traversal.DocumentEvents | Sources/XMLTools/DOM+Traversal.swift:30-34 | a document's events start with its start and end with its end |
| Traversal.ElementEventsNest | Sources/XMLTools/DOM+Traversal.swift:98-115 | replaying an element's events on any stack of open elements closes exactly what it opens |
| Traversal.DocumentEventsNest | Sources/XMLTools/DOM+Traversal.swift:30-34 | a document's events are properly nested from an empty stack |
| Escaping.TablesOk | Sources/XMLTools/Serializer.swift:219-224 | each table has one entry per character, none for `&`; its entity names are distinct, each `&` and a `;` with no `;` between, and no name holds a character the table replaces |
| Escaping.EscapeIsPerChar | Sources/XMLTools/Serializer.swift:219-224 | replacing `&` first and then each entity in turn equals replacing every character by its entity at once |
| Escaping.EscapeOrderFree | Sources/XMLTools/Serializer.swift:222-224 | the result is the same whatever order the dictionary of entities is walked in |
| Escaping.TextEitherOrder | Sources/XMLTools/Serializer.swift:221-224 | the two possible orders of the text table give the same text |
| Escaping.Text | Sources/XMLTools/Serializer.swift:217-229 | escaped text is each character replaced by its entity, so it contains no `<` and no `>` |
| Escaping.AttributeValue | Sources/XMLTools/Serializer.swift:231-243 | an attribute value is each character replaced by its entity, in double quotes, so it contains no `"`, `'`, `<` or `>` between the quotes |
| Escaping.TextRoundTrip | Sources/XMLTools/Serializer.swift:217-229 | unescaping escaped text gives the text back |
| Escaping.AttributeValueRoundTrip | Sources/XMLTools/Serializer.swift:231-243 | unescaping what lies between the quotes gives the value back |
| Infoset.Single | Sources/XMLTools/Infoset.swift:32-41 | `Infoset(node)` selects the node, with a document at or above it, and with none (the fresh `Document()` of the source) exactly when no ancestor is a document |
| Infoset.SingleOfDocumentNode | Sources/XMLTools/Infoset.swift:32-41 | wrapping the selected node of `Infoset(node)` again gives the same selection |
| Infoset.ChildNodes | Sources/XMLTools/Infoset.swift:56-62 | a node is among the children exactly when it is a child of a selected node; no node has no children, and one node has exactly its own children, in order |
| Infoset.ChildNodesAppend | Sources/XMLTools/Infoset.swift:56-62 | the children of two selections joined are the children of each, in order |
| Infoset.Select | Sources/XMLTools/Infoset.swift:107-109 | `select()` keeps the document and holds exactly the children of the selected nodes; of one node, its children in order |
| Infoset.SelectQName | Sources/XMLTools/Infoset.swift:167-177 | `select(qname)` keeps the document and selects exactly the element children of that name of the selected nodes |
| Infoset.SelectQNameFiltersChildren | Sources/XMLTools/Infoset.swift:167-177 | `select(qname)` is `select()` filtered to the elements of that name, order kept |
| Infoset.ResolveQName | Sources/XMLTools/Infoset.swift:90-105 | a name without a colon keeps its local name; one with a colon gets a shorter local name without a colon |
| Infoset.ResolvePrefixedName | Sources/XMLTools/Infoset.swift:90-105 | `p:l` names `l` in the URI the document binds `p` to, or in no namespace when `p` is unbound |
| Infoset.ResolveIgnoresExtraPieces | Sources/XMLTools/Infoset.swift:90-105 | everything from a second colon on is ignored |
| Infoset.ResolvePlainName | Sources/XMLTools/Infoset.swift:90-105 | a plain name takes the default URI exactly when there is one and it is asked for |
| Infoset.SelectName | Sources/XMLTools/Infoset.swift:163-165 | `select(name)` selects exactly the element children named after the name resolved with the default namespace |
| Infoset.Item | Sources/XMLTools/Infoset.swift:156-161 | `item(i)` selects the `i`-th node alone, or nothing past the end |
| Infoset.Last | Sources/XMLTools/Infoset.swift:253-258 | `last()` selects the last node alone, or nothing |
| Infoset.LastIsFinalItem | Sources/XMLTools/Infoset.swift:253-258 | `last()` is `item(count - 1)`, and `item(0)` of `item(0)` is `item(0)` |
| Infoset.ByPosition | Sources/XMLTools/Infoset.swift:192-202 | a node is kept exactly when its zero-based index passes the test; a single node is kept exactly when position 0 passes |
| Infoset.AtPositionsAppend | Sources/XMLTools/Infoset.swift:192-202 | positions count on across a concatenation, so the nodes kept from two parts are those kept from each, in order |
| Infoset.ByPositionOfOne | Sources/XMLTools/Infoset.swift:192-202 | selecting the position equal to `i` gives the nodes of `item(i)` |
| Infoset.ByPredicate | Sources/XMLTools/Infoset.swift:204-212 | a node is kept exactly when the test accepts the node alone; a single node is kept exactly when the test accepts it |
| Infoset.PassingAppend | Sources/XMLTools/Infoset.swift:204-212 | the test is applied node by node, so the nodes kept from two parts are those kept from each, in order |
| Infoset.NameOf | Sources/XMLTools/Infoset.swift:226-233 | `name()` is the name of the only selected element or attribute; it is `QName("")` for a single node without a name and unless exactly one node is selected |
| Infoset.NameOfSingle | Sources/XMLTools/DOM.swift:11-37 | `Infoset(node).name()` is the node's own name, as `NamedNode.name()` gives it for elements and attributes, and `QName("")` where `Node.name()` is `nil` |
| Infoset.ApplySelector | Sources/XMLTools/Infoset.swift:179-190 | an unknown selector selects nothing; a name keeps the document |
| Infoset.SelectAll | Sources/XMLTools/Infoset.swift:145-151 | applying a list of selectors in turn gives a selection of nodes of the tree |
| Infoset.SelectAllWithOther | Sources/XMLTools/Infoset.swift:145-151 | an unknown selector anywhere in the list leaves nothing selected |
| Infoset.EmptyStaysEmpty | Sources/XMLTools/Infoset.swift:145-151 | no selector brings back nodes once none are selected |
| Infoset.SelectPath | Sources/XMLTools/Infoset.swift:115-139 | `select(names...)` and `select(qnames...)` keep the document |
| Infoset.NameStepsKeepEmpty | Sources/XMLTools/Infoset.swift:115-139 | name steps from an empty selection give back that selection unchanged |
| Infoset.SelectPathIsSelectAll | Sources/XMLTools/Infoset.swift:115-139 | stopping at the first empty step gives what applying every step would |
| Infoset.Parent | Sources/XMLTools/Infoset+Parent.swift:11-19 | `parent()` selects the first node's parent alone, or nothing for an empty selection or a document |
| Infoset.ParentSeesFirstOnly | Sources/XMLTools/Infoset+Parent.swift:11-19 | selections with the same first node have the same parent |
| InfosetText.OptNodeTextAgrees | Sources/XMLTools/Infoset+Text.swift:9-28 | the model's definition of the optional `nodeToText` these getters call gives the same text as the total one, a missing value counting as "" |
| InfosetText.OptNodeTextFixedCases | Tests/XMLToolsTests/ValuesTests.swift:61-72 | the optional reading gives an attribute's value or nothing, the text of an element whose only child is text, and nothing for an element without children |
| InfosetText.TextAppend | Sources/XMLTools/Infoset+Text.swift:5-14 | the text of joined selections is the texts joined |
| InfosetText.StringValue | Sources/XMLTools/Infoset+Text.swift:25-38 | `stringValue` is `nil` exactly when no node contributes, and otherwise equals `text` |
| InfosetText.EmptySelectionText | Sources/XMLTools/Infoset+Text.swift:5-14 | an empty selection has text `""` and no string value |
| InfosetText.ReplaceText | Sources/XMLTools/Infoset+Text.swift:17-20 | an element's children become one new text node with the value; other nodes and non-elements are untouched |
| InfosetText.SetText | Sources/XMLTools/Infoset+Text.swift:15-22 | each selected element holds exactly one text child with the value; unselected nodes and non-elements are untouched |
| InfosetText.SetTextThenText | Sources/XMLTools/Infoset+Text.swift:5-22 | after setting the text, reading a selected element's text gives the value back |
| InfosetAttributes.SortedNames | Sources/XMLTools/Serializer.swift:120-122 | the attribute names of an element, each once, sorted by the writing order and so with descriptions never decreasing |
| InfosetAttributes.OwnAttributes | Sources/XMLTools/Infoset+Attributes.swift:23 | exactly the element's attribute nodes, each an attribute whose parent is the element |
| InfosetAttributes.AttributeNodes | Sources/XMLTools/Infoset+Attributes.swift:19-27 | exactly the attributes of the selected elements |
| InfosetAttributes.Attr | Sources/XMLTools/Infoset+Attributes.swift:29-32 | `attr()` keeps the document and selects exactly the attributes of the selected elements |
| InfosetAttributes.AttrQName | Sources/XMLTools/Infoset+Attributes.swift:9-17 | `attr(qname)` selects exactly the attributes of that name on selected elements |
| InfosetAttributes.AttrQNameIsLookup | Sources/XMLTools/Infoset+Attributes.swift:9-17 | `attr(qname)` is one lookup per selected element, so at most one attribute each |
| InfosetAttributes.AttrName | Sources/XMLTools/Infoset+Attributes.swift:5-7 | `attr(name)` selects exactly the attributes of the selected nodes named after the name resolved without the default namespace |
| InfosetAttributes.AttrNameIgnoresDefault | Sources/XMLTools/Infoset+Attributes.swift:5-7 | a plain attribute name never picks up the document's default namespace |
| InfosetDescendants.DescendantsNamed | Sources/XMLTools/Infoset+Descendant.swift:8-25 | an empty selection gives `EMPTY`; every result is named `qname` |
| InfosetDescendants.DescendantsNamedFiltersLevels | Sources/XMLTools/Infoset+Descendant.swift:8-25 | the result is the level-by-level reachable nodes filtered to those named `qname` |
| InfosetDescendants.DescendantsNamedMembers | Sources/XMLTools/Infoset+Descendant.swift:8-25 | a node is a result exactly when it is reachable and named `qname`; results lie below selected nodes; named children of results are results |
| InfosetDescendants.DescendantsAll | Sources/XMLTools/Infoset+Descendant.swift:27-42 | an empty selection gives `EMPTY`; every result is an element |
| InfosetDescendants.DescendantsAllFiltersLevels | Sources/XMLTools/Infoset+Descendant.swift:27-42 | the result is the reachable nodes filtered to elements |
| InfosetDescendants.DescendantsAllMembers | Sources/XMLTools/Infoset+Descendant.swift:27-42 | a node is a result exactly when it is a reachable element; element children of results are results |
| InfosetManipulation.FirstContainer | Sources/XMLTools/Infoset+Manipulation.swift:25-33 | the first selected element or document, and none exactly when no node is one |
| InfosetManipulation.AppendTo | Sources/XMLTools/Infoset+Manipulation.swift:26-31 | the new node is a childless element of the given name under the target; no other node changes |
| InfosetManipulation.AppendToElement | Sources/XMLTools/DOM.swift:68-72 | appending to an element adds the new node as its last child |
| InfosetManipulation.AppendToDocument | Sources/XMLTools/DOM.swift:175-182 | appending to a document makes the new node its only child and its document element |
| InfosetManipulation.AppendElementTo | Sources/XMLTools/Infoset+Manipulation.swift:24-35 | only the first element or document gets the new element, which is selected; without one nothing changes and `EMPTY` is returned |
| InfosetManipulation.AppendToThenSelect | Sources/XMLTools/Infoset+Manipulation.swift:24-35 | afterwards `select(qname)` on the target finds its earlier such children followed by the new one |
| InfosetManipulation.RemoveOne | Sources/XMLTools/Infoset+Manipulation.swift:44-46 | one node is dropped from the children of every node, which keep everything else in order |
| InfosetManipulation.RemoveAll | Sources/XMLTools/Infoset+Manipulation.swift:43-47 | every node loses exactly its children that were selected |
| InfosetManipulation.Remove | Sources/XMLTools/Infoset+Manipulation.swift:41-49 | `remove()` detaches the selected nodes from every parent and returns the first node's old parent |
| InfosetManipulation.RemoveDetaches | Sources/XMLTools/Infoset+Manipulation.swift:41-49 | a node stays a child exactly when it was one and was not selected |
| InfosetManipulation.ClearAll | Sources/XMLTools/Infoset+Manipulation.swift:56-58 | each listed node loses all its children; every other node is unchanged |
| InfosetManipulation.Clear | Sources/XMLTools/Infoset+Manipulation.swift:55-60 | `clear()` empties the children of the selected nodes, changes no other node and returns the selection |
| InfosetManipulation.ClearThenSelect | Sources/XMLTools/Infoset+Manipulation.swift:55-60 | after `clear()`, `select()` selects nothing |
| InfosetManipulation.Manipulate | Sources/XMLTools/Infoset+Manipulation.swift:66-69 | `manipulate` applies the closure's edit and returns the same selection |
| InfosetManipulation.ManipulateClear | Sources/XMLTools/Infoset+Manipulation.swift:66-69 | manipulating with `clear` is `clear()` |
| InfosetManipulation.SetAttribute | Sources/XMLTools/Infoset+Manipulation.swift:85-87 | an element ends up holding the attribute with the value, and nothing else of it changes; any other node leaves the tree untouched |
| InfosetManipulation.SetAttributes | Sources/XMLTools/Infoset+Manipulation.swift:84-88 | each selected element holds the attribute with the value and nothing else of it changes; other nodes are untouched |
| InfosetManipulation.SetAttr | Sources/XMLTools/Infoset+Manipulation.swift:83-90 | `attr(_:setValue:)` sets the attribute on every selected element and leaves non-elements alone |
| InfosetManipulation.SetAttrSelectsWritten | Sources/XMLTools/Infoset+Manipulation.swift:83-90 | the returned selection has one node per selected element, each the attribute with the value |
| InfosetQName.PrefixURI | Sources/XMLTools/Infoset+QName.swift:19-23 | a prefix resolves through the working contexts first, then through the parsed ones, and not at all without a context element |
| InfosetQName.QNameValue | Sources/XMLTools/Infoset+QName.swift:12-30 | `nil` without a string value; a prefixed value needs a bound prefix and gives a colon-free local name; a plain value takes the default URI |
| InfosetQName.PrefixedValue | Sources/XMLTools/Infoset+QName.swift:17-25 | `p:l` gives `l` in the URI `p` resolves to, and `nil` when it resolves nowhere |
| InfosetQName.NoContextNoPrefix | Sources/XMLTools/Infoset+QName.swift:17-25 | without a context element no prefixed value has a qualified name |
| Strings.Components | Sources/XMLTools/Infoset+QName.swift:18 | `components(separatedBy:)`: one more piece than separators, no piece holds the separator, and joining the pieces with it gives the string back |
| Legacy.Text | Sources/XMLTools/Select+Text.swift:5-12 | the legacy getter gives `""` for an empty selection and starts with the first node's text |
| Legacy.TextAgrees | Sources/XMLTools/Select.swift:68-82 | the legacy text getter and the `Infoset` one, read with the model's optional `nodeToText`, agree on every selection |
| Legacy.TextAppend | Sources/XMLTools/Select+Text.swift:5-12 | the legacy text of joined selections is the texts joined |
| Legacy.DescendantsByName | Sources/XMLTools/Select+Descendant.swift:4-6 | the result holds exactly the nodes at or below the selection named after the name resolved with the default namespace |
| Legacy.DescendantsPlainName | Sources/XMLTools/Select.swift:84-96 | a plain name searches the document's default namespace when it has one, no namespace otherwise |
| Legacy.DescendantsPrefixedName | Sources/XMLTools/Select.swift:84-96 | `p:l` searches `l` in the URI the document binds `p` to, or in none |
| Serializer.FirstFree | Sources/XMLTools/Serializer.swift:147-150 | the first `ns<n>` not bound, with every earlier one bound |
| Serializer.Assure | Sources/XMLTools/Serializer.swift:140-155 | an existing prefix is returned and nothing changes; otherwise the first free `ns<n>` is added to the element's own context, and only there |
| Serializer.AsWrittenAssureRebinds | Sources/XMLTools/Serializer.swift:152 | as written, the new prefix is bound to the element's URI, and then answers that URI at the element |
| Serializer.AssureKeepsAnswer | Sources/XMLTools/Serializer.swift:140-155 | with the corrected binding, assuring a prefix never changes the element's answer for any URI that already has one |
| Serializer.Declarations | Sources/XMLTools/Serializer.swift:108-118 | exactly one `xmlns` declaration per binding of the working context except `xml`, in increasing order of prefix |
| Serializer.AttributeList | Sources/XMLTools/Serializer.swift:120-133 | the attribute loop changes only the element's working context and keeps every binding |
| Serializer.AttributeListText | Sources/XMLTools/Serializer.swift:124-133 | the attribute loop writes ` prefix:local="value"` for each name in the given order and nothing else, the prefix and colon only for a namespaced name and a missing value as empty |
| Serializer.OpenAttributesInOrder | Sources/XMLTools/Serializer.swift:120-133 | a start tag writes every attribute of the element once, in the order of `SortedNames`, each with its escaped value |
| Serializer.AssureName | Sources/XMLTools/Serializer.swift:100-131 | assuring the prefix of the element's name or of an attribute's name changes only the element's working context, and keeps its attribute table |
| Serializer.Open | Sources/XMLTools/Serializer.swift:99-133 | after the start tag the element's URI has a prefix, and only its working context has changed |
| Serializer.OpenAnswersPrefix | Sources/XMLTools/Serializer.swift:99-106 | with the corrected binding, the start tag's prefix is what the element's URI resolves to once the tag is written |
| Serializer.StartDocumentStep | Sources/XMLTools/Serializer.swift:49-59 | `startDocument` only appends to the output |
| Serializer.StartElementStep | Sources/XMLTools/Serializer.swift:83-137 | `startElement` changes only the element's working context and keeps every binding |
| Serializer.EndElementStep | Sources/XMLTools/Serializer.swift:157-178 | `endElement` leaves the tree and only appends to the output |
| Serializer.CharactersStep | Sources/XMLTools/Serializer.swift:180-187 | `textNode` leaves the tree and only appends to the output |
| Serializer.Step | Sources/XMLTools/Serializer.swift:49-199 | only a start tag changes the tree, and only its element's context; output is only appended |
| Serializer.Run | Sources/XMLTools/Serializer.swift:49-199 | a run keeps every binding and only appends to the output |
| Serializer.StartBalanced | Sources/XMLTools/Serializer.swift:83-137 | a start tag in a consistent state never traps and leaves the element open |
| Serializer.EndBalanced | Sources/XMLTools/Serializer.swift:157-178 | an end tag of the innermost open element never traps: its forced unwrap finds a prefix |
| Serializer.RunBalanced | Sources/XMLTools/Serializer.swift:157-178 | a run over properly nested events never traps |
| Serializer.SerializeNeverTraps | Sources/XMLTools/Serializer.swift:168 | serializing any valid document never traps, whatever the options |
| Serializer.DataStartsWithDeclaration | Sources/XMLTools/Serializer.swift:49-59 | the output starts with the XML declaration unless it is omitted; a document without a root writes only that |
| Serializer.Data | Sources/XMLTools/Serializer.swift:247-258 | `data(_:)` starts with the XML declaration unless omitted, and is only that for a document without a root |
| Serializer.CorrectedData | Sources/XMLTools/Serializer.swift:247-258 | the same for the corrected serializer |
| Serializer.ElementClosing | Sources/XMLTools/Serializer.swift:157-177 | an element with no element, text or CDATA child closes its start tag with `/>` right after it; any other ends with `</`, the name with the prefix its URI resolves to after the children (none for the empty URI), and `>`, and with the corrected binding that prefix is the start tag's |
| Serializer.ElementRunFrames | Sources/XMLTools/Serializer.swift:97-98 | the events of an element leave the parent's state marked as no longer empty and holding child elements, and every state below as it was |
| Serializer.IntendedTagsMatch | Sources/XMLTools/Serializer.swift:152 | with the corrected binding, every element's end tag repeats the name of its start tag |
| Serializer.AsWrittenOpen | Sources/XMLTools/Serializer.swift:108-155 | as written, an attribute's new prefix is undeclared in the tag and unbound above it, yet captures the element's own URI |
| Serializer.AsWrittenEndTagDiffers | Sources/XMLTools/Serializer.swift:166-173 | as written, such an element's end tag names the attribute's prefix, not the start tag's |
| Serializer.IntendedDeclaresAll | Sources/XMLTools/Serializer.swift:108-118 | with declarations listed after the attributes, the tag declares exactly the bindings the element holds |
| Serializer.IntendedOpenDeclares | Sources/XMLTools/Serializer.swift:108-133 | corrected, the attribute's new prefix is declared with the attribute's own URI and written on the attribute |

## Left out

- Parsing (Parser.swift): it calls Foundation's `XMLParser`, which is not part of this model. The DOM is built with the append operations.
- Number and data conversions (Infoset+Number.swift, Select+Number.swift, Infoset+Data.swift): they depend on locale-bound formatters and floating point.
- Text encoding: the serializer's `write` appends UTF-8 bytes. The model appends characters, and the `String.Encoding` value is dropped.
- `EMPTY` is one shared, mutable selection whose made-up document an edit could change. The model makes a fresh empty selection each time.
- The iterators (`makeIterator`, `SelectionIterator`) are left out. They only hand out `Infoset(node)` for each selected node, which `Infoset.Single` models.
- `merge`, `append` and `count` are left out. They are sequence concatenation and length.
- Names.ReversePrefixIsLeast: the source returns whichever binding the dictionary walks to first. The model fixes the least one in string order; only "some prefix bound to the URI" carries over to the source.
- InfosetAttributes.SortedNames: `attributes.values` comes in dictionary order. The model fixes it by the writing order, so where it stands for `attributes.values` the contracts speak of membership only.
- Serializer.AttributeListText: the text is stated exactly except for the prefix chosen for each namespaced attribute; which prefix that is follows from `Serializer.Assure` and, with the corrected binding, `Serializer.IntendedOpenDeclares`.
- Names.Precedes: the source sorts attribute names by description alone, with Swift's unstable sort, so names with equal descriptions come out in an order it leaves open. The model breaks such ties by URI and then by local name; `Names.PrecedesByDescription` is what carries over to the source.
- Unicode: strings are sequences of Unicode scalar values and are compared scalar by scalar. Swift's `String` comparison uses canonical equivalence, so QName equality (XMLTools.swift:124-126), dictionary keys and the name filters treat `e` followed by a combining acute accent and the precomposed `é` as equal, while the model does not. Normalization is not modelled.
- Shared contexts: `NamespaceContext` is a class (XMLTools.swift:24). The setters of `namespaceContext` (DOM.swift:59, DOM.swift:196-198) store a reference, so two elements, or a document and its root, can share one context object, and a later `declare` by `assureNamespaceDeclaration` shows through every holder. The model stores contexts as values per element, so a declaration changes only the element it is made at.
- `safeResolveQName` is not part of this model. The `String` overloads of `Infoset.descendants`, `appendElement` and `attr(_:setValue:)` that call it are left out; their `QName` overloads are modelled.
- InfosetText.OptNodeText: the optional-returning `nodeToText` that Infoset+Text.swift:9 and :28 call is not part of this model; Infoset.swift:74-88 holds only the total one. The model defines it as: a text or CDATA node gives its value, an attribute its value or nothing, an element its children's contributions joined (nothing when none contributes), and any other node nothing. ValuesTests.swift:61-72 fix only an attribute's value, an element with one text child and an empty element giving `nil` (`InfosetText.OptNodeTextFixedCases`); `InfosetText.OptNodeTextAgrees` and `Legacy.TextAgrees` hold of the model's definition.
- InfosetManipulation.AppendElementTo: the doc comments at Infoset+Manipulation.swift:13 and :21 promise an append to every selected element or document, but the loop at :25-33 returns after the first one. The model follows the code, so no contract states the documented promise.
- `contextElement()` is not part of this model. `qnameValue` takes the element as a parameter.
- Dom.ResolveURIFromSource: the body of `resolveURIFromSource` is not part of this model; the member reads it as the walk of `resolveURI` over the contexts recorded from the source document.
- The visitor protocol's default implementations (`DefaultDocumentHandler`) and the throwing `traverse(_:)` called by `data(_:)` are not part of this model. The handler walk of DOM+Traversal.swift is used, and the `catch` path of `data(_:)` is unreachable in the model.
- Serializer `hasText`: the source sets it but never reads it, so it has no effect on the output.
- The lazy creation of the root context inside the `namespaceContext` getter is modelled as a separate write (`Dom.MaterializeDocumentContext`). The read (`Dom.DocumentContext`) is pure.
- Comments and processing instructions are written nowhere by the serializer, whose callbacks for them are empty. CDATA nodes reach `textNode` because `CDATANode` is a `TextNode`, so they are escaped like text.
- The commented-out `child` methods of Select.swift are left out.
- Infoset.Item: a negative index traps in the source. The model requires `index >= 0`.
- Escaping.EscapeOrderFree, Escaping.TextEitherOrder: Swift's dictionary order varies between runs. The model proves the result independent of the order rather than fixing one.

## Findings

| source | as written | input that shows it | evidently intended | confidence | as-written member | corrected member |
|---|---|---|---|---|---|---|
| Sources/XMLTools/Serializer.swift:152 | a prefix synthesized for a URI is bound to the element's own namespace URI, not to the URI it was made for | an element `{u}e` whose prefix `a` for `u` comes from its parent, with one attribute `{v}x` where `v` has no prefix and there is one text child: the start tag is `<a:e ns0:x=…>`; `ns0` is then bound to `u` at the element, so the end tag is `</ns0:e>` | bind the new prefix to `uri`, the URI it was requested for | not executed | Serializer.AsWrittenEndTagDiffers | Serializer.IntendedTagsMatch |
| Sources/XMLTools/Serializer.swift:108-133 | the `xmlns` declarations are written before the attribute loop makes up new prefixes, so those prefixes are never declared | the same element: `ns0` appears on the attribute, no `xmlns:ns0` is written and no ancestor binds it | write the declarations after every prefix of the tag has been assured | not executed | Serializer.AsWrittenOpen | Serializer.IntendedOpenDeclares |
