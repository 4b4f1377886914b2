/**
 * Character escaping of the serializer (`text(_:)` and `attributeValue(_:)`
 * in Serializer.swift): `&` is replaced first, then each entry of a table
 * of entities, one `replacingOccurrences` pass per entry. Swift walks the
 * table, a dictionary, in an order it does not fix; the results below hold
 * for every order.
 */
module Escaping {
  import opened Wrappers
  import Strings

  /** A character and the entity that replaces it. */
  datatype Entity = Entity(c: char, name: string)

  const Amp: string := "&amp;"
  const TextEntities: seq<Entity> := [Entity('<', "&lt;"), Entity('>', "&gt;")]
  const AttributeEntities: seq<Entity> :=
    [Entity('<', "&lt;"), Entity('>', "&gt;"), Entity('\'', "&apos;"), Entity('"', "&quot;")]

  /** An entity name: `&`, then no `;`, then a final `;`. */
  predicate NameOk(n: string)
  {
    |n| >= 2 && n[0] == '&' && n[|n| - 1] == ';' && ';' !in n[..|n| - 1]
  }

  /**
   * A table the passes cannot interfere through: no entry for a character
   * of `&amp;` (so none for `&`), one
   * entry per character, distinct well-formed names other than `&amp;`,
   * and no name containing a character the table replaces.
   */
  predicate TableOk(t: seq<Entity>)
  {
    && (forall i :: 0 <= i < |t| ==> t[i].c !in Amp && NameOk(t[i].name) && t[i].name != Amp)
    && (forall i, j :: 0 <= i < j < |t| ==> t[i].c != t[j].c && t[i].name != t[j].name)
    && (forall i, j :: 0 <= i < |t| && 0 <= j < |t| ==> t[j].c !in t[i].name)
  }

  lemma NamesOk()
    ensures NameOk(Amp) && NameOk("&lt;") && NameOk("&gt;") && NameOk("&apos;") && NameOk("&quot;")
  {
    assert Amp[..4] == "&amp";
    assert "&lt;"[..3] == "&lt";
    assert "&gt;"[..3] == "&gt";
    assert "&apos;"[..5] == "&apos";
    assert "&quot;"[..5] == "&quot";
  }

  /** Only lower-case letters, `&` and `;`: the characters of every entity name here. */
  predicate Plain(n: string)
  {
    forall k :: 0 <= k < |n| ==> n[k] == '&' || n[k] == ';' || 'a' <= n[k] <= 'z'
  }

  /** A table whose names are plain and whose characters are not cannot replace inside a name. */
  lemma PlainNamesAvoid(t: seq<Entity>)
    requires forall i :: 0 <= i < |t| ==> Plain(t[i].name) && t[i].c in "<>'\""
    ensures forall i, j :: 0 <= i < |t| && 0 <= j < |t| ==> t[j].c !in t[i].name
  {
  }

  /** Names told apart by their second character, or by their length from `&amp;`, are distinct. */
  lemma DistinctNames(t: seq<Entity>)
    requires forall i :: 0 <= i < |t| ==> |t[i].name| >= 2 && |t[i].name| != |Amp|
    requires forall i, j :: 0 <= i < j < |t| ==> t[i].c != t[j].c && t[i].name[1] != t[j].name[1]
    ensures forall i, j :: 0 <= i < j < |t| ==> t[i].c != t[j].c && t[i].name != t[j].name
    ensures forall i :: 0 <= i < |t| ==> t[i].name != Amp
  {
  }

  /** The characters of `&amp;`. */
  lemma AmpChars()
    ensures forall c :: c in Amp ==> c == '&' || c == ';' || 'a' <= c <= 'z'
  {
  }

  lemma TextEntitiesOk()
    ensures TableOk(TextEntities)
  {
    var t := TextEntities;
    assert forall i :: 0 <= i < |t| ==> EntryOk(t[i]) by {
      NamesOk();
      assert Plain(t[0].name) && Plain(t[1].name);
    }
    TableFromEntries(t);
  }

  lemma AttributeEntitiesOk()
    ensures TableOk(AttributeEntities)
  {
    var t := AttributeEntities;
    assert forall i :: 0 <= i < |t| ==> EntryOk(t[i]) by {
      NamesOk();
      assert Plain(t[0].name) && Plain(t[1].name) && Plain(t[2].name) && Plain(t[3].name);
    }
    assert forall i, j :: 0 <= i < j < |t| ==>
             t[i].c != t[j].c && |t[i].name| > 1 && |t[j].name| > 1 && t[i].name[1] != t[j].name[1] by {
      assert t[0].name[1] == 'l' && t[1].name[1] == 'g' && t[2].name[1] == 'a' && t[3].name[1] == 'q';
    }
    TableFromEntries(t);
  }

  /** An entry for a markup character whose name is well formed, plain, and not as long as `&amp;`. */
  predicate EntryOk(e: Entity)
  {
    Plain(e.name) && e.c in "<>'\"" && NameOk(e.name) && |e.name| != |Amp|
  }

  /** Entries that are each fine and pairwise told apart make a table the passes cannot interfere through. */
  lemma TableFromEntries(t: seq<Entity>)
    requires forall i :: 0 <= i < |t| ==> EntryOk(t[i])
    requires forall i, j :: 0 <= i < j < |t| ==>
               t[i].c != t[j].c && |t[i].name| > 1 && |t[j].name| > 1 && t[i].name[1] != t[j].name[1]
    ensures TableOk(t)
  {
    AmpChars();
    PlainNamesAvoid(t);
    DistinctNames(t);
  }

  lemma TablesOk()
    ensures TableOk(TextEntities) && TableOk(AttributeEntities) && NameOk(Amp)
  {
    NamesOk();
    TextEntitiesOk();
    AttributeEntitiesOk();
  }

  // ------------------------------------------------------------ as written

  /** One `replacingOccurrences` pass per table entry, in table order. */
  function ReplaceEach(s: string, t: seq<Entity>): string
    decreases |t|
  {
    if |t| == 0 then s else ReplaceEach(Strings.ReplaceAll(s, t[0].c, t[0].name), t[1..])
  }

  /** `&` first, then the table. */
  function Escape(s: string, t: seq<Entity>): string
  {
    ReplaceEach(Strings.ReplaceAll(s, '&', Amp), t)
  }

  /** `text(_:)`: the escaped character data; it holds no raw `<` or `>`. */
  function Text(s: string): (r: string)
    ensures r == PerChar(s, TextEntities)
    ensures '<' !in r && '>' !in r
  {
    TablesOk();
    EscapeIsPerChar(s, TextEntities);
    PerCharAvoids(s, TextEntities, '<');
    PerCharAvoids(s, TextEntities, '>');
    Escape(s, TextEntities)
  }

  /** `attributeValue(_:)`: the escaped value in double quotes; inside, no raw `"`, `'`, `<` or `>`. */
  function AttributeValue(s: string): (r: string)
    ensures r == "\"" + PerChar(s, AttributeEntities) + "\""
    ensures var inner := r[1..|r| - 1];
            |r| >= 2 && r[0] == '"' && r[|r| - 1] == '"'
            && '"' !in inner && '\'' !in inner && '<' !in inner && '>' !in inner
  {
    TablesOk();
    EscapeIsPerChar(s, AttributeEntities);
    var inner := PerChar(s, AttributeEntities);
    PerCharAvoids(s, AttributeEntities, '"');
    PerCharAvoids(s, AttributeEntities, '\'');
    PerCharAvoids(s, AttributeEntities, '<');
    PerCharAvoids(s, AttributeEntities, '>');
    Quoted(inner);
    "\"" + Escape(s, AttributeEntities) + "\""
  }

  /** A string in double quotes: the quotes at both ends, the string between them. */
  lemma Quoted(inner: string)
    ensures var r := "\"" + inner + "\"";
            |r| >= 2 && r[0] == '"' && r[|r| - 1] == '"' && r[1..|r| - 1] == inner
  {
    var r := "\"" + inner + "\"";
    assert r[1..|r| - 1] == inner;
  }

  // ------------------------------------------------------------ per character

  /** What one character becomes: `&amp;` for `&`, its entity when the table has one, else itself. */
  function Replacement(c: char, t: seq<Entity>): string
  {
    if c == '&' then Amp else TableReplacement(c, t)
  }

  function TableReplacement(c: char, t: seq<Entity>): string
  {
    if |t| == 0 then [c] else if t[0].c == c then t[0].name else TableReplacement(c, t[1..])
  }

  /** The reference escaping: every character replaced on its own. */
  function PerChar(s: string, t: seq<Entity>): string
  {
    if |s| == 0 then "" else Replacement(s[0], t) + PerChar(s[1..], t)
  }

  lemma {:induction false} ReplaceAllAbsent(s: string, c: char, repl: string)
    requires c !in s
    ensures Strings.ReplaceAll(s, c, repl) == s
    decreases |s|
  {
    if |s| > 0 {
      ReplaceAllAbsent(s[1..], c, repl);
    }
  }

  lemma {:induction false} ReplaceEachAppend(a: string, b: string, t: seq<Entity>)
    ensures ReplaceEach(a + b, t) == ReplaceEach(a, t) + ReplaceEach(b, t)
    decreases |t|
  {
    if |t| > 0 {
      Strings.ReplaceAllAppend(a, b, t[0].c, t[0].name);
      ReplaceEachAppend(Strings.ReplaceAll(a, t[0].c, t[0].name), Strings.ReplaceAll(b, t[0].c, t[0].name), t[1..]);
    }
  }

  /** A string holding none of the table's characters passes through untouched. */
  lemma {:induction false} ReplaceEachFree(w: string, t: seq<Entity>)
    requires forall i :: 0 <= i < |t| ==> t[i].c !in w
    ensures ReplaceEach(w, t) == w
    decreases |t|
  {
    if |t| > 0 {
      ReplaceAllAbsent(w, t[0].c, t[0].name);
      ReplaceEachFree(w, t[1..]);
    }
  }

  /** A single character other than `&` comes out as its replacement. */
  lemma {:induction false} ReplaceEachChar(x: char, t: seq<Entity>)
    requires TableOk(t) && x != '&'
    ensures ReplaceEach([x], t) == TableReplacement(x, t)
    decreases |t|
  {
    if |t| > 0 {
      assert TableOk(t[1..]);
      if t[0].c == x {
        assert Strings.ReplaceAll([x], x, t[0].name) == t[0].name + Strings.ReplaceAll([], x, t[0].name);
        assert Strings.ReplaceAll([x], x, t[0].name) == t[0].name;
        assert ReplaceEach([x], t) == ReplaceEach(t[0].name, t[1..]);
        assert forall i :: 0 <= i < |t[1..]| ==> t[1..][i].c !in t[0].name by {
          forall i | 0 <= i < |t[1..]| ensures t[1..][i].c !in t[0].name {
            assert t[1..][i] == t[i + 1];
          }
        }
        ReplaceEachFree(t[0].name, t[1..]);
      } else {
        assert Strings.ReplaceAll([x], t[0].c, t[0].name) == [x] + Strings.ReplaceAll([], t[0].c, t[0].name);
        assert Strings.ReplaceAll([x], t[0].c, t[0].name) == [x];
        ReplaceEachChar(x, t[1..]);
      }
    }
  }

  /** The passes, in the order written, escape each character on its own. */
  lemma {:induction false} EscapeIsPerChar(s: string, t: seq<Entity>)
    requires TableOk(t)
    ensures Escape(s, t) == PerChar(s, t)
    decreases |s|
  {
    if |s| > 0 {
      var head := if s[0] == '&' then Amp else [s[0]];
      assert Strings.ReplaceAll(s, '&', Amp) == head + Strings.ReplaceAll(s[1..], '&', Amp);
      ReplaceEachAppend(head, Strings.ReplaceAll(s[1..], '&', Amp), t);
      EscapeIsPerChar(s[1..], t);
      if s[0] == '&' {
        ReplaceEachFree(Amp, t);
      } else {
        ReplaceEachChar(s[0], t);
      }
      assert ReplaceEach(head, t) == Replacement(s[0], t);
      assert Escape(s, t) == ReplaceEach(head, t) + Escape(s[1..], t);
    } else {
      ReplaceEachFree("", t);
    }
  }

  /** A replaced character never survives escaping. */
  lemma {:induction false} PerCharAvoids(s: string, t: seq<Entity>, c: char)
    requires TableOk(t) && exists i :: 0 <= i < |t| && t[i].c == c
    ensures c !in PerChar(s, t)
    decreases |s|
  {
    if |s| > 0 {
      PerCharAvoids(s[1..], t, c);
      var i :| 0 <= i < |t| && t[i].c == c;
      if s[0] == '&' {
        assert c !in Amp;
      } else {
        TableReplacementAvoids(s[0], t, c);
      }
    }
  }

  lemma {:induction false} TableReplacementAvoids(x: char, t: seq<Entity>, c: char)
    requires forall i :: 0 <= i < |t| ==> c !in t[i].name
    requires x == c ==> exists i :: 0 <= i < |t| && t[i].c == c
    ensures c !in TableReplacement(x, t)
    decreases |t|
  {
    if |t| > 0 && t[0].c != x {
      assert forall i :: 0 <= i < |t[1..]| ==> t[1..][i] == t[i + 1];
      if x == c {
        var i :| 0 <= i < |t| && t[i].c == c;
        assert t[1..][i - 1].c == c;
      }
      TableReplacementAvoids(x, t[1..], c);
    }
  }

  /** The entity a table lists for `c`, or `c` itself when it lists none. */
  lemma {:induction false} TableReplacementIs(c: char, t: seq<Entity>)
    requires TableOk(t)
    ensures forall e :: e in t && e.c == c ==> TableReplacement(c, t) == e.name
    ensures (forall e :: e in t ==> e.c != c) ==> TableReplacement(c, t) == [c]
    decreases |t|
  {
    if |t| > 0 {
      assert TableOk(t[1..]);
      TableReplacementIs(c, t[1..]);
      forall e | e in t && e.c == c ensures TableReplacement(c, t) == e.name {
        if e != t[0] {
          var k :| 0 <= k < |t| && t[k] == e;
          assert k > 0 && t[0].c != t[k].c;
          assert e in t[1..];
        }
      }
    }
  }

  /**
   * The order of the table does not matter: two well-formed tables with
   * the same entries escape alike. Swift's dictionary order is therefore
   * irrelevant to the output.
   */
  lemma EscapeOrderFree(s: string, t1: seq<Entity>, t2: seq<Entity>)
    requires TableOk(t1) && TableOk(t2)
    requires forall e :: e in t1 <==> e in t2
    ensures Escape(s, t1) == Escape(s, t2)
  {
    EscapeIsPerChar(s, t1);
    EscapeIsPerChar(s, t2);
    PerCharCongruent(s, t1, t2);
  }

  lemma {:induction false} PerCharCongruent(s: string, t1: seq<Entity>, t2: seq<Entity>)
    requires TableOk(t1) && TableOk(t2)
    requires forall e :: e in t1 <==> e in t2
    ensures PerChar(s, t1) == PerChar(s, t2)
    decreases |s|
  {
    if |s| > 0 {
      PerCharCongruent(s[1..], t1, t2);
      TableReplacementIs(s[0], t1);
      TableReplacementIs(s[0], t2);
    }
  }

  /** Text escaping gives the same output whichever of its two entries is applied first. */
  lemma TextEitherOrder(s: string)
    ensures Escape(s, [Entity('>', "&gt;"), Entity('<', "&lt;")]) == Text(s)
  {
    TablesOk();
    var swapped := [Entity('>', "&gt;"), Entity('<', "&lt;")];
    forall i, j | 0 <= i < |swapped| && 0 <= j < |swapped| ensures swapped[j].c !in swapped[i].name {
      assert swapped[i].name == "&lt;" || swapped[i].name == "&gt;";
    }
    EscapeOrderFree(s, swapped, TextEntities);
  }

  // ------------------------------------------------------------ decoding

  /** The entity `s` starts with, if any: `&amp;` first, then the table in order. */
  function Match(s: string, t: seq<Entity>): (r: Option<Entity>)
    ensures r.Some? ==> 0 < |r.value.name| <= |s| && s[..|r.value.name|] == r.value.name
  {
    if Amp <= s then Some(Entity('&', Amp)) else MatchTable(s, t)
  }

  function MatchTable(s: string, t: seq<Entity>): (r: Option<Entity>)
    ensures r.Some? ==> 0 < |r.value.name| <= |s| && s[..|r.value.name|] == r.value.name
  {
    if |t| == 0 then None
    else if 0 < |t[0].name| && t[0].name <= s then Some(t[0])
    else MatchTable(s, t[1..])
  }

  /** Decoding: each entity back to its character, everything else as it stands. */
  function Unescape(s: string, t: seq<Entity>): string
    decreases |s|
  {
    if |s| == 0 then ""
    else match Match(s, t)
      case Some(m) => [m.c] + Unescape(s[|m.name|..], t)
      case None => [s[0]] + Unescape(s[1..], t)
  }

  /** The position of the first `;` in `w`, or `|w|` when there is none. */
  function Semicolon(w: string): (r: nat)
    ensures r <= |w|
  {
    if |w| == 0 || w[0] == ';' then 0 else 1 + Semicolon(w[1..])
  }

  /** A string that starts with an entity name has its first `;` where the name ends. */
  lemma {:induction false} SemicolonAfterName(a: string, w: string)
    requires |a| >= 1 && a[|a| - 1] == ';' && ';' !in a[..|a| - 1] && a <= w
    ensures Semicolon(w) == |a| - 1
    decreases |a|
  {
    if |a| > 1 {
      assert a[0] == a[..|a| - 1][0];
      assert w[0] == a[0];
      assert a[1..][..|a| - 2] == a[..|a| - 1][1..];
      SemicolonAfterName(a[1..], w[1..]);
    }
  }

  /** Of two entity names, one is a prefix of the other followed by anything only when they are equal. */
  lemma PrefixFree(a: string, b: string, rest: string)
    requires NameOk(a) && NameOk(b)
    ensures a <= b + rest <==> a == b
  {
    if a <= b + rest {
      SemicolonAfterName(a, b + rest);
      SemicolonAfterName(b, b + rest);
      assert a == (b + rest)[..|a|] == b;
    }
  }

  /** An entity name starts only a string that starts with `&`. */
  lemma NameStart(n: string, c: char, rest: string)
    requires NameOk(n) && n <= [c] + rest
    ensures c == '&'
  {
    assert n[0] == ([c] + rest)[0];
  }

  lemma {:induction false} MatchEntity(t: seq<Entity>, i: nat, rest: string)
    requires TableOk(t) && i < |t|
    ensures MatchTable(t[i].name + rest, t) == Some(t[i])
    decreases i
  {
    var s := t[i].name + rest;
    assert NameOk(t[0].name) && NameOk(t[i].name);
    PrefixFree(t[0].name, t[i].name, rest);
    if i > 0 {
      assert i > 0;
      assert TableOk(t[1..]);
      assert t[1..][i - 1] == t[i];
      MatchEntity(t[1..], i - 1, rest);
    }
  }

  lemma {:induction false} MatchNone(t: seq<Entity>, c: char, rest: string)
    requires forall i :: 0 <= i < |t| ==> NameOk(t[i].name)
    requires c != '&'
    ensures MatchTable([c] + rest, t).None?
    decreases |t|
  {
    if |t| > 0 {
      if t[0].name <= [c] + rest {
        NameStart(t[0].name, c, rest);
      }
      MatchNone(t[1..], c, rest);
    }
  }

  /** Decoding undoes the reference escaping. */
  lemma {:induction false} PerCharRoundTrip(s: string, t: seq<Entity>)
    requires TableOk(t)
    ensures Unescape(PerChar(s, t), t) == s
    decreases |s|
  {
    if |s| > 0 {
      PerCharRoundTrip(s[1..], t);
      DecodeFirst(s[0], PerChar(s[1..], t), t);
    }
  }

  /** Decoding a replacement followed by anything recovers the character, then decodes the rest. */
  lemma DecodeFirst(c: char, rest: string, t: seq<Entity>)
    requires TableOk(t)
    ensures Unescape(Replacement(c, t) + rest, t) == [c] + Unescape(rest, t)
  {
    NamesOk();
    var w := Replacement(c, t) + rest;
    TableReplacementIs(c, t);
    if c == '&' {
      assert Amp <= w;
      assert w[|Amp|..] == rest;
    } else if exists i :: 0 <= i < |t| && t[i].c == c {
      var i :| 0 <= i < |t| && t[i].c == c;
      assert t[i] in t;
      assert w == t[i].name + rest;
      PrefixFree(Amp, t[i].name, rest);
      MatchEntity(t, i, rest);
      assert w[|t[i].name|..] == rest;
    } else {
      assert w == [c] + rest;
      if Amp <= w {
        NameStart(Amp, c, rest);
      }
      MatchNone(t, c, rest);
      assert w[1..] == rest;
    }
  }

  /** Escaped character data decodes to the original text. */
  lemma TextRoundTrip(s: string)
    ensures Unescape(Text(s), TextEntities) == s
  {
    TablesOk();
    PerCharRoundTrip(s, TextEntities);
  }

  /** The inside of an escaped attribute value decodes to the original value. */
  lemma AttributeValueRoundTrip(s: string)
    ensures var r := AttributeValue(s); Unescape(r[1..|r| - 1], AttributeEntities) == s
  {
    TablesOk();
    PerCharRoundTrip(s, AttributeEntities);
    var inner := PerChar(s, AttributeEntities);
    assert ("\"" + inner + "\"")[1..|inner| + 1] == inner;
  }
}
