/**
  The depth limit of ctbrowser/lib/Core/json.cpp: a text is refused for its nesting
  however it is read, because all derivations of a text nest alike.
 */
module JsonDepth {
  import opened Utf8
  import opened JsonGrammar
  import opened JsonReading
  import Lists

  /** A derivation deeper than the limit makes the reader fail, wherever the excess is. */
  lemma {:induction false} RefusesTree(t: Tree, before: Bytes, rest: Bytes, depth: int)
    requires Legal(t) && AllSpaces(before) && MayFollow(rest)
    requires depth <= MAX_DEPTH < depth + Nesting(t)
    ensures ReadValue(before + (Print(t) + rest), depth).Fail?
    decreases t, 0
  {
    hide ReadArray, ReadObject, PrintElements, PrintFields, ReadItems, ReadFields, LegalElements, LegalFields;
    hide Skip, AllSpaces;
    var s := Print(t) + rest;
    PrintStarts(t);
    assert s[0] == Print(t)[0];
    ReadsAfterSpaces(before, s, depth);
    if depth < MAX_DEPTH {
      match t
      case ArrayTree(es) =>
        assert s[1..] == PrintElements(es) + ([CLOSE_ARRAY] + rest);
        RefusesElements(es, rest, depth + 1, []);
        ReadsArray(es, rest, depth + 1);
      case ObjectTree(fs) =>
        assert s[1..] == PrintFields(fs) + ([CLOSE_OBJECT] + rest);
        RefusesFields(fs, rest, depth + 1, []);
        ReadsObject(fs, rest, depth + 1);
    }
  }

  lemma RefusesElement(e: Element, next: Bytes, depth: int)
    requires LegalElement(e) && next != [] && MayFollow(next)
    requires depth <= MAX_DEPTH < depth + Nesting(e.tree)
    ensures ReadValue(PrintElement(e) + next, depth).Fail?
    decreases e, 1
  {
    var after := e.after + next;
    assert e.after != [] ==> after[0] == e.after[0];
    assert PrintElement(e) + next == e.before + (Print(e.tree) + after);
    RefusesTree(e.tree, e.before, after, depth);
  }

  lemma {:induction false} RefusesElements(es: Elements, rest: Bytes, depth: int, items: seq<Value>)
    requires LegalElements(es) && depth <= MAX_DEPTH < depth + NestingOfElements(es)
    ensures ReadItems(PrintElements(es) + ([CLOSE_ARRAY] + rest), depth, items).Fail?
    decreases es, 2
  {
    hide ReadValue, ReadItems, LegalElement, PrintElement, Skip;
    var close := [CLOSE_ARRAY] + rest;
    ItemsStep(PrintElements(es) + close, depth, items);
    match es
    case LastElement(e) => RefusesElement(e, close, depth);
    case MoreElements(e, more) =>
      var next := [COMMA] + (PrintElements(more) + close);
      Lists.Regroup([COMMA], PrintElements(more), close);
      Lists.Regroup(PrintElement(e), [COMMA] + PrintElements(more), close);
      if depth + Nesting(e.tree) <= MAX_DEPTH {
        ReadsElement(e, next, depth);
        assert next[1..] == PrintElements(more) + close;
        RefusesElements(more, rest, depth, items + [ElementValue(e)]);
      } else {
        RefusesElement(e, next, depth);
      }
  }

  lemma RefusesField(f: Field, next: Bytes, depth: int)
    requires LegalField(f) && next != [] && MayFollow(next)
    requires depth <= MAX_DEPTH < depth + Nesting(f.element.tree)
    ensures ReadField(PrintField(f) + next, depth).Fail?
    decreases f, 2
  {
    hide PrintString, ReadString, ReadValue, Meaning;
    var fromElement := PrintElement(f.element) + next;
    var fromColon := [COLON] + fromElement;
    var fromAfter := f.after + fromColon;
    var fromKey := PrintString(f.key) + fromAfter;
    assert PrintField(f) + next == f.before + fromKey;
    PrintsQuote(f.key, fromAfter);
    SkipSpaces(f.before, fromKey);
    ReadsString(f.key, fromAfter);
    SkipSpaces(f.after, fromColon);
    assert fromColon[1..] == fromElement;
    RefusesElement(f.element, next, depth);
  }

  lemma {:induction false} RefusesFields(fs: Fields, rest: Bytes, depth: int, members: seq<Member>)
    requires LegalFields(fs) && depth <= MAX_DEPTH < depth + NestingOfFields(fs)
    ensures ReadFields(PrintFields(fs) + ([CLOSE_OBJECT] + rest), depth, members).Fail?
    decreases fs, 3
  {
    hide Put, ReadField, ReadFields, LegalField, PrintField, Skip, ReadValue;
    var close := [CLOSE_OBJECT] + rest;
    FieldsStep(PrintFields(fs) + close, depth, members);
    match fs
    case LastField(f) => RefusesField(f, close, depth);
    case MoreFields(f, more) =>
      var next := [COMMA] + (PrintFields(more) + close);
      Lists.Regroup([COMMA], PrintFields(more), close);
      Lists.Regroup(PrintField(f), [COMMA] + PrintFields(more), close);
      if depth + Nesting(f.element.tree) <= MAX_DEPTH {
        ReadsField(f, next, depth);
        assert next[1..] == PrintFields(more) + close;
        RefusesFields(more, rest, depth, Put(members, MemberOf(f)));
      } else {
        RefusesField(f, next, depth);
      }
  }

  /** All derivations of a text nest alike: read from a depth that one of them just fits, the other does too. */
  lemma NestingIsUnique(text: Bytes, a: Bytes, t: Tree, b: Bytes, c: Bytes, u: Tree, d: Bytes)
    requires Derives(text, a, t, b) && Derives(text, c, u, d)
    ensures Nesting(t) == Nesting(u)
  {
    if Nesting(t) < Nesting(u) {
      ReadsTree(t, a, b, MAX_DEPTH - Nesting(t));
      RefusesTree(u, c, d, MAX_DEPTH - Nesting(t));
    } else if Nesting(u) < Nesting(t) {
      ReadsTree(u, c, d, MAX_DEPTH - Nesting(u));
      RefusesTree(t, a, b, MAX_DEPTH - Nesting(u));
    }
  }

  /** Any derivation of a text tells whether the text is accepted. */
  lemma NestingDecides(text: Bytes, before: Bytes, t: Tree, after: Bytes)
    requires Derives(text, before, t, after)
    ensures ParseText(text).Parsed? <==> Nesting(t) <= MAX_DEPTH
  {
    if Nesting(t) <= MAX_DEPTH {
      ReadsTree(t, before, after, 0);
      SkipSpaces(after, []);
      assert after + [] == after;
    } else {
      RefusesTree(t, before, after, 0);
    }
  }

  // --- One text that is too deep -------------------------------------------------------

  /** `n + 1` arrays, one in the other. */
  function Nested(n: nat): (t: Tree) {
    if n == 0 then EmptyArrayTree([]) else ArrayTree(LastElement(Element([], Nested(n - 1), [])))
  }

  function Repeated(b: Byte, n: nat): (s: Bytes) { if n == 0 then [] else [b] + Repeated(b, n - 1) }

  lemma {:induction false} RepeatedLast(b: Byte, n: nat)
    ensures Repeated(b, n) + [b] == Repeated(b, n + 1)
  {
    if n > 0 {
      RepeatedLast(b, n - 1);
      Lists.Regroup([b], Repeated(b, n - 1), [b]);
    } else {
      assert Repeated(b, 1) == [b] + Repeated(b, 0);
    }
  }

  lemma {:induction false} NestedPrints(n: nat)
    ensures Legal(Nested(n)) && Nesting(Nested(n)) == n + 1
    ensures Print(Nested(n)) == Repeated(OPEN_ARRAY, n + 1) + Repeated(CLOSE_ARRAY, n + 1)
  {
    if n > 0 {
      NestedPrints(n - 1);
      var inner := Nested(n - 1);
      var open, close := Repeated(OPEN_ARRAY, n), Repeated(CLOSE_ARRAY, n);
      assert Nested(n) == ArrayTree(LastElement(Element([], inner, [])));
      assert PrintElement(Element([], inner, [])) == Print(inner);
      RepeatedLast(CLOSE_ARRAY, n);
      Lists.Regroup([OPEN_ARRAY], open, close);
      Lists.Regroup([OPEN_ARRAY] + open, close, [CLOSE_ARRAY]);
      assert Repeated(OPEN_ARRAY, n + 1) == [OPEN_ARRAY] + open;
    } else {
      assert Repeated(OPEN_ARRAY, 1) == [OPEN_ARRAY] + Repeated(OPEN_ARRAY, 0);
      assert Repeated(CLOSE_ARRAY, 1) == [CLOSE_ARRAY] + Repeated(CLOSE_ARRAY, 0);
      assert [OPEN_ARRAY] + [] == [OPEN_ARRAY];
      assert Nested(0) == EmptyArrayTree([]);
    }
  }

  lemma BracketsAreNested(n: nat)
    requires n > 0
    ensures Derives(Repeated(OPEN_ARRAY, n) + Repeated(CLOSE_ARRAY, n), [], Nested(n - 1), [])
  {
    NestedPrints(n - 1);
    hide Repeated, Nested;
    assert [] + (Print(Nested(n - 1)) + []) == Print(Nested(n - 1));
  }

  /** So many brackets are accepted exactly up to the limit: 1000 are, 1001 are not. */
  lemma BracketsUpToTheLimit(n: nat)
    requires n > 0
    ensures ParseText(Repeated(OPEN_ARRAY, n) + Repeated(CLOSE_ARRAY, n)).Parsed? <==> n <= MAX_DEPTH
  {
    hide ParseText, Derives;
    BracketsAreNested(n);
    NestedPrints(n - 1);
    hide Repeated, Nested;
    NestingDecides(Repeated(OPEN_ARRAY, n) + Repeated(CLOSE_ARRAY, n), [], Nested(n - 1), []);
  }

  /** A legal text that the header's promise of no depth limit would have accepted. */
  lemma DeepTextIsRefused()
    ensures var text := Repeated(OPEN_ARRAY, 1001) + Repeated(CLOSE_ARRAY, 1001);
            Derives(text, [], Nested(1000), []) && ParseText(text).Stopped?
  {
    hide Repeated, Nested, ParseText, Derives;
    BracketsAreNested(1001);
    BracketsUpToTheLimit(1001);
  }

  /** One bracket fewer is accepted. */
  lemma DeepestTextIsRead()
    ensures ParseText(Repeated(OPEN_ARRAY, 1000) + Repeated(CLOSE_ARRAY, 1000)).Parsed?
  {
    hide Repeated, Nested, ParseText;
    BracketsUpToTheLimit(1000);
  }
}
