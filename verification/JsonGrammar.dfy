/**
  The JSON grammar of RFC 8259, sections 2 to 7, as derivation trees over bytes:
  what each tree prints as, when it is legal, how deep it nests and which value it
  denotes. Nothing here says how text is read.
 */
module JsonGrammar {
  import opened Utf8
  import opened Utf16

  const QUOTE: Byte := 0x22
  const PLUS: Byte := 0x2B
  const COMMA: Byte := 0x2C
  const MINUS: Byte := 0x2D
  const POINT: Byte := 0x2E
  const SLASH: Byte := 0x2F
  const ZERO: Byte := 0x30
  const COLON: Byte := 0x3A
  const OPEN_ARRAY: Byte := 0x5B
  const BACKSLASH: Byte := 0x5C
  const CLOSE_ARRAY: Byte := 0x5D
  const LETTER_U: Byte := 0x75
  const OPEN_OBJECT: Byte := 0x7B
  const CLOSE_OBJECT: Byte := 0x7D
  const TRUE: Bytes := [0x74, 0x72, 0x75, 0x65]
  const FALSE: Bytes := [0x66, 0x61, 0x6C, 0x73, 0x65]
  const NULL: Bytes := [0x6E, 0x75, 0x6C, 0x6C]

  predicate IsSpace(b: Byte) { b == 0x20 || b == 0x09 || b == 0x0A || b == 0x0D }
  predicate IsDigit(b: Byte) { 0x30 <= b <= 0x39 }

  predicate AllSpaces(s: Bytes) { forall i :: 0 <= i < |s| ==> IsSpace(s[i]) }
  predicate AllDigits(s: Bytes) { forall i :: 0 <= i < |s| ==> IsDigit(s[i]) }

  // --- Values ---------------------------------------------------------------

  /** `json_value`. A number is kept as the span of text it was read from. */
  datatype Value =
    | Null
    | Bool(flag: bool)
    | Number(span: Bytes)
    | Text(text: Bytes)
    | Array(items: seq<Value>)
    | Object(members: seq<Member>)

  datatype Member = Member(key: Bytes, value: Value)

  // --- Strings --------------------------------------------------------------

  /** The number four hex digits spell. */
  function HexOf(a: Byte, b: Byte, c: Byte, d: Byte): (u: Unit)
    requires IsHex(a) && IsHex(b) && IsHex(c) && IsHex(d)
  {
    HexValue(a) * 4096 + HexValue(b) * 256 + HexValue(c) * 16 + HexValue(d)
  }

  /** One element of a JSON string: a byte as it is, a two-character escape, or `\uXXXX`. */
  datatype Piece =
    | Raw(byte: Byte)
    | Short(letter: Byte)
    | Unicode(a: Byte, b: Byte, c: Byte, d: Byte)

  /** The byte a two-character escape stands for, or -1 for a letter that is no escape. */
  function Escaped(letter: Byte): (v: int)
    ensures -1 <= v < 256
  {
    if letter == QUOTE || letter == BACKSLASH || letter == SLASH then letter as int
    else if letter == 0x62 then 0x08
    else if letter == 0x66 then 0x0C
    else if letter == 0x6E then 0x0A
    else if letter == 0x72 then 0x0D
    else if letter == 0x74 then 0x09
    else -1
  }

  predicate LegalPiece(p: Piece) {
    match p
    case Raw(b) => b >= 0x20 && b != QUOTE && b != BACKSLASH
    case Short(letter) => Escaped(letter) >= 0
    case Unicode(a, b, c, d) => IsHex(a) && IsHex(b) && IsHex(c) && IsHex(d)
  }

  predicate LegalPieces(ps: seq<Piece>) { forall i :: 0 <= i < |ps| ==> LegalPiece(ps[i]) }

  function PrintPiece(p: Piece): (s: Bytes)
    ensures |s| >= 1
  {
    match p
    case Raw(b) => [b]
    case Short(letter) => [BACKSLASH, letter]
    case Unicode(a, b, c, d) => [BACKSLASH, LETTER_U, a, b, c, d]
  }

  function PrintPieces(ps: seq<Piece>): (s: Bytes) {
    if ps == [] then [] else PrintPiece(ps[0]) + PrintPieces(ps[1..])
  }

  /** The unit a `\u` escape names. */
  function UnitOf(p: Piece): (u: Unit)
    requires p.Unicode? && LegalPiece(p)
  {
    HexOf(p.a, p.b, p.c, p.d)
  }

  /** A `\u` high surrogate with a `\u` low surrogate right after it. */
  predicate PairAhead(ps: seq<Piece>)
    requires LegalPieces(ps)
  {
    && |ps| >= 2
    && ps[0].Unicode? && ps[1].Unicode?
    && IsHigh(UnitOf(ps[0])) && IsLow(UnitOf(ps[1]))
  }

  /** The WTF-8 text a string denotes: escaped halves that meet are one code point. */
  function Meaning(ps: seq<Piece>): (s: Bytes)
    requires LegalPieces(ps)
  {
    if ps == [] then []
    else if PairAhead(ps) then Encode(Combine(UnitOf(ps[0]), UnitOf(ps[1]))) + Meaning(ps[2..])
    else PieceMeaning(ps[0]) + Meaning(ps[1..])
  }

  function PieceMeaning(p: Piece): (s: Bytes)
    requires LegalPiece(p)
    ensures s != []
  {
    match p
    case Raw(b) => [b]
    case Short(letter) => [Escaped(letter)]
    case Unicode(_, _, _, _) => Encode(UnitOf(p))
  }

  // --- Numbers --------------------------------------------------------------

  datatype Exponent = NoExponent | Exponent(e: Byte, sign: Bytes, digits: Bytes)

  /** A number's parts; an empty `fraction` means there is none. */
  datatype Numeral = Numeral(minus: bool, whole: Bytes, fraction: Bytes, exponent: Exponent)

  predicate LegalExponent(x: Exponent) {
    x.Exponent? ==>
      && (x.e == 0x65 || x.e == 0x45)
      && (x.sign == [] || x.sign == [PLUS] || x.sign == [MINUS])
      && x.digits != [] && AllDigits(x.digits)
  }

  predicate LegalNumeral(n: Numeral) {
    && n.whole != [] && AllDigits(n.whole) && (n.whole[0] == ZERO ==> |n.whole| == 1)
    && AllDigits(n.fraction)
    && LegalExponent(n.exponent)
  }

  function PrintExponent(x: Exponent): (s: Bytes) {
    if x.NoExponent? then [] else [x.e] + x.sign + x.digits
  }

  function PrintFraction(f: Bytes): (s: Bytes) { if f == [] then [] else [POINT] + f }

  function PrintNumeral(n: Numeral): (s: Bytes) {
    (if n.minus then [MINUS] else []) + (n.whole + (PrintFraction(n.fraction) + PrintExponent(n.exponent)))
  }

  // --- Trees ----------------------------------------------------------------

  datatype Tree =
    | NullTree
    | TrueTree
    | FalseTree
    | NumberTree(numeral: Numeral)
    | StringTree(pieces: seq<Piece>)
    | EmptyArrayTree(space: Bytes)
    | ArrayTree(elements: Elements)
    | EmptyObjectTree(space: Bytes)
    | ObjectTree(fields: Fields)

  /** A value with the white space around it. */
  datatype Element = Element(before: Bytes, tree: Tree, after: Bytes)
  datatype Elements = LastElement(last: Element) | MoreElements(first: Element, rest: Elements)

  /** A `key : value` pair, with its white space. */
  datatype Field = Field(before: Bytes, key: seq<Piece>, after: Bytes, element: Element)
  datatype Fields = LastField(last: Field) | MoreFields(first: Field, rest: Fields)

  predicate Legal(t: Tree) {
    match t
    case NullTree => true
    case TrueTree => true
    case FalseTree => true
    case NumberTree(n) => LegalNumeral(n)
    case StringTree(ps) => LegalPieces(ps)
    case EmptyArrayTree(w) => AllSpaces(w)
    case ArrayTree(es) => LegalElements(es)
    case EmptyObjectTree(w) => AllSpaces(w)
    case ObjectTree(fs) => LegalFields(fs)
  }

  predicate LegalElement(e: Element) { AllSpaces(e.before) && Legal(e.tree) && AllSpaces(e.after) }

  predicate LegalElements(es: Elements) {
    match es
    case LastElement(e) => LegalElement(e)
    case MoreElements(e, rest) => LegalElement(e) && LegalElements(rest)
  }

  predicate LegalField(f: Field) {
    AllSpaces(f.before) && LegalPieces(f.key) && AllSpaces(f.after) && LegalElement(f.element)
  }

  predicate LegalFields(fs: Fields) {
    match fs
    case LastField(f) => LegalField(f)
    case MoreFields(f, rest) => LegalField(f) && LegalFields(rest)
  }

  function PrintString(ps: seq<Piece>): (s: Bytes) { [QUOTE] + (PrintPieces(ps) + [QUOTE]) }

  function Print(t: Tree): (s: Bytes) {
    match t
    case NullTree => NULL
    case TrueTree => TRUE
    case FalseTree => FALSE
    case NumberTree(n) => PrintNumeral(n)
    case StringTree(ps) => PrintString(ps)
    case EmptyArrayTree(w) => [OPEN_ARRAY] + w + [CLOSE_ARRAY]
    case ArrayTree(es) => [OPEN_ARRAY] + PrintElements(es) + [CLOSE_ARRAY]
    case EmptyObjectTree(w) => [OPEN_OBJECT] + w + [CLOSE_OBJECT]
    case ObjectTree(fs) => [OPEN_OBJECT] + PrintFields(fs) + [CLOSE_OBJECT]
  }

  function PrintElement(e: Element): (s: Bytes) { e.before + (Print(e.tree) + e.after) }

  function PrintElements(es: Elements): (s: Bytes) {
    match es
    case LastElement(e) => PrintElement(e)
    case MoreElements(e, rest) => PrintElement(e) + ([COMMA] + PrintElements(rest))
  }

  function PrintField(f: Field): (s: Bytes) {
    f.before + (PrintString(f.key) + (f.after + ([COLON] + PrintElement(f.element))))
  }

  function PrintFields(fs: Fields): (s: Bytes) {
    match fs
    case LastField(f) => PrintField(f)
    case MoreFields(f, rest) => PrintField(f) + ([COMMA] + PrintFields(rest))
  }

  function Max(a: nat, b: nat): nat { if a < b then b else a }

  /** How many arrays and objects are open at once, at most. */
  function Nesting(t: Tree): nat {
    match t
    case EmptyArrayTree(_) => 1
    case ArrayTree(es) => 1 + NestingOfElements(es)
    case EmptyObjectTree(_) => 1
    case ObjectTree(fs) => 1 + NestingOfFields(fs)
    case _ => 0
  }

  function NestingOfElements(es: Elements): nat {
    match es
    case LastElement(e) => Nesting(e.tree)
    case MoreElements(e, rest) => Max(Nesting(e.tree), NestingOfElements(rest))
  }

  function NestingOfFields(fs: Fields): nat {
    match fs
    case LastField(f) => Nesting(f.element.tree)
    case MoreFields(f, rest) => Max(Nesting(f.element.tree), NestingOfFields(rest))
  }

  /** The value a tree denotes. */
  function ValueOf(t: Tree): (v: Value)
    requires Legal(t)
  {
    match t
    case NullTree => Null
    case TrueTree => Bool(true)
    case FalseTree => Bool(false)
    case NumberTree(n) => Number(PrintNumeral(n))
    case StringTree(ps) => Text(Meaning(ps))
    case EmptyArrayTree(_) => Array([])
    case ArrayTree(es) => Array(ValuesOf(es))
    case EmptyObjectTree(_) => Object([])
    case ObjectTree(fs) => Object(PutAll([], MembersOf(fs)))
  }

  function ValuesOf(es: Elements): (vs: seq<Value>)
    requires LegalElements(es)
  {
    match es
    case LastElement(e) => [ElementValue(e)]
    case MoreElements(e, rest) => [ElementValue(e)] + ValuesOf(rest)
  }

  function ElementValue(e: Element): (v: Value)
    requires LegalElement(e)
  {
    ValueOf(e.tree)
  }

  /** The pairs in the order they are written, repeated keys included. */
  function MembersOf(fs: Fields): (ms: seq<Member>)
    requires LegalFields(fs)
  {
    match fs
    case LastField(f) => [MemberOf(f)]
    case MoreFields(f, rest) => [MemberOf(f)] + MembersOf(rest)
  }

  function MemberOf(f: Field): (m: Member)
    requires LegalField(f)
  {
    assert LegalElement(f.element);
    Member(Meaning(f.key), ElementValue(f.element))
  }

  // --- Repeated keys --------------------------------------------------------

  /** Where a key stands, or the length of the list. */
  function Find(ms: seq<Member>, key: Bytes): (i: nat)
    ensures i <= |ms|
    ensures i < |ms| ==> ms[i].key == key
    ensures forall j :: 0 <= j < i ==> ms[j].key != key
  {
    if ms == [] || ms[0].key == key then 0 else 1 + Find(ms[1..], key)
  }

  /** A repeated key keeps its place and takes the new value. */
  function Put(ms: seq<Member>, m: Member): (r: seq<Member>) {
    var i := Find(ms, m.key);
    if i < |ms| then ms[i := m] else ms + [m]
  }

  function PutAll(ms: seq<Member>, more: seq<Member>): (r: seq<Member>)
    decreases |more|
  {
    if more == [] then ms else PutAll(Put(ms, more[0]), more[1..])
  }

  /** A whole document: one value with white space on either side. */
  ghost predicate Derives(text: Bytes, before: Bytes, t: Tree, after: Bytes) {
    AllSpaces(before) && Legal(t) && AllSpaces(after) && text == before + (Print(t) + after)
  }

  // --- What an object holds ---------------------------------------------------

  ghost predicate DistinctKeys(ms: seq<Member>) {
    forall i, j :: 0 <= i < j < |ms| ==> ms[i].key != ms[j].key
  }

  /** `obj` holds the last value of every key of `ms`, in order of first occurrence. */
  ghost predicate Collects(obj: seq<Member>, ms: seq<Member>) {
    && DistinctKeys(obj)
    && (forall key :: Find(obj, key) < |obj| <==> Find(ms, key) < |ms|)
    && (forall i :: 0 <= i < |obj| ==> LastIs(ms, obj[i]))
    && (forall i, j :: 0 <= i < j < |obj| ==> Find(ms, obj[i].key) < Find(ms, obj[j].key))
  }

  /** `m` is the last pair of `ms` with its key. */
  ghost predicate LastIs(ms: seq<Member>, m: Member) {
    exists i :: 0 <= i < |ms| && ms[i] == m && forall j :: i < j < |ms| ==> ms[j].key != m.key
  }

  lemma FindFirst(ms: seq<Member>, key: Bytes, i: nat)
    requires i <= |ms|
    requires forall j :: 0 <= j < i ==> ms[j].key != key
    requires i < |ms| ==> ms[i].key == key
    ensures Find(ms, key) == i
  {
  }

  lemma FindInConcat(ms: seq<Member>, m: Member, key: Bytes)
    ensures Find(ms + [m], key) ==
            if Find(ms, key) < |ms| then Find(ms, key) else if m.key == key then |ms| else |ms| + 1
  {
    var i := Find(ms, key);
    if i < |ms| {
      FindFirst(ms + [m], key, i);
    } else if m.key == key {
      FindFirst(ms + [m], key, |ms|);
    } else {
      FindFirst(ms + [m], key, |ms| + 1);
    }
  }

  lemma LastAfterAppend(ms: seq<Member>, m: Member, kept: Member)
    requires LastIs(ms, kept) && m.key != kept.key
    ensures LastIs(ms + [m], kept)
  {
    var i :| 0 <= i < |ms| && ms[i] == kept && forall j :: i < j < |ms| ==> ms[j].key != kept.key;
    assert (ms + [m])[i] == kept;
  }

  lemma FindAfterPut(obj: seq<Member>, m: Member, key: Bytes)
    requires DistinctKeys(obj)
    ensures DistinctKeys(Put(obj, m))
    ensures Find(Put(obj, m), key) < |Put(obj, m)| <==> Find(obj, key) < |obj| || key == m.key
  {
    var at, i, r := Find(obj, m.key), Find(obj, key), Put(obj, m);
    if at < |obj| {
      FindFirst(r, key, if key == m.key then at else i);
    } else {
      FindInConcat(obj, m, key);
    }
  }

  lemma PutKeepsKeySet(obj: seq<Member>, ms: seq<Member>, m: Member, key: Bytes)
    requires Collects(obj, ms)
    ensures Find(Put(obj, m), key) < |Put(obj, m)| <==> Find(ms + [m], key) < |ms + [m]|
  {
    FindAfterPut(obj, m, key);
    FindInConcat(ms, m, key);
  }

  lemma PutKeepsLast(obj: seq<Member>, ms: seq<Member>, m: Member, i: nat)
    requires Collects(obj, ms) && i < |Put(obj, m)|
    ensures LastIs(ms + [m], Put(obj, m)[i])
  {
    var at, r := Find(obj, m.key), Put(obj, m);
    if i == at {
      assert r[i] == m && (ms + [m])[|ms|] == m;
    } else {
      assert r[i] == obj[i];
      LastAfterAppend(ms, m, obj[i]);
    }
  }

  lemma PutKeepsOrder(obj: seq<Member>, ms: seq<Member>, m: Member, i: nat, j: nat)
    requires Collects(obj, ms) && i < j < |Put(obj, m)|
    ensures Find(ms + [m], Put(obj, m)[i].key) < Find(ms + [m], Put(obj, m)[j].key)
  {
    var r := Put(obj, m);
    FindInConcat(ms, m, r[i].key);
    FindInConcat(ms, m, r[j].key);
    FindFirst(obj, r[i].key, i);
    if j < |obj| {
      FindFirst(obj, r[j].key, j);
    }
  }

  lemma CollectsOneMore(obj: seq<Member>, ms: seq<Member>, m: Member)
    requires Collects(obj, ms)
    ensures Collects(Put(obj, m), ms + [m])
  {
    var r, all := Put(obj, m), ms + [m];
    FindAfterPut(obj, m, m.key);
    forall key ensures Find(r, key) < |r| <==> Find(all, key) < |all| {
      PutKeepsKeySet(obj, ms, m, key);
    }
    forall i | 0 <= i < |r| ensures LastIs(all, r[i]) {
      PutKeepsLast(obj, ms, m, i);
    }
    forall i, j | 0 <= i < j < |r| ensures Find(all, r[i].key) < Find(all, r[j].key) {
      PutKeepsOrder(obj, ms, m, i, j);
    }
  }

  /** Adding pairs one by one collects them all: first position, last value. */
  lemma {:induction false} PutAllCollects(obj: seq<Member>, done: seq<Member>, more: seq<Member>)
    requires Collects(obj, done)
    ensures Collects(PutAll(obj, more), done + more)
    decreases |more|
  {
    hide Collects;
    if more == [] {
      assert done + more == done;
    } else {
      CollectsOneMore(obj, done, more[0]);
      PutAllCollects(Put(obj, more[0]), done + [more[0]], more[1..]);
      assert done + [more[0]] + more[1..] == done + more;
    }
  }

  lemma CollectsNothing()
    ensures Collects([], [])
  {
  }

  /** An object's value: every key once, at its first position, with its last value. */
  lemma ObjectCollects(fs: Fields)
    requires LegalFields(fs)
    ensures ValueOf(ObjectTree(fs)).Object?
    ensures Collects(ValueOf(ObjectTree(fs)).members, MembersOf(fs))
  {
    hide Collects;
    CollectsNothing();
    PutAllCollects([], [], MembersOf(fs));
    assert [] + MembersOf(fs) == MembersOf(fs);
  }
}
