/**
  The two name conversions behind HTMLElement.dataset (ctbrowser/lib/DOM/dataset.cpp) and
  the lookup over them. The source calls them no inverses of each other; on what each
  accepts they are, exactly.
 */
module Dataset {
  import opened Options
  import opened Utf8
  import opened DomStore
  import Lists

  const DASH: Byte := 0x2D
  const PREFIX: Bytes := [0x64, 0x61, 0x74, 0x61, 0x2D]

  predicate IsLower(b: Byte) { 0x61 <= b <= 0x7A }
  predicate IsUpper(b: Byte) { 0x41 <= b <= 0x5A }

  /** A dash and a lowercase letter: what stands for an uppercase one. */
  predicate StartsDashed(s: Bytes) { |s| > 1 && s[0] == DASH && IsLower(s[1]) }

  function Prepend(b: Bytes, r: Option<Bytes>): (p: Option<Bytes>) {
    match r case None => None case Some(rest) => Some(b + rest)
  }

  /** The key of what follows the prefix, or none for a name with an uppercase letter. */
  function KeyOf(rest: Bytes): (key: Option<Bytes>) {
    if rest == [] then Some([])
    else if IsUpper(rest[0]) then None
    else if StartsDashed(rest) then Prepend([rest[1] - 0x20], KeyOf(rest[2..]))
    else Prepend([rest[0]], KeyOf(rest[1..]))
  }

  /** What follows the prefix in the name for a key, or none for a dash before a lowercase letter. */
  function DashedOf(key: Bytes): (rest: Option<Bytes>) {
    if key == [] then Some([])
    else if StartsDashed(key) then None
    else if IsUpper(key[0]) then Prepend([DASH, key[0] + 0x20], DashedOf(key[1..]))
    else Prepend([key[0]], DashedOf(key[1..]))
  }

  predicate IsDatasetName(name: Bytes) { |name| >= 5 && name[..5] == PREFIX }

  lemma PrependStep(out: Bytes, b: Bytes, r: Option<Bytes>)
    ensures Prepend(out, Prepend(b, r)) == Prepend(out + b, r)
  {
    if r.Some? {
      Lists.Regroup(out, b, r.value);
    }
  }

  lemma PrependNothing(r: Option<Bytes>)
    ensures Prepend([], r) == r
  {
    assert r.Some? ==> [] + r.value == r.value;
  }

  /** `dataset_name_of`. */
  method DatasetNameOf(name: Bytes) returns (key: Option<Bytes>)
    ensures key == if [0x64, 0x61, 0x74, 0x61, 0x2D] <= name then KeyOf(name[5..]) else None
  {
    if |name| < 5 || name[..5] != PREFIX {
      return None;
    }
    var rest := name[5..];
    var out: Bytes := [];
    var i := 0;
    PrependNothing(KeyOf(rest));
    assert rest[0..] == rest;
    while i < |rest|
      invariant i <= |rest| && Prepend(out, KeyOf(rest[i..])) == KeyOf(rest)
    {
      hide Prepend;
      if IsUpper(rest[i]) {
        assert KeyOf(rest[i..]) == None;
        NothingPrepended(out);
        return None;
      }
      if rest[i] == DASH && i + 1 < |rest| && IsLower(rest[i + 1]) {
        assert rest[i..][2..] == rest[i + 2..];
        PrependStep(out, [rest[i + 1] - 0x20], KeyOf(rest[i + 2..]));
        out := out + [rest[i + 1] - 0x20];
        i := i + 2;
        continue;
      }
      assert rest[i..][1..] == rest[i + 1..];
      PrependStep(out, [rest[i]], KeyOf(rest[i + 1..]));
      out := out + [rest[i]];
      i := i + 1;
    }
    assert rest[i..] == [] && out + [] == out;
    return Some(out);
  }

  lemma NothingPrepended(out: Bytes)
    ensures Prepend(out, None) == None
  {
  }

  /** `is_valid_attribute_name`: not empty, none of the bytes that end a name, no NUL. */
  predicate IsValidName(name: Bytes) {
    name != [] && forall i :: 0 <= i < |name| ==> name[i] !in {0x09, 0x0A, 0x0C, 0x0D, 0x20, 0x2F, 0x3D, 0x3E, 0x00}
  }

  datatype Fault = NoFault | SyntaxFault | CharacterFault

  /** `dataset_attribute_of`. */
  method DatasetAttributeOf(key: Bytes) returns (fault: Fault, out: Bytes)
    ensures fault == SyntaxFault <==> DashedOf(key) == None
    ensures fault != SyntaxFault ==> DashedOf(key).Some? && out == PREFIX + DashedOf(key).value
    ensures fault != SyntaxFault ==>
              (fault == CharacterFault <==>
                 exists i :: 0 <= i < |out| && out[i] in {0x00, 0x09, 0x0A, 0x0C, 0x0D, 0x20, 0x2F, 0x3D, 0x3E})
  {
    out := PREFIX;
    var i := 0;
    ghost var all := Prepend(PREFIX, DashedOf(key));
    assert key[0..] == key;
    while i < |key|
      invariant i <= |key| && Prepend(out, DashedOf(key[i..])) == all
    {
      if key[i] == DASH && i + 1 < |key| && IsLower(key[i + 1]) {
        assert DashedOf(key[i..]) == None;
        return SyntaxFault, out;
      }
      assert key[i..][1..] == key[i + 1..];
      if IsUpper(key[i]) {
        PrependStep(out, [DASH, key[i] + 0x20], DashedOf(key[i + 1..]));
        assert out + [DASH] + [key[i] + 0x20] == out + [DASH, key[i] + 0x20];
        out := out + [DASH];
        out := out + [key[i] + 0x20];
        i := i + 1;
        continue;
      }
      PrependStep(out, [key[i]], DashedOf(key[i + 1..]));
      out := out + [key[i]];
      i := i + 1;
    }
    assert key[i..] == [] && out + [] == out;
    return (if IsValidName(out) then NoFault else CharacterFault), out;
  }

  // --- Exactly inverse --------------------------------------------------------------------------

  lemma {:induction false} KeyGoesBack(rest: Bytes)
    requires KeyOf(rest).Some?
    ensures DashedOf(KeyOf(rest).value) == Some(rest)
    decreases |rest|
  {
    if rest == [] {
    } else if StartsDashed(rest) {
      KeyGoesBack(rest[2..]);
      var key := KeyOf(rest).value;
      assert key[1..] == KeyOf(rest[2..]).value;
      assert rest == [DASH, rest[1]] + rest[2..];
    } else {
      KeyGoesBack(rest[1..]);
      var key := KeyOf(rest).value;
      assert key[1..] == KeyOf(rest[1..]).value;
      assert rest == [rest[0]] + rest[1..];
    }
  }

  lemma {:induction false} DashedGoesBack(key: Bytes)
    requires DashedOf(key).Some?
    ensures KeyOf(DashedOf(key).value) == Some(key)
    decreases |key|
  {
    if key != [] {
      DashedGoesBack(key[1..]);
      var rest := DashedOf(key).value;
      assert key == [key[0]] + key[1..];
      if IsUpper(key[0]) {
        assert rest[2..] == DashedOf(key[1..]).value;
      } else {
        assert rest[1..] == DashedOf(key[1..]).value;
      }
    }
  }

  /** A name answers to a key exactly when the key names it back. */
  lemma NamesAndKeysAreInverse(rest: Bytes, key: Bytes)
    ensures KeyOf(rest) == Some(key) <==> DashedOf(key) == Some(rest)
  {
    if KeyOf(rest) == Some(key) {
      KeyGoesBack(rest);
    }
    if DashedOf(key) == Some(rest) {
      DashedGoesBack(key);
    }
  }

  // --- Letter by letter ---------------------------------------------------------------------------

  /** In a name a dash and a lowercase letter are the uppercase one, and an uppercase letter is refused. */
  lemma NameLetters(k: nat, rest: Bytes)
    requires k < 26
    ensures KeyOf([0x2D, LowerCase()[k] as int as Byte] + rest) == Prepend([UpperCase()[k] as int as Byte], KeyOf(rest))
    ensures KeyOf([UpperCase()[k] as int as Byte] + rest) == None
  {
    hide UpperCase, LowerCase;
    CasesAre(k);
    var dashed: Bytes := [0x2D, 0x61 + k] + rest;
    assert dashed[2..] == rest;
  }

  /** In a key an uppercase letter is a dash and the lowercase one, and a dash before a lowercase letter is refused. */
  lemma KeyLetters(k: nat, rest: Bytes)
    requires k < 26
    ensures DashedOf([UpperCase()[k] as int as Byte] + rest) ==
            Prepend([0x2D, LowerCase()[k] as int as Byte], DashedOf(rest))
    ensures DashedOf([0x2D, LowerCase()[k] as int as Byte] + rest) == None
  {
    hide UpperCase, LowerCase;
    CasesAre(k);
    var s: Bytes := [0x41 + k] + rest;
    assert s[1..] == rest;
  }

  /** Every other byte is itself in both; a dash, wherever no lowercase letter follows it. */
  lemma OtherBytes(b: Byte, rest: Bytes)
    requires forall k :: 0 <= k < 26 ==> b as int != UpperCase()[k] as int
    requires b == 0x2D && rest != [] ==> forall k :: 0 <= k < 26 ==> rest[0] as int != LowerCase()[k] as int
    ensures KeyOf([b] + rest) == Prepend([b], KeyOf(rest)) && DashedOf([b] + rest) == Prepend([b], DashedOf(rest))
  {
    hide UpperCase, LowerCase;
    var s := [b] + rest;
    assert s[1..] == rest;
    if IsUpper(b) {
      CasesAre(b as int - 0x41);
    }
    if b == 0x2D && rest != [] && IsLower(rest[0]) {
      CasesAre(rest[0] as int - 0x61);
    }
  }

  // --- The lookup ------------------------------------------------------------------------------------

  /** The value of the first attribute of one name. */
  function ValueNamed(attributes: seq<Attribute>, name: Bytes): (r: Option<Bytes>) {
    if attributes == [] then None
    else if attributes[0].name == name then Some(attributes[0].value)
    else ValueNamed(attributes[1..], name)
  }

  /** It is the value of the first attribute that has the name. */
  lemma {:induction false} ValueIsOfFirst(attributes: seq<Attribute>, name: Bytes)
    ensures ValueNamed(attributes, name) == None <==>
            forall k :: 0 <= k < |attributes| ==> attributes[k].name != name
    ensures forall k :: 0 <= k < |attributes| && attributes[k].name == name
                        && (forall j :: 0 <= j < k ==> attributes[j].name != name) ==>
              ValueNamed(attributes, name) == Some(attributes[k].value)
  {
    if attributes != [] {
      var rest := attributes[1..];
      ValueIsOfFirst(rest, name);
      assert forall k :: 0 < k < |attributes| ==> attributes[k] == rest[k - 1];
    }
  }

  /**
    `dataset_value`, over the attributes in no namespace: it compares converted names, and
    finds the attribute the key is converted to, when there is such a name.
   */
  method DatasetValue(attributes: seq<Attribute>, key: Bytes) returns (value: Option<Bytes>)
    ensures value == match DashedOf(key)
                     case None => None
                     case Some(rest) => ValueNamed(attributes, PREFIX + rest)
  {
    hide KeyOf, DashedOf;
    var i := 0;
    while i < |attributes|
      invariant i <= |attributes|
      invariant DashedOf(key).Some? ==>
        ValueNamed(attributes[i..], PREFIX + DashedOf(key).value)
          == ValueNamed(attributes, PREFIX + DashedOf(key).value)
    {
      var name := attributes[i].name;
      var held := DatasetNameOf(name);
      assert attributes[i..][1..] == attributes[i + 1..];
      NameMatches(name, key);
      if held == Some(key) {
        return Some(attributes[i].value);
      }
      i := i + 1;
    }
    return None;
  }

  lemma NameMatches(name: Bytes, key: Bytes)
    ensures (IsDatasetName(name) && KeyOf(name[5..]) == Some(key)) <==>
            (DashedOf(key).Some? && name == PREFIX + DashedOf(key).value)
  {
    if IsDatasetName(name) {
      NamesAndKeysAreInverse(name[5..], key);
      assert name == PREFIX + name[5..];
    }
    if DashedOf(key).Some? {
      assert (PREFIX + DashedOf(key).value)[5..] == DashedOf(key).value;
      NamesAndKeysAreInverse(DashedOf(key).value, key);
    }
  }
}
