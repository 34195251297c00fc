/**
  `json_reader` of ctbrowser/lib/Core/json.cpp: a cursor over the text, moved by one
  method per production. Every method is proved to do what the function of module
  JsonReading says, so `ParseJson` accepts exactly the grammar (module JsonExact).
 */
module JsonReader {
  import opened Utf8
  import opened Utf16
  import opened JsonGrammar
  import opened JsonReading
  import JsonExact

  class JsonReader {
    const text: Bytes
    var at: nat
    var ok: bool
    var depth: nat

    ghost predicate Valid()
      reads this
    {
      at <= |text|
    }

    /** What is still to be read. */
    ghost function Rest(): (s: Bytes)
      reads this
      requires Valid()
    {
      text[at..]
    }

    constructor (text: Bytes)
      ensures Valid() && at == 0 && ok && depth == 0 && this.text == text
    {
      this.text := text;
      at, ok, depth := 0, true, 0;
    }

    /** `skip`. */
    method SkipSpaces()
      requires Valid()
      modifies this`at
      ensures Valid() && Rest() == Skip(old(Rest()))
    {
      while at < |text| && IsSpace(text[at])
        invariant Valid()
        invariant Skip(Rest()) == Skip(old(Rest()))
      {
        assert Rest()[1..] == text[at + 1..];
        at := at + 1;
      }
    }

    method SkipDigitRun()
      requires Valid()
      modifies this`at
      ensures Valid() && Rest() == SkipDigits(old(Rest()))
    {
      while at < |text| && IsDigit(text[at])
        invariant Valid()
        invariant SkipDigits(Rest()) == SkipDigits(old(Rest()))
      {
        assert Rest()[1..] == text[at + 1..];
        at := at + 1;
      }
    }

    /** `eat`: the byte `c`, or a failure that moves nothing. */
    method Eat(c: Byte) returns (eaten: bool)
      requires Valid()
      modifies this`at, this`ok
      ensures Valid()
      ensures eaten == Starts(old(Rest()), c)
      ensures eaten ==> Rest() == old(Rest())[1..] && ok == old(ok)
      ensures !eaten ==> at == old(at) && !ok
    {
      if at < |text| && text[at] == c {
        at := at + 1;
        assert old(Rest())[1..] == Rest();
        return true;
      }
      ok := false;
      return false;
    }

    /** `read_hex4`: four hex digits, or nothing consumed. */
    method ReadHex4() returns (read: bool, unit: Unit)
      requires Valid()
      modifies this`at
      ensures Valid()
      ensures read == HexAhead(old(Rest()))
      ensures read ==> unit == HexOfFront(old(Rest())) && at == old(at) + 4
      ensures !read ==> at == old(at)
    {
      ghost var s := Rest();
      if at + 4 > |text| {
        return false, 0;
      }
      var built: nat := 0;
      var i := 0;
      while i < 4
        invariant 0 <= i <= 4
        invariant forall k :: 0 <= k < i ==> IsHex(s[k])
        invariant i == 0 ==> built == 0
        invariant i == 1 ==> built == HexValue(s[0])
        invariant i == 2 ==> built == HexValue(s[0]) * 16 + HexValue(s[1])
        invariant i == 3 ==> built == HexValue(s[0]) * 256 + HexValue(s[1]) * 16 + HexValue(s[2])
        invariant i == 4 ==> HexAhead(s) && built == HexOfFront(s)
      {
        assert text[at + i] == s[i];
        var digit := HexValue(text[at + i]);
        if digit < 0 {
          return false, 0;
        }
        built := built * 16 + digit;
        i := i + 1;
      }
      at := at + 4;
      return true, built;
    }

    /** One `\u` escape, the cursor after its letter: a high half takes the low half after it. */
    method ParseUnicodeEscape(out: Bytes) returns (read: bool, longer: Bytes)
      requires Valid()
      modifies this`at
      ensures Valid() && old(at) <= at
      ensures read == HexAhead(old(Rest()))
      ensures !read ==> at == old(at)
      ensures read ==>
                var s := old(Rest());
                if IsHigh(HexOfFront(s)) && LowAhead(s[4..]) then
                  at == old(at) + 10 && longer == out + Encode(Combine(HexOfFront(s), HexOfFront(s[6..])))
                else
                  at == old(at) + 4 && longer == out + Encode(HexOfFront(s))
    {
      ghost var s := Rest();
      var good, unit := ReadHex4();
      if !good {
        return false, out;
      }
      var code: Code := unit;
      assert Rest() == s[4..];
      if IsHigh(unit) && at + 1 < |text| && text[at] == BACKSLASH && text[at + 1] == LETTER_U {
        var saved := at;
        at := at + 2;
        assert Rest() == s[6..] && s[4..][2..] == s[6..];
        var found, low := ReadHex4();
        if found && IsLow(low) {
          code := Combine(unit, low);
        } else {
          at := saved;
        }
      }
      return true, out + Encode(code);
    }

    /** The escape at the cursor, which is on its backslash. */
    method ParseEscape(out: Bytes) returns (read: bool, longer: Bytes)
      requires Valid() && ok && at < |text| && text[at] == BACKSLASH
      modifies this`at, this`ok
      ensures Valid() && read == ok && old(at) < at
      ensures read ==> ReadPieces(Rest(), longer) == ReadPieces(old(Rest()), out)
      ensures !read ==> Fail(Rest()) == ReadPieces(old(Rest()), out)
    {
      hide HexAhead, HexOf, LowAhead, Encode, Combine;
      longer := out;
      ghost var s := Rest();
      at := at + 1;
      assert s[1..] == Rest();
      if at >= |text| {
        ok := false;
        return false, out;
      }
      var escape := text[at];
      assert escape == s[1];
      at := at + 1;
      assert s[2..] == Rest();
      if escape == LETTER_U {
        read, longer := ParseUnicodeEscape(out);
        if !read {
          ok := false;
          return;
        }
        assert s[2..][4..] == s[6..];
        assert |s| >= 8 ==> s[2..][6..] == s[8..];
        assert Rest() == s[at - old(at)..];
        return;
      }
      var byte := Escaped(escape);
      if byte < 0 {
        ok := false;
        return false, out;
      }
      return true, out + [byte];
    }

    /** `parse_string`. */
    method ParseString() returns (read: bool, out: Bytes)
      requires Valid() && ok
      modifies this`at, this`ok
      ensures Valid()
      ensures var r := ReadString(old(Rest()));
              Rest() == r.rest && ok == read == r.Ok? && (read ==> out == r.value)
    {
      hide Escaped, HexAhead, HexOf, LowAhead, Encode, Combine;
      out := [];
      read := Eat(QUOTE);
      if !read {
        return;
      }
      ghost var whole := ReadPieces(Rest(), []);
      assert whole == ReadString(old(Rest()));
      while at < |text| && text[at] != QUOTE
        invariant Valid() && ok
        invariant ReadPieces(Rest(), out) == whole
        decreases |text| - at
      {
        ghost var s := Rest();
        if text[at] < 0x20 {
          ok := false;
          return false, out;
        }
        if text[at] != BACKSLASH {
          out := out + [text[at]];
          at := at + 1;
          assert s[1..] == Rest();
          continue;
        }
        var good;
        good, out := ParseEscape(out);
        if !good {
          return false, out;
        }
      }
      read := Eat(QUOTE);
    }

    /** A run of at least one digit, or a failure where it should start. */
    method ParseDigits() returns (read: bool)
      requires Valid() && ok
      modifies this`at, this`ok
      ensures Valid()
      ensures var r := ReadDigits(old(Rest())); Rest() == r.rest && ok == read == r.Ok?
    {
      if at >= |text| || !IsDigit(text[at]) {
        ok := false;
        return false;
      }
      assert Rest()[1..] == text[at + 1..];
      assert SkipDigits(Rest()) == SkipDigits(Rest()[1..]);
      SkipDigitRun();
      return true;
    }

    method ParseWhole() returns (read: bool)
      requires Valid() && ok
      modifies this`at, this`ok
      ensures Valid()
      ensures var r := ReadWhole(old(Rest())); Rest() == r.rest && ok == read == r.Ok?
    {
      hide ReadDigits;
      if at < |text| && text[at] == ZERO {
        assert text[at + 1..] == Rest()[1..];
        at := at + 1;
        return true;
      }
      read := ParseDigits();
    }

    method ParseFraction() returns (read: bool)
      requires Valid() && ok
      modifies this`at, this`ok
      ensures Valid()
      ensures var r := ReadFraction(old(Rest())); Rest() == r.rest && ok == read == r.Ok?
    {
      hide ReadDigits;
      if at < |text| && text[at] == POINT {
        assert text[at + 1..] == Rest()[1..];
        at := at + 1;
        read := ParseDigits();
      } else {
        read := true;
      }
    }

    method ParseExponent() returns (read: bool)
      requires Valid() && ok
      modifies this`at, this`ok
      ensures Valid()
      ensures var r := ReadExponent(old(Rest())); Rest() == r.rest && ok == read == r.Ok?
    {
      hide ReadDigits;
      if at < |text| && (text[at] == 0x65 || text[at] == 0x45) {
        assert text[at + 1..] == Rest()[1..];
        at := at + 1;
        if at < |text| && (text[at] == PLUS || text[at] == MINUS) {
          assert text[at + 1..] == Rest()[1..];
          at := at + 1;
        }
        read := ParseDigits();
      } else {
        read := true;
      }
    }

    /** `parse_number`; the cursor is on its first byte. */
    method ParseNumber() returns (v: Value)
      requires Valid() && ok
      modifies this`at, this`ok
      ensures Valid()
      ensures var r := ReadNumber(old(Rest()));
              Rest() == r.rest && ok == r.Ok? && (ok ==> v == r.value)
    {
      hide ReadWhole, ReadFraction, ReadExponent;
      ghost var s := Rest();
      var start := at;
      v := Null;
      if at < |text| && text[at] == MINUS {
        at := at + 1;
        assert Rest() == s[1..];
      }
      var read := ParseWhole();
      if read {
        read := ParseFraction();
      }
      if read {
        read := ParseExponent();
      }
      if read {
        assert at == |text| - |Rest()| && start == |text| - |s|;
        assert NumberEnd(s).Ok? && |Rest()| <= |s|;
        assert text[start..at] == s[..|s| - |Rest()|];
        v := Number(text[start..at]);
      }
    }

    /** `parse`: one value of any type, after leading white space. */
    method Parse() returns (v: Value)
      requires Valid() && ok
      modifies this`at, this`ok, this`depth
      ensures Valid()
      ensures var r := ReadValue(old(Rest()), old(depth));
              Rest() == r.rest && ok == r.Ok? && (ok ==> v == r.value && depth == old(depth))
      decreases |text| - at, 2
    {
      hide ReadString, ReadNumber, ReadArray, ReadObject, Skip;
      ghost var start := at;
      v := Null;
      SkipSpaces();
      assert at >= start by { SkipShortens(text[start..]); }
      if at >= |text| {
        ok := false;
        return;
      }
      ghost var t := Rest();
      var c := text[at];
      assert c == t[0];
      if c == OPEN_OBJECT || c == OPEN_ARRAY {
        if depth + 1 > MAX_DEPTH {
          depth := depth + 1;
          ok := false;
          return;
        }
        depth := depth + 1;
        if c == OPEN_OBJECT {
          v := ParseObject();
        } else {
          v := ParseArray();
        }
        if depth > 0 {
          depth := depth - 1;
        }
        return;
      }
      if c == QUOTE {
        var read, s := ParseString();
        if !read {
          return;
        }
        return Text(s);
      }
      if TRUE <= text[at..] {
        at := at + 4;
        assert t[4..] == Rest();
        return Bool(true);
      }
      if FALSE <= text[at..] {
        at := at + 5;
        assert t[5..] == Rest();
        return Bool(false);
      }
      if NULL <= text[at..] {
        at := at + 4;
        assert t[4..] == Rest();
        return Null;
      }
      v := ParseNumber();
    }

    /** `parse_array`; the cursor is on its bracket. */
    method ParseArray() returns (v: Value)
      requires Valid() && ok && at < |text|
      modifies this`at, this`ok, this`depth
      ensures Valid()
      ensures var r := ReadArray(old(text[at + 1..]), old(depth));
              Rest() == r.rest && ok == r.Ok? && (ok ==> v == r.value && depth == old(depth))
      decreases |text| - at, 1
    {
      hide ReadValue, Skip, ReadItems;
      var items: seq<Value> := [];
      v := Null;
      at := at + 1;
      ghost var s := Rest();
      SkipSpaces();
      SkipShortens(s);
      if at < |text| && text[at] == CLOSE_ARRAY {
        assert Rest()[1..] == text[at + 1..];
        at := at + 1;
        return Array(items);
      }
      ghost var whole := ReadItems(Rest(), depth, items);
      while ok
        invariant Valid() && ok && old(at) < at && depth == old(depth)
        invariant ReadItems(Rest(), depth, items) == whole
        decreases |text| - at
      {
        ItemsStep(Rest(), depth, items);
        var item := Parse();
        if !ok {
          return;
        }
        items := items + [item];
        ghost var rest := Rest();
        SkipSpaces();
        SkipShortens(rest);
        if at < |text| && text[at] == COMMA {
          assert Rest()[1..] == text[at + 1..];
          at := at + 1;
          continue;
        }
        var closed := Eat(CLOSE_ARRAY);
        break;
      }
      v := Array(items);
    }

    /** `positions` gives the place of every key read so far, and of no other. */
    ghost static predicate Agrees(positions: map<Bytes, nat>, members: seq<Member>) {
      forall key :: (key in positions <==> Find(members, key) < |members|)
                 && (key in positions ==> positions[key] == Find(members, key))
    }

    static lemma AgreesAfterPut(positions: map<Bytes, nat>, members: seq<Member>, m: Member)
      requires Agrees(positions, members)
      ensures m.key in positions ==>
                positions[m.key] < |members| && Agrees(positions, members[positions[m.key] := m])
                && Put(members, m) == members[positions[m.key] := m]
      ensures m.key !in positions ==>
                Agrees(positions[m.key := |members|], members + [m]) && Put(members, m) == members + [m]
    {
      if m.key in positions {
        var at := Find(members, m.key);
        var after := members[at := m];
        forall key ensures Find(after, key) == Find(members, key) {
          FindFirst(after, key, Find(members, key));
        }
      } else {
        forall key
          ensures Find(members + [m], key) ==
                  if Find(members, key) < |members| then Find(members, key)
                  else if m.key == key then |members| else |members| + 1
        {
          FindInConcat(members, m, key);
        }
      }
    }

    /** A new key goes to the end; a repeated one takes the new value in its place. */
    static method PutMember(positions: map<Bytes, nat>, members: seq<Member>, m: Member)
      returns (placed: map<Bytes, nat>, more: seq<Member>)
      requires Agrees(positions, members)
      ensures more == Put(members, m) && Agrees(placed, more)
    {
      hide Agrees, Put;
      AgreesAfterPut(positions, members, m);
      if m.key !in positions {
        placed := positions[m.key := |members|];
        more := members + [m];
      } else {
        placed := positions;
        more := members[positions[m.key] := m];
      }
    }

    /** One `key : value` pair of an object. */
    method ParseField() returns (m: Member)
      requires Valid() && ok
      modifies this`at, this`ok, this`depth
      ensures Valid()
      ensures var r := ReadField(old(Rest()), old(depth));
              Rest() == r.rest && ok == r.Ok? && (ok ==> m == r.value && depth == old(depth))
      decreases |text| - at, 3
    {
      hide ReadValue, ReadString, Skip;
      m := Member([], Null);
      SkipSpaces();
      SkipShortens(old(Rest()));
      var read, key := ParseString();
      if !read {
        return;
      }
      ghost var afterKey := Rest();
      SkipSpaces();
      SkipShortens(afterKey);
      var colon := Eat(COLON);
      if !colon {
        return;
      }
      var each := Parse();
      m := Member(key, each);
    }

    /** `parse_object`; the cursor is on its brace. */
    method ParseObject() returns (v: Value)
      requires Valid() && ok && at < |text|
      modifies this`at, this`ok, this`depth
      ensures Valid()
      ensures var r := ReadObject(old(text[at + 1..]), old(depth));
              Rest() == r.rest && ok == r.Ok? && (ok ==> v == r.value && depth == old(depth))
      decreases |text| - at, 1
    {
      hide ReadField, ReadFields, Skip, Put, Agrees, Find, ReadValue, IsSpace;
      var members: seq<Member> := [];
      var positions: map<Bytes, nat> := map[];
      v := Null;
      at := at + 1;
      ghost var s := Rest();
      SkipSpaces();
      SkipShortens(s);
      if at < |text| && text[at] == CLOSE_OBJECT {
        assert Rest()[1..] == text[at + 1..];
        at := at + 1;
        return Object(members);
      }
      ghost var whole := ReadFields(Rest(), depth, members);
      NothingAgrees();
      while ok
        invariant Valid() && ok && old(at) < at && depth == old(depth)
        invariant Agrees(positions, members)
        invariant ReadFields(Rest(), depth, members) == whole
        decreases |text| - at
      {
        FieldsStep(Rest(), depth, members);
        var m := ParseField();
        if !ok {
          return;
        }
        positions, members := PutMember(positions, members, m);
        ghost var rest := Rest();
        SkipSpaces();
        SkipShortens(rest);
        if at < |text| && text[at] == COMMA {
          assert Rest()[1..] == text[at + 1..];
          at := at + 1;
          continue;
        }
        var closed := Eat(CLOSE_OBJECT);
        break;
      }
      v := Object(members);
    }

    /** `parse_text`: a whole document. */
    method ParseDocument() returns (p: Parsed)
      requires Valid() && ok && depth == 0 && at == 0
      modifies this`at, this`ok, this`depth
      ensures p == ParseText(text)
    {
      hide ReadValue, Skip;
      assert Rest() == text;
      ghost var r := ReadValue(text, 0);
      var v := Parse();
      assert Rest() == r.rest;
      SkipSpaces();
      assert Rest() == Skip(r.rest) && |Skip(r.rest)| == |text| - at;
      if at != |text| {
        ok := false;
      }
      p := if ok then Parsed(v) else Stopped(at);
    }

    static lemma NothingAgrees()
      ensures Agrees(map[], [])
    {
    }
  }

  lemma SkipShortens(s: Bytes)
    ensures |Skip(s)| <= |s|
  {
  }

  /** `parse_json`: exactly the documents of the grammar, each with its value. */
  method ParseJson(text: Bytes) returns (p: Parsed)
    ensures p == ParseText(text)
    ensures p.Parsed? <==>
            exists before, t, after :: Derives(text, before, t, after) && Nesting(t) <= MAX_DEPTH
    ensures forall before, t, after :: Derives(text, before, t, after) && Nesting(t) <= MAX_DEPTH ==>
              p == Parsed(ValueOf(t))
    ensures p.Stopped? ==> p.offset <= |text|
  {
    hide ParseText, Nesting, Derives;
    var reader := new JsonReader(text);
    p := reader.ParseDocument();
    JsonExact.ParsesExactlyTheGrammar(text);
  }
}
