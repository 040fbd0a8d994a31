/** What the field scanner (firmware/src/protocol/parser.c) finds in any text, well formed or not:
    where a key stands, and what reads as a number, a boolean or a string. */
module JsonMeaning {
  import opened Numbers
  import opened Results
  import opened Decimals
  import opened JsonFields
  import opened JsonObjects

  // ---------------------------------------------------------------------------------------
  // Keys
  // ---------------------------------------------------------------------------------------

  /** The quoted key, spaces and tabs, a colon, spaces and tabs again, and then `value`. */
  ghost predicate KeyThen(text: string, key: string, value: string) {
    exists before, after :: KeySpelled(text, key, before, after, value)
  }

  ghost predicate KeySpelled(text: string, key: string, before: string, after: string, value: string) {
    && text == "\"" + key + "\"" + before + ":" + after + value
    && Blank(before) && Blank(after)
    && (value != [] ==> value[0] != ' ' && value[0] != '\t')
  }

  lemma {:induction false} BlanksSkipped(p: string) returns (blanks: string)
    ensures p == blanks + SkipBlanks(p) && Blank(blanks)
  {
    blanks := SkippedAre(p);
  }

  lemma SkipStops(p: string)
    ensures SkipBlanks(p) != [] ==> SkipBlanks(p)[0] != ' ' && SkipBlanks(p)[0] != '\t'
  {
    assert SkipBlanks(p) != [] ==> !IsBlank(SkipBlanks(p)[0]);
    hide SkipBlanks;
  }

  lemma {:induction false} KeyAtExactly(text: string, key: string)
    ensures KeyAt(text, key) ==> KeyThen(text, key, SkipBlanks(SkipBlanks(text[|key| + 2..])[1..]))
  {
    hide SkipBlanks;
    if KeyAt(text, key) {
      var p := text[|key| + 2..];
      var before := BlanksSkipped(p);
      var colon := SkipBlanks(p);
      var after := BlanksSkipped(colon[1..]);
      var value := SkipBlanks(colon[1..]);
      SkipStops(colon[1..]);
      assert text == "\"" + key + "\"" + p;
      assert colon == ":" + colon[1..];
      assert text == "\"" + key + "\"" + before + ":" + after + value;
      assert KeySpelled(text, key, before, after, value);
    }
  }

  lemma {:induction false} KeyThenExactly(text: string, key: string, value: string)
    requires KeyThen(text, key, value)
    ensures KeyAt(text, key) && SkipBlanks(SkipBlanks(text[|key| + 2..])[1..]) == value
  {
    hide SkipBlanks;
    var before, after :| KeySpelled(text, key, before, after, value);
    var colon := ":" + after + value;
    assert text[|key| + 2..] == before + colon;
    SkipBlanksOver(before, colon);
    assert colon[1..] == after + value;
    SkipBlanksOver(after, value);
  }

  /** The key stands at position `i` in front of this value, and nowhere before. */
  ghost predicate FirstAt(text: string, key: string, i: nat, value: string) {
    && i <= |text| && KeyThen(text[i..], key, value)
    && forall j: nat, v :: j < i ==> !KeyThen(text[j..], key, v)
  }

  /** What is found is the text behind the first place where the key stands. */
  lemma {:induction false} FindExactly(text: string, key: string)
    ensures Find(text, key).None? ==> forall j: nat, v :: j <= |text| ==> !KeyThen(text[j..], key, v)
    ensures Find(text, key).Some? ==> exists i: nat :: FirstAt(text, key, i, Find(text, key).value)
  {
    hide KeyAt, KeyThen, SkipBlanks;
    forall v | KeyThen(text, key, v) ensures KeyAt(text, key) {
      KeyThenExactly(text, key, v);
    }
    assert text[0..] == text;
    if text == [] {
      EmptyHasNoKey(text, key);
    } else if KeyAt(text, key) {
      KeyAtExactly(text, key);
      assert FirstAt(text, key, 0, Find(text, key).value);
    } else {
      FindExactly(text[1..], key);
      FindLater(text, key);
    }
  }

  lemma EmptyHasNoKey(text: string, key: string)
    requires text == []
    ensures !KeyAt(text, key)
  {
  }

  lemma {:induction false} FindLater(text: string, key: string)
    requires text != [] && !KeyAt(text, key) && forall v :: !KeyThen(text, key, v)
    requires Find(text[1..], key).None? ==> forall j: nat, v :: j <= |text[1..]| ==> !KeyThen(text[1..][j..], key, v)
    requires Find(text[1..], key).Some? ==> exists i: nat :: FirstAt(text[1..], key, i, Find(text[1..], key).value)
    ensures Find(text, key).None? ==> forall j: nat, v :: j <= |text| ==> !KeyThen(text[j..], key, v)
    ensures Find(text, key).Some? ==> exists i: nat :: FirstAt(text, key, i, Find(text, key).value)
  {
    hide KeyAt, KeyThen, SkipBlanks;
    var rest := text[1..];
    assert Find(text, key) == Find(rest, key);
    assert text[0..] == text;
    forall j: nat | 1 <= j <= |text| ensures text[j..] == rest[j - 1..] {
    }
    if Find(rest, key).Some? {
      var i: nat :| FirstAt(rest, key, i, Find(rest, key).value);
      assert rest[i..] == text[i + 1..];
      forall j: nat, v | j < i + 1 ensures !KeyThen(text[j..], key, v) {
        if j > 0 {
          assert !KeyThen(rest[j - 1..], key, v);
        }
      }
      assert FirstAt(text, key, i + 1, Find(text, key).value);
    }
  }

  // ---------------------------------------------------------------------------------------
  // Values
  // ---------------------------------------------------------------------------------------

  /** An optional minus sign, all the digits that follow, and a rest that begins with no digit. */
  ghost predicate Spells(v: string, negative: bool, digits: string, rest: string) {
    && v == (if negative then "-" else "") + digits + rest
    && AllDigits(digits)
    && (rest != [] ==> !('0' <= rest[0] <= '9'))
  }

  /** The number saturated to 32 bits. */
  function Limited(n: int): int {
    if n > 2147483647 then 2147483647 else if n < -2147483648 then -2147483648 else n
  }

  lemma {:induction false} IntSpelled(v: string) returns (negative: bool, digits: string, rest: string)
    ensures Spells(v, negative, digits, rest) && (negative <==> v != [] && v[0] == '-')
  {
    negative := v != [] && v[0] == '-';
    var body := if negative then v[1..] else v;
    var n := DigitRun(body);
    digits, rest := body[..n], body[n..];
    assert v == (if negative then "-" else "") + body;
    assert body == digits + rest;
  }

  /** A value is a number exactly when it begins with digits, or a minus sign and digits: all of
      them count, and what follows them does not. */
  lemma {:induction false} IntExactly(v: string, negative: bool, digits: string, rest: string)
    requires Spells(v, negative, digits, rest) && (negative <==> v != [] && v[0] == '-')
    ensures ParseLong(v)
         == if digits == [] then None
            else Some(Limited(if negative then -(DecimalValue(digits) as int) else DecimalValue(digits)))
  {
    hide DecimalValue, DigitRun;
    var body := if negative then v[1..] else v;
    assert body == digits + rest;
    DigitRunIs(digits, rest);
    assert body[..|digits|] == digits;
  }

  /** An integer field is what its value spells. */
  lemma {:induction false} GetIntExactly(text: string, key: string)
    ensures GetInt(text, key) == if Find(text, key).None? then None else ParseLong(Find(text, key).value)
  {
    hide Find, DecimalValue;
    if Find(text, key).Some? {
      var v := Find(text, key).value;
      var negative, digits, rest := IntSpelled(v);
      IntExactly(v, negative, digits, rest);
    }
  }

  /** A boolean field is what its value begins with. */
  lemma {:induction false} GetBoolExactly(text: string, key: string)
    ensures GetBool(text, key) == Some(true) <==> exists rest :: Find(text, key) == Some("true" + rest)
    ensures GetBool(text, key) == Some(false) <==> exists rest :: Find(text, key) == Some("false" + rest)
  {
    hide Find;
    var v := Find(text, key);
    if v.Some? {
      if GetBool(text, key) == Some(true) {
        assert v.value == v.value[..4] + v.value[4..];
        assert v == Some("true" + v.value[4..]);
      }
      if GetBool(text, key) == Some(false) {
        assert v.value == v.value[..5] + v.value[5..];
        assert v == Some("false" + v.value[5..]);
      }
      if rest :| v == Some("false" + rest) {
        assert v.value[0] == 'f' && v.value[..5] == "false";
        assert |v.value| >= 4 ==> v.value[..4][0] == 'f';
        assert "true"[0] == 't';
      }
      if rest :| v == Some("true" + rest) {
        assert v.value[..4] == "true";
      }
    }
  }

  /** A string field succeeds exactly when its value is quoted and leaves room for the NUL; then
      it is copied with its NUL, and otherwise what fits of an opened string is left behind. */
  lemma {:induction false} GetStringExactly(text: string, key: string, size: nat)
    requires size >= 1
    ensures var c := GetString(text, key, size);
      && (forall s, rest :: Find(text, key) == Some(Quoted(s, rest)) && QuoteFree(s) ==>
            c == if |s| < size then Copied(true, s + ['\0']) else Copied(false, s[..size - 1]))
      && (c.ok ==> exists s, rest :: Find(text, key) == Some(Quoted(s, rest)) && QuoteFree(s))
      && (Find(text, key).None? ==> c == Copied(false, []))
  {
    hide Find, CopyLength, Quoted;
    var v, c := Find(text, key), GetString(text, key, size);
    forall s, rest | v == Some(Quoted(s, rest)) && QuoteFree(s)
      ensures c == if |s| < size then Copied(true, s + ['\0']) else Copied(false, s[..size - 1])
    {
      CopyText(s, rest, size);
    }
    if c.ok {
      var body := v.value[1..];
      var n := CopyLength(body, size);
      QuotedIs(v.value, body[..n], body[n + 1..]);
    }
  }

  lemma QuotedIs(v: string, s: string, rest: string)
    requires v == "\"" + s + "\"" + rest
    ensures v == Quoted(s, rest)
  {
  }
}
