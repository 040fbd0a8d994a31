/** The field scanner on well-formed flat objects (section 4 of RFC 8259, restricted to
    identifier keys and to numbers, booleans and quote-free strings as values): every lookup
    lands on the key's own value. */
module JsonObjects {
  import opened Numbers
  import opened Results
  import opened Decimals
  import opened JsonFields

  datatype Value = Number(n: int) | Flag(b: bool) | Text(s: string)

  /** A key, its value, and the blanks in front of the key, around the colon and behind the value. */
  datatype Field = Field(key: string, value: Value, lead: string, before: string, after: string, trail: string)

  datatype Object = Object(indent: string, fields: seq<Field>, end: string)

  predicate Blank(s: string) {
    forall i :: 0 <= i < |s| ==> s[i] == ' ' || s[i] == '\t'
  }

  predicate QuoteFree(s: string) {
    forall i :: 0 <= i < |s| ==> s[i] != '"'
  }

  predicate IsNameChar(c: char) {
    'a' <= c <= 'z' || 'A' <= c <= 'Z' || '0' <= c <= '9' || c == '_'
  }

  predicate Identifier(key: string) {
    key != [] && forall i :: 0 <= i < |key| ==> IsNameChar(key[i])
  }

  predicate GoodField(f: Field) {
    && Identifier(f.key)
    && Blank(f.lead) && Blank(f.before) && Blank(f.after) && Blank(f.trail)
    && (f.value.Text? ==> QuoteFree(f.value.s))
  }

  predicate GoodFields(fields: seq<Field>) {
    forall i :: 0 <= i < |fields| ==> GoodField(fields[i])
  }

  predicate Good(o: Object) {
    && Blank(o.indent)
    && GoodFields(o.fields)
    && forall i :: 0 <= i < |o.end| ==> o.end[i] in {' ', '\t', '\n', '\r'}
  }

  // ---------------------------------------------------------------------------------------
  // Printing
  // ---------------------------------------------------------------------------------------

  /** A quoted string and the text behind it. */
  function Quoted(s: string, rest: string): string {
    "\"" + (s + ("\"" + rest))
  }

  function IntText(n: int): string {
    if n < 0 then "-" + Decimal(-n) else Decimal(n)
  }

  function ValueThen(v: Value, rest: string): string {
    match v
    case Number(n) => IntText(n) + rest
    case Flag(b) => (if b then "true" else "false") + rest
    case Text(s) => Quoted(s, rest)
  }

  function FieldThen(f: Field, rest: string): string {
    f.lead + Quoted(f.key, f.before + (":" + (f.after + ValueThen(f.value, f.trail + rest))))
  }

  /** The fields, separated by commas, and the closing brace. */
  function FieldsText(fields: seq<Field>, end: string): (s: string)
  {
    if fields == [] then "}" + end
    else if |fields| == 1 then FieldThen(fields[0], "}" + end)
    else FieldThen(fields[0], "," + FieldsText(fields[1..], end))
  }

  function Print(o: Object): string {
    o.indent + ("{" + FieldsText(o.fields, o.end))
  }

  /** The value of the first field with this key. */
  function Lookup(fields: seq<Field>, key: string): Option<Value> {
    if fields == [] then None
    else if fields[0].key == key then Some(fields[0].value)
    else Lookup(fields[1..], key)
  }

  // ---------------------------------------------------------------------------------------
  // Scanning
  // ---------------------------------------------------------------------------------------

  lemma {:induction false} SkipPlain(u: string, t: string, key: string)
    requires QuoteFree(u)
    ensures Find(u + t, key) == Find(t, key)
  {
    if u == [] {
      assert u + t == t;
    } else {
      assert (u + t)[1..] == u[1..] + t;
      assert (u + t)[0] == u[0];
      SkipPlain(u[1..], t, key);
    }
  }

  lemma {:induction false} SkipBlanksOver(b: string, t: string)
    requires Blank(b) && (t != [] ==> !IsBlank(t[0]))
    ensures SkipBlanks(b + t) == t
  {
    if b == [] {
      assert b + t == t;
    } else {
      assert (b + t)[1..] == b[1..] + t;
      assert (b + t)[0] == b[0];
      SkipBlanksOver(b[1..], t);
    }
  }

  lemma {:induction false} QuotedParts(s: string, rest: string)
    ensures var q := Quoted(s, rest);
      && |q| == |s| + 2 + |rest|
      && q[0] == '"' && q[1..1 + |s|] == s && q[1 + |s|] == '"'
      && q[|s| + 2..] == rest
      && q[1..] == s + ("\"" + rest)
      && (forall i :: 0 <= i < |s| ==> q[1 + i] == s[i])
  {
  }

  /** A quoted string is the key exactly when it equals it and a colon follows. */
  lemma {:induction false} KeyAtQuoted(s: string, rest: string, key: string)
    requires QuoteFree(s) && QuoteFree(key)
    ensures KeyAt(Quoted(s, rest), key) <==> s == key && SkipBlanks(rest) != [] && SkipBlanks(rest)[0] == ':'
  {
    hide Quoted, SkipBlanks;
    var q := Quoted(s, rest);
    QuotedParts(s, rest);
    if |q| >= |key| + 2 && q[1..1 + |key|] == key && q[1 + |key|] == '"' {
      SameQuoted(s, q, key);
    }
  }

  lemma {:induction false} SameQuoted(s: string, q: string, key: string)
    requires QuoteFree(s) && QuoteFree(key)
    requires |q| >= |s| + 2 && q[1..1 + |s|] == s && q[1 + |s|] == '"'
    requires |q| >= |key| + 2 && q[1..1 + |key|] == key && q[1 + |key|] == '"'
    ensures s == key
  {
    NoQuoteInside(s, q, |key|);
    NoQuoteInside(key, q, |s|);
  }

  lemma NoQuoteInside(s: string, q: string, i: nat)
    requires QuoteFree(s) && |q| >= |s| + 2 && q[1..1 + |s|] == s
    ensures i < |s| ==> q[1 + i] != '"'
  {
    assert i < |s| ==> q[1..1 + |s|][i] == s[i];
  }

  lemma {:induction false} NotAtClosing(t: string, key: string)
    requires t != [] && Identifier(key) && (|t| > 1 ==> !IsNameChar(t[1]))
    ensures !KeyAt(t, key)
  {
    assert |t| >= |key| + 2 ==> t[1..1 + |key|][0] == t[1];
  }

  /** The scanner passes over a quoted string that is not the key. */
  lemma {:induction false} PassQuoted(s: string, rest: string, key: string)
    requires QuoteFree(s) && Identifier(key) && (rest != [] ==> !IsNameChar(rest[0]))
    requires !KeyAt(Quoted(s, rest), key)
    ensures Find(Quoted(s, rest), key) == Find(rest, key)
  {
    hide Quoted, KeyAt;
    QuotedParts(s, rest);
    var closing := "\"" + rest;
    SkipPlain(s, closing, key);
    NotAtClosing(closing, key);
    assert closing[1..] == rest;
  }

  /** What may follow a value: a blank, a comma or the closing brace. */
  predicate Delimited(t: string) {
    t != [] && (IsBlank(t[0]) || t[0] == ',' || t[0] == '}')
  }

  lemma {:induction false} TrailDelimited(trail: string, more: string)
    requires Blank(trail) && more != [] && (more[0] == ',' || more[0] == '}')
    ensures Delimited(trail + more)
    ensures SkipBlanks(trail + more) == more
  {
    SkipBlanksOver(trail, more);
  }

  lemma {:induction false} NameIsQuoteFree(key: string)
    requires Identifier(key)
    ensures QuoteFree(key)
  {
  }

  lemma {:induction false} DigitsAreQuoteFree(s: string)
    requires AllDigits(s)
    ensures QuoteFree(s) && QuoteFree("-" + s)
  {
  }

  /** The scanner passes over a value. */
  lemma {:induction false} PassValue(v: Value, rest: string, more: string, key: string)
    requires v.Text? ==> QuoteFree(v.s)
    requires Identifier(key) && Delimited(rest) && SkipBlanks(rest) == more && more != [] && more[0] != ':'
    ensures Find(ValueThen(v, rest), key) == Find(rest, key)
  {
    hide Find, Quoted, KeyAt, Decimal;
    match v
    case Number(n) =>
      DecimalRoundTrip(if n < 0 then -n else n);
      DigitsAreQuoteFree(Decimal(if n < 0 then -n else n));
      SkipPlain(IntText(n), rest, key);
    case Flag(b) =>
      SkipPlain(if b then "true" else "false", rest, key);
    case Text(s) =>
      NameIsQuoteFree(key);
      KeyAtQuoted(s, rest, key);
      PassQuoted(s, rest, key);
  }

  lemma {:induction false} ValueBegins(v: Value, rest: string)
    ensures ValueThen(v, rest) != [] && !IsBlank(ValueThen(v, rest)[0])
  {
    hide Decimal;
    match v
    case Number(n) =>
      DecimalRoundTrip(if n < 0 then -n else n);
    case Flag(b) =>
    case Text(s) =>
  }

  /** What stands between a key and its value. */
  lemma {:induction false} ColonText(before: string, after: string, value: string)
    requires Blank(before) && Blank(after) && value != [] && !IsBlank(value[0])
    ensures var text := before + (":" + (after + value));
      && text != [] && !IsNameChar(text[0])
      && SkipBlanks(text) == ":" + (after + value)
      && SkipBlanks((":" + (after + value))[1..]) == value
  {
    var colon := ":" + (after + value);
    SkipBlanksOver(before, colon);
    SkipBlanksOver(after, value);
    assert colon[1..] == after + value;
  }

  lemma {:induction false} PassColon(before: string, after: string, value: string, key: string)
    requires Blank(before) && Blank(after)
    ensures Find(before + (":" + (after + value)), key) == Find(value, key)
  {
    hide Find;
    SkipPlain(before, ":" + (after + value), key);
    SkipPlain(":", after + value, key);
    SkipPlain(after, value, key);
  }

  /** The scanner stops at a field with the key, on its value, and passes over any other. */
  lemma {:induction false} FieldStep(f: Field, more: string, key: string)
    requires GoodField(f) && Identifier(key) && more != [] && (more[0] == ',' || more[0] == '}')
    ensures Find(FieldThen(f, more), key)
         == if f.key == key then Some(ValueThen(f.value, f.trail + more)) else Find(more, key)
  {
    hide Find, Quoted, KeyAt, ValueThen, SkipBlanks;
    var value := ValueThen(f.value, f.trail + more);
    var text := f.before + (":" + (f.after + value));
    TrailDelimited(f.trail, more);
    ValueBegins(f.value, f.trail + more);
    ColonText(f.before, f.after, value);
    SkipPlain(f.lead, Quoted(f.key, text), key);
    NameIsQuoteFree(key);
    NameIsQuoteFree(f.key);
    KeyAtQuoted(f.key, text, key);
    if f.key == key {
      FindHere(key, text);
    } else {
      PassQuoted(f.key, text, key);
      PassColon(f.before, f.after, value, key);
      PassValue(f.value, f.trail + more, more, key);
      SkipPlain(f.trail, more, key);
    }
  }

  lemma {:induction false} FindHere(key: string, text: string)
    requires KeyAt(Quoted(key, text), key) && SkipBlanks(text) != []
    ensures Find(Quoted(key, text), key) == Some(SkipBlanks(SkipBlanks(text)[1..]))
  {
    hide Quoted, SkipBlanks;
    QuotedParts(key, text);
  }

  lemma {:induction false} SkipOne(c: char, t: string, key: string)
    requires c != '"'
    ensures Find([c] + t, key) == Find(t, key)
  {
    SkipPlain([c], t, key);
  }

  lemma {:induction false} NothingBehind(end: string, key: string)
    requires QuoteFree(end)
    ensures Find("}" + end, key) == None
  {
    SkipOne('}', end, key);
    SkipPlain(end, [], key);
    assert end + [] == end;
  }

  /** What is found among the fields: nothing for an absent key, else the value of the first
      field with the key and, behind it, the end of that value. */
  lemma {:induction false} FindInFields(fields: seq<Field>, end: string, key: string) returns (tail: string)
    requires GoodFields(fields) && QuoteFree(end) && Identifier(key)
    ensures Lookup(fields, key).None? ==> Find(FieldsText(fields, end), key) == None
    ensures Lookup(fields, key).Some? ==>
      && Find(FieldsText(fields, end), key) == Some(ValueThen(Lookup(fields, key).value, tail))
      && Delimited(tail)
  {
    hide Find, FieldThen, ValueThen, GoodField;
    tail := [];
    if fields == [] {
      NothingBehind(end, key);
    } else {
      var more := if |fields| == 1 then "}" + end else "," + FieldsText(fields[1..], end);
      FieldStep(fields[0], more, key);
      if fields[0].key == key {
        tail := fields[0].trail + more;
        assert Delimited(tail) by { FieldTail(fields[0], more); }
      } else {
        tail := FindInFields(fields[1..], end, key);
        if |fields| > 1 {
          SkipOne(',', FieldsText(fields[1..], end), key);
        }
      }
    }
  }

  lemma {:induction false} FieldTail(f: Field, more: string)
    requires GoodField(f) && more != [] && (more[0] == ',' || more[0] == '}')
    ensures Delimited(f.trail + more)
  {
    TrailDelimited(f.trail, more);
  }

  lemma {:induction false} TrailingIsQuoteFree(end: string)
    requires forall i :: 0 <= i < |end| ==> IsTrailing(end[i])
    ensures QuoteFree(end)
  {
  }

  /** In a printed object, in whatever order its fields and with whatever blanks, the scanner
      finds a key exactly when the object has it, and lands on its value: even when some string
      value, or the text between two strings, looks like the key. */
  lemma {:induction false} FindInPrinted(o: Object, key: string) returns (tail: string)
    requires Good(o) && Identifier(key)
    ensures Lookup(o.fields, key).None? ==> Find(Print(o), key) == None
    ensures Lookup(o.fields, key).Some? ==>
      && Find(Print(o), key) == Some(ValueThen(Lookup(o.fields, key).value, tail))
      && Delimited(tail)
  {
    hide Find, FieldsText, ValueThen;
    BlankIsQuoteFree(o.indent);
    SkipPlain(o.indent, "{" + FieldsText(o.fields, o.end), key);
    SkipOne('{', FieldsText(o.fields, o.end), key);
    TrailingIsQuoteFree(o.end);
    tail := FindInFields(o.fields, o.end, key);
  }

  lemma {:induction false} BlankIsQuoteFree(s: string)
    requires Blank(s)
    ensures QuoteFree(s)
  {
  }

  // ---------------------------------------------------------------------------------------
  // Typed lookups
  // ---------------------------------------------------------------------------------------

  function IntOf(v: Option<Value>): Option<int> {
    if v.Some? && v.value.Number? then Some(Saturate(v.value.n)) else None
  }

  function FlagOf(v: Option<Value>): Option<bool> {
    if v.Some? && v.value.Flag? then Some(v.value.b) else None
  }

  /** A string that fits with its NUL is copied; of a longer one the front is, without success. */
  function TextOf(v: Option<Value>, size: nat): (c: Copied)
    requires size >= 1
    ensures |c.written| <= size
  {
    if v.None? || !v.value.Text? then Copied(false, [])
    else if |v.value.s| < size then Copied(true, v.value.s + [NUL])
    else Copied(false, v.value.s[..size - 1])
  }

  lemma {:induction false} DigitRunIs(digits: string, tail: string)
    requires AllDigits(digits) && (tail != [] ==> !IsDigit(tail[0]))
    ensures DigitRun(digits + tail) == |digits|
  {
    DigitBoundary(digits, tail, DigitRun(digits + tail));
  }

  lemma DigitBoundary(digits: string, tail: string, i: nat)
    requires AllDigits(digits) && (tail != [] ==> !IsDigit(tail[0]))
    ensures i < |digits| ==> IsDigit((digits + tail)[i])
    ensures tail != [] ==> !IsDigit((digits + tail)[|digits|])
  {
  }

  lemma {:induction false} ParseInt(n: int, tail: string)
    requires tail != [] ==> !IsDigit(tail[0])
    ensures var v := IntText(n) + tail;
      && (v[0] == '-' || IsDigit(v[0]))
      && ParseLong(v) == Some(Saturate(n))
  {
    hide Decimal, DigitRun, Saturate, DecimalValue;
    var digits := Decimal(if n < 0 then -n else n);
    DecimalRoundTrip(if n < 0 then -n else n);
    DigitRunIs(digits, tail);
    assert (digits + tail)[..|digits|] == digits;
    if n < 0 {
      assert ("-" + digits + tail)[1..] == digits + tail;
    }
  }

  /** An integer field reads as its number, saturated to the range of a C long. */
  lemma {:induction false} IntInPrinted(o: Object, key: string)
    requires Good(o) && Identifier(key)
    ensures GetInt(Print(o), key) == IntOf(Lookup(o.fields, key))
  {
    hide Find, Print, ParseLong, Lookup, Good, Identifier, Saturate, Decimal;
    var tail := FindInPrinted(o, key);
    var v := Lookup(o.fields, key);
    if v.Some? {
      match v.value
      case Number(n) => ParseInt(n, tail);
      case Flag(b) =>
      case Text(s) =>
    }
  }

  lemma {:induction false} FlagInPrinted(o: Object, key: string)
    requires Good(o) && Identifier(key)
    ensures GetBool(Print(o), key) == FlagOf(Lookup(o.fields, key))
  {
    hide Find, Print, Lookup, Good, Identifier, Decimal;
    var tail := FindInPrinted(o, key);
    var v := Lookup(o.fields, key);
    if v.Some? {
      FlagText(v.value, tail);
    }
  }

  lemma {:induction false} FlagText(v: Value, tail: string)
    ensures BoolOf(ValueThen(v, tail)) == if v.Flag? then Some(v.b) else None
  {
    hide Decimal;
    var text := ValueThen(v, tail);
    match v
    case Number(n) =>
      DecimalRoundTrip(if n < 0 then -n else n);
      assert text[0] == '-' || IsDigit(text[0]);
      NotAWord(text);
    case Flag(b) =>
      if b {
        assert text[..4] == "true";
      } else {
        assert text[..5] == "false";
        assert text[..4] == "fals";
        assert text[..4][0] == 'f';
      }
    case Text(s) =>
      assert text[0] == '"';
      NotAWord(text);
  }

  lemma {:induction false} NotAWord(text: string)
    requires text != [] && text[0] != 't' && text[0] != 'f'
    ensures BoolOf(text) == None
  {
    assert |text| >= 4 ==> text[..4][0] == text[0];
    assert |text| >= 5 ==> text[..5][0] == text[0];
  }

  lemma {:induction false} CopyLengthIs(s: string, rest: string, size: nat)
    requires QuoteFree(s) && size >= 1
    ensures CopyLength(s + ("\"" + rest), size) == Min(|s|, size - 1)
  {
    var body, n := s + ("\"" + rest), CopyLength(s + ("\"" + rest), size);
    assert body[|s|] == '"';
    assert n < |s| ==> body[n] == s[n];
  }

  lemma {:induction false} CopyText(s: string, rest: string, size: nat)
    requires QuoteFree(s) && size >= 1
    ensures CopyOf(Some(Quoted(s, rest)), size) == TextOf(Some(Text(s)), size)
  {
    hide CopyLength, Quoted;
    QuotedParts(s, rest);
    CopyLengthIs(s, rest, size);
    var body := s + ("\"" + rest);
    if |s| < size {
      assert body[..|s|] == s && body[|s|] == '"';
    } else {
      assert body[..size - 1] == s[..size - 1];
      assert body[size - 1] == if size - 1 < |s| then s[size - 1] else '"';
    }
  }

  lemma {:induction false} TextInPrinted(o: Object, key: string, size: nat)
    requires Good(o) && Identifier(key) && size >= 1
    ensures GetString(Print(o), key, size) == TextOf(Lookup(o.fields, key), size)
  {
    hide Find, Print, Identifier, Decimal, CopyLength, Quoted;
    var tail := FindInPrinted(o, key);
    var v := Lookup(o.fields, key);
    if v.Some? {
      NotQuoted(v.value, tail);
      if v.value.Text? {
        LookupIsGood(o.fields, key);
        CopyText(v.value.s, tail, size);
      }
    }
  }

  lemma {:induction false} NotQuoted(v: Value, tail: string)
    ensures ValueThen(v, tail) != []
    ensures !v.Text? ==> ValueThen(v, tail)[0] != '"'
  {
    hide Decimal;
    match v
    case Number(n) =>
      DecimalRoundTrip(if n < 0 then -n else n);
    case Flag(b) =>
    case Text(s) =>
  }

  lemma {:induction false} LookupIsGood(fields: seq<Field>, key: string)
    requires GoodFields(fields) && Lookup(fields, key).Some? && Lookup(fields, key).value.Text?
    ensures QuoteFree(Lookup(fields, key).value.s)
  {
    if fields[0].key == key {
      assert GoodField(fields[0]);
    } else {
      LookupIsGood(fields[1..], key);
    }
  }

  // ---------------------------------------------------------------------------------------
  // Shape
  // ---------------------------------------------------------------------------------------

  lemma {:induction false} FieldEnds(f: Field, x: string, y: string)
    ensures FieldThen(f, x + y) == FieldThen(f, x) + y
  {
    hide IntText;
    var a, b := f.trail + x, f.trail + (x + y);
    assert b == a + y;
    ValueEnds(f.value, a, y);
    var v, w := ValueThen(f.value, a), ValueThen(f.value, b);
    Shift(f.lead, f.key, f.before, f.after, v, y);
  }

  lemma {:induction false} ValueEnds(v: Value, x: string, y: string)
    ensures ValueThen(v, x + y) == ValueThen(v, x) + y
  {
    match v
    case Number(n) => Regroup(IntText(n), x, y);
    case Flag(b) => Regroup(if b then "true" else "false", x, y);
    case Text(s) => QuotedEnds(s, x, y);
  }

  lemma Regroup(a: string, b: string, c: string)
    ensures a + (b + c) == a + b + c
  {
  }

  lemma {:induction false} QuotedEnds(s: string, x: string, y: string)
    ensures Quoted(s, x + y) == Quoted(s, x) + y
  {
    Regroup("\"", x, y);
    Regroup(s, "\"" + x, y);
    Regroup("\"", s + ("\"" + x), y);
  }

  lemma {:induction false} Shift(lead: string, key: string, before: string, after: string, v: string, y: string)
    ensures lead + Quoted(key, before + (":" + (after + (v + y))))
         == lead + Quoted(key, before + (":" + (after + v))) + y
  {
    hide Quoted;
    Regroup(after, v, y);
    Regroup(":", after + v, y);
    Regroup(before, ":" + (after + v), y);
    QuotedEnds(key, before + (":" + (after + v)), y);
    Regroup(lead, Quoted(key, before + (":" + (after + v))), y);
  }

  /** The text of the fields ends with the closing brace and what follows it. */
  lemma {:induction false} FieldsEnd(fields: seq<Field>, end: string) returns (x: string)
    ensures FieldsText(fields, end) == x + "}" + end
  {
    hide FieldThen;
    if fields == [] {
      x := [];
      assert x + "}" + end == "}" + end;
    } else if |fields| == 1 {
      x := FieldThen(fields[0], []);
      assert [] + ("}" + end) == "}" + end;
      FieldEnds(fields[0], [], "}" + end);
      Regroup(x, "}", end);
    } else {
      var y := FieldsEnd(fields[1..], end);
      x := FieldThen(fields[0], "," + y);
      Regroup(",", y, "}" + end);
      Regroup(y, "}", end);
      FieldEnds(fields[0], "," + y, "}" + end);
      Regroup(x, "}", end);
    }
  }

  lemma {:induction false} TrimTrailing(x: string, end: string)
    requires forall i :: 0 <= i < |end| ==> IsTrailing(end[i])
    requires x != [] && !IsTrailing(x[|x| - 1])
    ensures TrimEnd(x + end) == x
  {
    if end == [] {
      assert x + end == x;
    } else {
      var n := |end| - 1;
      assert (x + end)[..|x + end| - 1] == x + end[..n];
      TrimTrailing(x, end[..n]);
    }
  }

  /** A printed object passes the shape check. */
  lemma {:induction false} PrintedLooksLikeObject(o: Object)
    requires Good(o)
    ensures LooksLikeObject(Print(o))
  {
    hide FieldsText, GoodField, SkipBlanks, TrimEnd;
    var p := "{" + FieldsText(o.fields, o.end);
    SkipBlanksOver(o.indent, p);
    var x := FieldsEnd(o.fields, o.end);
    Regroup("{", x + "}", o.end);
    TrimTrailing("{" + (x + "}"), o.end);
  }

  ghost predicate Shaped(text: string, lead: string, body: string, end: string) {
    && text == lead + "{" + body + "}" + end
    && Blank(lead)
    && forall i :: 0 <= i < |end| ==> end[i] in {' ', '\t', '\n', '\r'}
  }

  lemma {:induction false} SkippedAre(p: string) returns (lead: string)
    ensures p == lead + SkipBlanks(p) && Blank(lead)
  {
    if p != [] && IsBlank(p[0]) {
      var rest := SkippedAre(p[1..]);
      lead := [p[0]] + rest;
      assert p == [p[0]] + p[1..];
    } else {
      lead := [];
    }
  }

  lemma {:induction false} TrimmedAre(s: string) returns (end: string)
    ensures s == TrimEnd(s) + end
    ensures forall i :: 0 <= i < |end| ==> end[i] in {' ', '\t', '\n', '\r'}
  {
    if s != [] && IsTrailing(s[|s| - 1]) {
      var n := |s| - 1;
      var front := TrimmedAre(s[..n]);
      end := front + [s[n]];
      assert s == s[..n] + [s[n]];
    } else {
      end := [];
    }
  }

  /** A text passes the shape check exactly when it is an opening brace behind spaces and tabs,
      anything, and a closing brace in front of spaces, tabs and line ends. */
  lemma {:induction false} ShapeExactly(text: string)
    ensures LooksLikeObject(text) <==> exists lead, body, end :: Shaped(text, lead, body, end)
  {
    hide SkipBlanks, TrimEnd;
    if LooksLikeObject(text) {
      var p := SkipBlanks(text);
      var lead := SkippedAre(text);
      var end := TrimmedAre(p);
      var x := TrimEnd(p);
      assert x[0] == p[0];
      var body := x[1..|x| - 1];
      assert x == "{" + body + "}";
      assert lead + ("{" + body + "}" + end) == lead + "{" + body + "}" + end;
      assert Shaped(text, lead, body, end);
    }
    if lead, body, end :| Shaped(text, lead, body, end) {
      var p := "{" + body + "}" + end;
      assert text == lead + p;
      SkipBlanksOver(lead, p);
      TrimTrailing("{" + body + "}", end);
    }
  }
}
