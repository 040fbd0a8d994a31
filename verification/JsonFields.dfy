/** The firmware's JSON field scanner (firmware/src/protocol/parser.c). A C string is the
    sequence of its characters without the final NUL, and a pointer into it is the suffix that
    it points at. */
module JsonFields {
  import opened Numbers
  import opened Results
  import opened Decimals

  predicate IsBlank(c: char) {
    c == ' ' || c == '\t'
  }

  /** Advances a pointer over spaces and tabs. */
  function SkipBlanks(p: string): (rest: string)
    ensures |rest| <= |p|
    ensures rest != [] ==> !IsBlank(rest[0])
  {
    if p != [] && IsBlank(p[0]) then SkipBlanks(p[1..]) else p
  }

  method SkipBlanksLoop(start: string) returns (p: string)
    ensures p == SkipBlanks(start)
  {
    p := start;
    while p != [] && IsBlank(p[0])
      invariant SkipBlanks(p) == SkipBlanks(start)
      decreases |p|
    {
      p := p[1..];
    }
  }

  /** A quoted `key` and, behind blanks, a colon begin at `p`. */
  predicate KeyAt(p: string, key: string) {
    && |p| >= |key| + 2
    && p[0] == '"'
    && p[1..1 + |key|] == key
    && p[1 + |key|] == '"'
    && SkipBlanks(p[|key| + 2..]) != []
    && SkipBlanks(p[|key| + 2..])[0] == ':'
  }

  /** What `find_value` promises: the value behind the first place where the key stands. */
  function Find(json: string, key: string): Option<string> {
    if json == [] then None
    else if KeyAt(json, key) then Some(SkipBlanks(SkipBlanks(json[|key| + 2..])[1..]))
    else Find(json[1..], key)
  }

  /** `strchr(p, '"')`. */
  function NextQuote(p: string): (q: Option<string>)
    ensures q.Some? ==> q.value != [] && q.value[0] == '"' && |q.value| <= |p|
  {
    if p == [] then None
    else if p[0] == '"' then Some(p)
    else NextQuote(p[1..])
  }

  lemma {:induction false} FindFromQuote(p: string, key: string)
    ensures Find(p, key) == match NextQuote(p)
                            case None => None
                            case Some(q) => Find(q, key)
  {
    if p != [] && p[0] != '"' {
      FindFromQuote(p[1..], key);
    }
  }

  method FindValue(json: string, key: string) returns (v: Option<string>)
    ensures v == Find(json, key)
  {
    var keylen := |key|;
    FindFromQuote(json, key);
    var p := NextQuote(json);
    while p.Some?
      invariant p.Some? ==> p.value != [] && p.value[0] == '"'
      invariant Find(json, key) == match p case None => None case Some(q) => Find(q, key)
      decreases if p.Some? then |p.value| + 1 else 0
    {
      var q := p.value;
      if |q| > 1 + keylen && q[1..1 + keylen] == key && q[1 + keylen] == '"' {
        var colon := SkipBlanksLoop(q[1 + keylen + 1..]);
        if colon != [] && colon[0] == ':' {
          colon := SkipBlanksLoop(colon[1..]);
          return Some(colon);
        }
      }
      FindFromQuote(q[1..], key);
      p := NextQuote(q[1..]);
    }
    return None;
  }

  // ---------------------------------------------------------------------------------------
  // Integers
  // ---------------------------------------------------------------------------------------

  const LONG_MAX := 0x7FFF_FFFF
  const LONG_MIN := -0x8000_0000

  /** How many digits a text begins with. */
  function DigitRun(v: string): (n: nat)
    ensures n <= |v|
    ensures forall i :: 0 <= i < n ==> IsDigit(v[i])
    ensures n < |v| ==> !IsDigit(v[n])
  {
    if v != [] && IsDigit(v[0]) then
      var n := DigitRun(v[1..]);
      assert forall i :: 1 <= i < n + 1 ==> v[i] == v[1..][i - 1];
      n + 1
    else 0
  }

  function Saturate(x: int): int {
    if x > LONG_MAX then LONG_MAX else if x < LONG_MIN then LONG_MIN else x
  }

  /** `strtol` in base 10 where a sign or digit stands; None when it converts nothing. */
  function ParseLong(v: string): Option<int> {
    var negative := v != [] && v[0] == '-';
    var digits := if negative then v[1..] else v;
    var n := DigitRun(digits);
    if n == 0 then None
    else Some(Saturate(if negative then -(DecimalValue(digits[..n]) as int) else DecimalValue(digits[..n])))
  }

  /** What `json_get_int` promises. */
  function GetInt(json: string, key: string): Option<int> {
    match Find(json, key)
    case None => None
    case Some(v) => if v == [] || (v[0] != '-' && !IsDigit(v[0])) then None else ParseLong(v)
  }

  method JsonGetInt(json: string, key: string) returns (r: Option<int>)
    ensures r == GetInt(json, key)
  {
    var v := FindValue(json, key);
    if v.None? || v.value == [] || (v.value[0] != '-' && !IsDigit(v.value[0])) {
      return None;
    }
    return ParseLong(v.value);
  }

  // ---------------------------------------------------------------------------------------
  // Booleans
  // ---------------------------------------------------------------------------------------

  predicate StartsWith(v: string, prefix: string) {
    |v| >= |prefix| && v[..|prefix|] == prefix
  }

  function BoolOf(v: string): Option<bool> {
    if StartsWith(v, "true") then Some(true)
    else if StartsWith(v, "false") then Some(false)
    else None
  }

  /** What `json_get_bool` promises. */
  function GetBool(json: string, key: string): Option<bool> {
    match Find(json, key)
    case None => None
    case Some(v) => BoolOf(v)
  }

  method JsonGetBool(json: string, key: string) returns (r: Option<bool>)
    ensures r == GetBool(json, key)
  {
    var v := FindValue(json, key);
    if v.None? {
      return None;
    }
    return BoolOf(v.value);
  }

  // ---------------------------------------------------------------------------------------
  // Strings
  // ---------------------------------------------------------------------------------------

  /** How many characters are copied from behind an opening quote into `size` bytes. */
  function CopyLength(v: string, size: nat): (n: nat)
    requires size >= 1
    ensures n <= |v| && n < size
    ensures forall i :: 0 <= i < n ==> v[i] != '"'
    ensures n < |v| && v[n] != '"' ==> n == size - 1
  {
    if v == [] || v[0] == '"' || size == 1 then 0
    else
      var n := CopyLength(v[1..], size - 1);
      assert forall i :: 1 <= i < n + 1 ==> v[i] == v[1..][i - 1];
      n + 1
  }

  /** What reading a string does: what it writes to the front of the buffer, and whether it
      succeeds (it then writes the final NUL as well). */
  datatype Copied = Copied(ok: bool, written: string)

  const NUL: char := '\0'

  function CopyOf(v: Option<string>, size: nat): Copied
    requires size >= 1
  {
    if v.None? || v.value == [] || v.value[0] != '"' then Copied(false, [])
    else
      var body := v.value[1..];
      var n := CopyLength(body, size);
      if n == |body| || body[n] != '"' then Copied(false, body[..n])
      else Copied(true, body[..n] + [NUL])
  }

  lemma {:induction false} CopyFits(v: Option<string>, size: nat)
    requires size >= 1
    ensures |CopyOf(v, size).written| <= size
  {
  }

  function GetString(json: string, key: string, size: nat): (c: Copied)
    requires size >= 1
    ensures |c.written| <= size
  {
    CopyFits(Find(json, key), size);
    CopyOf(Find(json, key), size)
  }

  /** A buffer whose front has been overwritten. */
  function Overwritten(buffer: string, text: string): string
    requires |text| <= |buffer|
  {
    text + buffer[|text|..]
  }

  /** Every write stays inside `out`, and bytes behind the copied text keep their value. */
  method JsonGetString(json: string, key: string, out: array<char>) returns (ok: bool)
    requires out.Length >= 1
    modifies out
    ensures ok == GetString(json, key, out.Length).ok
    ensures out[..] == Overwritten(old(out[..]), GetString(json, key, out.Length).written)
  {
    var v := FindValue(json, key);
    if v.None? || v.value == [] || v.value[0] != '"' {
      return false;
    }
    var body := v.value[1..];
    ghost var before := out[..];
    var n := CopyLoop(body, out);
    if n == |body| || body[n] != '"' {
      return false;
    }
    out[n] := NUL;
    assert out[..] == Overwritten(before, body[..n] + [NUL]);
    return true;
  }

  /** The copying loop of `json_get_str`. */
  method CopyLoop(body: string, out: array<char>) returns (n: nat)
    requires out.Length >= 1
    modifies out
    ensures n == CopyLength(body, out.Length)
    ensures out[..] == body[..n] + old(out[..])[n..]
  {
    hide CopyLength;
    n := 0;
    assert body[0..] == body;
    while n < |body| && body[n] != '"' && n + 1 < out.Length
      invariant n <= |body| && n < out.Length
      invariant CopyLength(body, out.Length) == n + CopyLength(body[n..], out.Length - n)
      invariant forall i :: 0 <= i < n ==> out[i] == body[i]
      invariant forall i :: n <= i < out.Length ==> out[i] == old(out[i])
    {
      CopyStep(body, n, out.Length - n);
      out[n] := body[n];
      n := n + 1;
    }
    CopyStops(body[n..], out.Length - n);
  }

  lemma {:induction false} CopyStep(body: string, n: nat, size: nat)
    requires n < |body| && body[n] != '"' && size > 1
    ensures CopyLength(body[n..], size) == 1 + CopyLength(body[n + 1..], size - 1)
  {
    assert body[n..][1..] == body[n + 1..];
  }

  lemma {:induction false} CopyStops(v: string, size: nat)
    requires size >= 1 && (v == [] || v[0] == '"' || size == 1)
    ensures CopyLength(v, size) == 0
  {
  }

  // ---------------------------------------------------------------------------------------
  // Shape of the line
  // ---------------------------------------------------------------------------------------

  predicate IsTrailing(c: char) {
    c == '\n' || c == '\r' || IsBlank(c)
  }

  function TrimEnd(s: string): string {
    if s != [] && IsTrailing(s[|s| - 1]) then TrimEnd(s[..|s| - 1]) else s
  }

  /** What `looks_like_object` promises. */
  predicate LooksLikeObject(line: string) {
    var p := SkipBlanks(line);
    && p != [] && p[0] == '{'
    && TrimEnd(p) != [] && TrimEnd(p)[|TrimEnd(p)| - 1] == '}'
  }

  method CheckObject(line: string) returns (ok: bool)
    ensures ok == LooksLikeObject(line)
  {
    var p := SkipBlanksLoop(line);
    if p == [] || p[0] != '{' {
      return false;
    }
    var len := |p|;
    assert p[..len] == p;
    while len > 0 && IsTrailing(p[len - 1])
      invariant len <= |p|
      invariant TrimEnd(p[..len]) == TrimEnd(p)
    {
      assert p[..len][..len - 1] == p[..len - 1];
      len := len - 1;
    }
    return len > 0 && p[len - 1] == '}';
  }
}
