/** The exerciser firmware's command loop (firmware/src/main.c): line framing over a fixed buffer,
    the gates in front of execution, and one response per line. */
module Firmware {
  import opened Results
  import opened JsonFields
  import opened JsonObjects
  import opened Commands

  const LINE_BUF_SIZE := 256

  // ---------------------------------------------------------------------------------------
  // Gates
  // ---------------------------------------------------------------------------------------

  /** `command_is_input_sensing`. */
  predicate IsInputSensing(cmd: Command) {
    cmd.kind == Loopback || (cmd.kind == Sync && CString(cmd.syncMode) == "input")
  }

  /** `command_is_push_pull`. */
  predicate IsPushPull(kind: CommandId) {
    kind == Ws2812 || kind == Dshot || kind == Pwm || kind == UartTx || kind == SpiTx
  }

  predicate E9Refuses(cmd: Command, e9Affected: bool) {
    e9Affected && IsInputSensing(cmd)
  }

  predicate HazardRefuses(cmd: Command) {
    IsPushPull(cmd.kind) && !cmd.assertUndriven
  }

  datatype Response =
    | Accepted(id: int)
    | Refused(id: int, reason: string)
    | InfoReport(id: int, e9Affected: bool)

  /** What `dispatch_command` promises: the first gate that refuses names the reason. */
  function Dispatched(cmd: Command, e9Affected: bool): Response {
    if cmd.kind == Unknown then Refused(cmd.id, "unknown_command")
    else if E9Refuses(cmd, e9Affected) then Refused(cmd.id, "e9_unavailable")
    else if HazardRefuses(cmd) then Refused(cmd.id, "hazard_violation")
    else Accepted(cmd.id)
  }

  method DispatchCommand(cmd: Command, e9Affected: bool) returns (resp: Response)
    ensures resp == Dispatched(cmd, e9Affected)
  {
    if cmd.kind == Unknown {
      return Refused(cmd.id, "unknown_command");
    }
    if E9Refuses(cmd, e9Affected) {
      return Refused(cmd.id, "e9_unavailable");
    }
    if HazardRefuses(cmd) {
      return Refused(cmd.id, "hazard_violation");
    }
    return Accepted(cmd.id);
  }

  /** The response to one line. */
  function ResponseTo(text: string, e9Affected: bool): Response {
    var parsed := Parse(Line(text));
    if !parsed.ok then Refused(parsed.cmd.id, "parse_error")
    else
      var resp := Dispatched(parsed.cmd, e9Affected);
      if resp.Accepted? && parsed.cmd.kind == Info then InfoReport(resp.id, e9Affected) else resp
  }

  /** The command that one line gets executed, if any. */
  function ExecutedBy(text: string, e9Affected: bool): seq<Command> {
    var parsed := Parse(Line(text));
    if parsed.ok && parsed.cmd.kind != Info && Dispatched(parsed.cmd, e9Affected).Accepted? then [parsed.cmd] else []
  }

  // ---------------------------------------------------------------------------------------
  // Line framing
  // ---------------------------------------------------------------------------------------

  predicate EndsLine(c: char) {
    c == '\n' || c == '\r'
  }

  /** The characters buffered and the lines handled so far. */
  datatype LineState = LineState(pending: string, lines: seq<string>)

  /** One turn of the character loop. */
  function Advance(s: LineState, c: char): LineState {
    if EndsLine(c) then
      if s.pending == [] then s else LineState([], s.lines + [s.pending])
    else if |s.pending| + 1 < LINE_BUF_SIZE then LineState(s.pending + [c], s.lines)
    else LineState([], s.lines)
  }

  function Framed(chars: string): LineState {
    if chars == [] then LineState([], [])
    else Advance(Framed(chars[..|chars| - 1]), chars[|chars| - 1])
  }

  /** The characters of a stream in which polls may time out. */
  function Received(stream: seq<Option<char>>): string {
    if stream == [] then []
    else
      var n := |stream| - 1;
      Received(stream[..n]) + (if stream[n].Some? then [stream[n].value] else [])
  }

  function Responses(lines: seq<string>, e9Affected: bool): seq<Response> {
    seq(|lines|, i requires 0 <= i < |lines| => ResponseTo(CString(lines[i]), e9Affected))
  }

  function Executions(lines: seq<string>, e9Affected: bool): seq<Command> {
    if lines == [] then []
    else Executions(lines[..|lines| - 1], e9Affected) + ExecutedBy(CString(lines[|lines| - 1]), e9Affected)
  }

  // ---------------------------------------------------------------------------------------
  // The board
  // ---------------------------------------------------------------------------------------

  class Board {
    const e9Affected: bool
    const line: array<char>
    var pos: nat
    var outputs: seq<Response>
    var executed: seq<Command>
    ghost var chars: string

    /** The state is what framing the received characters says, and every line was answered. */
    ghost predicate Valid()
      reads this, line
    {
      && line.Length == LINE_BUF_SIZE
      && pos < LINE_BUF_SIZE
      && line[..pos] == Framed(chars).pending
      && outputs == Responses(Framed(chars).lines, e9Affected)
      && executed == Executions(Framed(chars).lines, e9Affected)
    }

    constructor (e9Affected: bool)
      ensures Valid() && chars == [] && this.e9Affected == e9Affected
      ensures fresh(line)
    {
      this.e9Affected := e9Affected;
      line := new char[LINE_BUF_SIZE](_ => NUL);
      pos, outputs, executed, chars := 0, [], [], [];
    }

    /** `handle_command_line`: exactly one response, and at most one execution. */
    method HandleCommandLine(text: string)
      modifies this`outputs, this`executed
      ensures outputs == old(outputs) + [ResponseTo(text, e9Affected)]
      ensures executed == old(executed) + ExecutedBy(text, e9Affected)
    {
      hide Parse;
      var ok, cmd := ParseCommand(text);
      if !ok {
        outputs := outputs + [Refused(cmd.id, "parse_error")];
        assert executed + [] == executed;
        return;
      }
      var resp := DispatchCommand(cmd, e9Affected);
      if resp.Accepted? && cmd.kind == Info {
        outputs := outputs + [InfoReport(resp.id, e9Affected)];
        assert executed + [] == executed;
        return;
      }
      if resp.Accepted? {
        executed := executed + [cmd];
      } else {
        assert executed + [] == executed;
      }
      outputs := outputs + [resp];
    }

    /** One poll of the serial port: a character, or nothing in time. */
    method Poll(c: Option<char>)
      requires Valid()
      modifies this, line
      ensures Valid()
      ensures chars == old(chars) + (if c.Some? then [c.value] else [])
    {
      if c.None? {
        assert chars + [] == chars;
        return;
      }
      Receive(c.value);
    }

    method Receive(c: char)
      requires Valid()
      modifies this, line
      ensures Valid()
      ensures chars == old(chars) + [c]
    {
      hide Framed, Responses, Executions, ResponseTo, ExecutedBy, CString;
      FramedSnoc(chars, c);
      ghost var before := Framed(chars);
      if EndsLine(c) {
        if pos > 0 {
          var text := CString(line[..pos]);
          HandleCommandLine(text);
          ResponsesSnoc(before.lines, before.pending, e9Affected);
          ExecutionsSnoc(before.lines, before.pending, e9Affected);
          pos := 0;
        }
      } else if pos + 1 < LINE_BUF_SIZE {
        line[pos] := c;
        pos := pos + 1;
        assert line[..pos] == before.pending + [c];
      } else {
        pos := 0;
      }
      chars := chars + [c];
    }

    /** The main loop over a finite stream of polls. */
    method Run(stream: seq<Option<char>>)
      requires Valid()
      modifies this, line
      ensures Valid()
      ensures chars == old(chars) + Received(stream)
      ensures |outputs| == |Framed(chars).lines|
    {
      assert chars + [] == chars;
      for i := 0 to |stream|
        invariant Valid()
        invariant chars == old(chars) + Received(stream[..i])
      {
        assert stream[..i + 1][..i] == stream[..i];
        Poll(stream[i]);
      }
      assert stream[..|stream|] == stream;
    }
  }

  lemma {:induction false} FramedSnoc(chars: string, c: char)
    ensures Framed(chars + [c]) == Advance(Framed(chars), c)
  {
    assert (chars + [c])[..|chars|] == chars;
  }

  lemma {:induction false} ResponsesSnoc(lines: seq<string>, text: string, e9Affected: bool)
    ensures Responses(lines + [text], e9Affected)
         == Responses(lines, e9Affected) + [ResponseTo(CString(text), e9Affected)]
  {
    hide ResponseTo, CString;
  }

  lemma {:induction false} ExecutionsSnoc(lines: seq<string>, text: string, e9Affected: bool)
    ensures Executions(lines + [text], e9Affected)
         == Executions(lines, e9Affected) + ExecutedBy(CString(text), e9Affected)
  {
    hide ExecutedBy, CString;
    assert (lines + [text])[..|lines|] == lines;
  }

  // ---------------------------------------------------------------------------------------
  // Which lines are handled
  // ---------------------------------------------------------------------------------------

  /** The pieces of a stream that a newline or carriage return ends, and what follows the last. */
  datatype Split = Split(pieces: seq<string>, last: string)

  function SplitLines(chars: string): Split {
    if chars == [] then Split([], [])
    else
      var n := |chars| - 1;
      var before := SplitLines(chars[..n]);
      if chars[n] == '\n' || chars[n] == '\r' then Split(before.pieces + [before.last], [])
      else Split(before.pieces, before.last + [chars[n]])
  }

  /** What the buffer keeps of a piece: each time it is full it is emptied. */
  function Tail(p: string): (t: string)
    ensures |t| == |p| % 256
  {
    p[|p| - |p| % 256..]
  }

  /** The tails of the pieces, without the empty ones. */
  function Tails(pieces: seq<string>): seq<string> {
    if pieces == [] then []
    else
      var t := Tail(pieces[|pieces| - 1]);
      Tails(pieces[..|pieces| - 1]) + (if t == [] then [] else [t])
  }

  function NonEmpty(pieces: seq<string>): seq<string> {
    if pieces == [] then []
    else
      var p := pieces[|pieces| - 1];
      NonEmpty(pieces[..|pieces| - 1]) + (if p == [] then [] else [p])
  }

  lemma {:induction false} TailSnoc(p: string, c: char)
    ensures Tail(p + [c]) == if |Tail(p)| + 1 < LINE_BUF_SIZE then Tail(p) + [c] else []
  {
    var q := p + [c];
    if |p| % LINE_BUF_SIZE + 1 < LINE_BUF_SIZE {
      assert |q| % LINE_BUF_SIZE == |p| % LINE_BUF_SIZE + 1;
    } else {
      assert |q| % LINE_BUF_SIZE == 0;
    }
  }

  lemma {:induction false} TailsSnoc(pieces: seq<string>, p: string)
    ensures Tails(pieces + [p]) == Tails(pieces) + (if Tail(p) == [] then [] else [Tail(p)])
  {
    assert (pieces + [p])[..|pieces|] == pieces;
  }

  /** On every stream the handled lines are the tails of its pieces, in order: a piece of `n`
      characters is handled by its last `n % 256`, and not at all when there are none. */
  lemma {:induction false} LinesExactly(chars: string)
    ensures Framed(chars).lines == Tails(SplitLines(chars).pieces)
    ensures Framed(chars).pending == Tail(SplitLines(chars).last)
  {
    hide Tail, Tails;
    if chars == [] {
      NoTail();
    } else {
      var n := |chars| - 1;
      LinesExactly(chars[..n]);
      var before := SplitLines(chars[..n]);
      if EndsLine(chars[n]) {
        TailsSnoc(before.pieces, before.last);
        NoTail();
        assert Tails(before.pieces) + [] == Tails(before.pieces);
      } else {
        TailSnoc(before.last, chars[n]);
      }
    }
  }

  lemma NoTail()
    ensures Tail([]) == [] && Tails([]) == []
  {
  }

  function TotalLength(pieces: seq<string>): nat {
    if pieces == [] then 0
    else TotalLength(pieces[..|pieces| - 1]) + |pieces[|pieces| - 1]|
  }

  ghost predicate AllShort(pieces: seq<string>) {
    forall i :: 0 <= i < |pieces| ==> |pieces[i]| < LINE_BUF_SIZE
  }

  lemma {:induction false} TotalSnoc(pieces: seq<string>, p: string)
    ensures TotalLength(pieces + [p]) == TotalLength(pieces) + |p|
  {
    assert (pieces + [p])[..|pieces|] == pieces;
  }

  /** The buffer keeps everything of the pieces exactly when all are shorter than it. */
  lemma {:induction false} TailsKeep(pieces: seq<string>)
    ensures TotalLength(Tails(pieces)) <= TotalLength(pieces) == TotalLength(NonEmpty(pieces))
    ensures TotalLength(Tails(pieces)) == TotalLength(pieces) <==> AllShort(pieces)
    ensures AllShort(pieces) ==> Tails(pieces) == NonEmpty(pieces)
  {
    hide Tail, Tails, NonEmpty, TotalLength;
    if pieces == [] {
      NothingToKeep();
    } else {
      var n := |pieces| - 1;
      var p, front := pieces[n], pieces[..n];
      TailsKeep(front);
      assert pieces == front + [p];
      assert AllShort(pieces) <==> AllShort(front) && |p| < LINE_BUF_SIZE;
      TailWhole(p);
      TailsSnoc(front, p);
      NonEmptySnoc(front, p);
      TotalSnoc(front, p);
      TotalSnoc(Tails(front), Tail(p));
      TotalSnoc(NonEmpty(front), p);
      assert Tails(front) + [] == Tails(front) && NonEmpty(front) + [] == NonEmpty(front);
    }
  }

  lemma NothingToKeep()
    ensures Tails([]) == [] && NonEmpty([]) == [] && TotalLength([]) == 0
  {
  }

  lemma {:induction false} NonEmptySnoc(pieces: seq<string>, p: string)
    ensures NonEmpty(pieces + [p]) == NonEmpty(pieces) + (if p == [] then [] else [p])
  {
    assert (pieces + [p])[..|pieces|] == pieces;
  }

  lemma {:induction false} TailWhole(p: string)
    ensures |Tail(p)| <= |p|
    ensures |Tail(p)| == |p| <==> |p| < LINE_BUF_SIZE
    ensures |p| < LINE_BUF_SIZE ==> Tail(p) == p
  {
  }

  /** The handled lines are exactly the nonempty pieces if and only if every piece has at most
      255 characters. */
  lemma {:induction false} LinesIntactExactly(chars: string)
    ensures Framed(chars).lines == NonEmpty(SplitLines(chars).pieces) <==> AllShort(SplitLines(chars).pieces)
  {
    hide Tails, NonEmpty, AllShort;
    LinesExactly(chars);
    TailsKeep(SplitLines(chars).pieces);
  }

  /** A longer piece is not dropped, as the loop's comment has it: unless its length is a multiple
      of the buffer's, its tail is handled as a line of its own. */
  lemma {:induction false} OverlongTailIsHandled(piece: string)
    requires forall i :: 0 <= i < |piece| ==> piece[i] != '\n' && piece[i] != '\r'
    requires |piece| >= 256
    ensures Framed(piece + ['\n']).lines == if |piece| % 256 == 0 then [] else [Tail(piece)]
  {
    hide Tail, Tails;
    OnePiece(piece);
    LinesExactly(piece + ['\n']);
    assert (piece + ['\n'])[..|piece|] == piece;
    TailsSnoc([], piece);
    assert [] + [piece] == [piece];
    NoTail();
  }

  lemma {:induction false} OnePiece(piece: string)
    requires forall i :: 0 <= i < |piece| ==> piece[i] != '\n' && piece[i] != '\r'
    ensures SplitLines(piece) == Split([], piece)
  {
    if piece != [] {
      OnePiece(piece[..|piece| - 1]);
      assert piece == piece[..|piece| - 1] + [piece[|piece| - 1]];
    }
  }

  // ---------------------------------------------------------------------------------------
  // What is executed
  // ---------------------------------------------------------------------------------------

  /** Nothing that reads an affected input, and nothing that drives a line not declared free. */
  ghost predicate Safe(cmd: Command, e9Affected: bool) {
    && cmd.kind != Unknown && cmd.kind != Info
    && (e9Affected ==> cmd.kind != Loopback)
    && (e9Affected && cmd.kind == Sync ==> CString(cmd.syncMode) != "input")
    && (cmd.kind in {Ws2812, Dshot, Pwm, UartTx, SpiTx} ==> cmd.assertUndriven)
  }

  /** Every answer, with the kinds and reasons named: the text must parse, reading an affected
      input comes first, driving a line not declared free second. */
  lemma {:induction false} AnswerExactly(text: string, e9Affected: bool)
    ensures var parsed, response := Parse(Line(text)), ResponseTo(text, e9Affected);
      var id, kind := parsed.cmd.id, parsed.cmd.kind;
      var senses := kind == Loopback || (kind == Sync && CString(parsed.cmd.syncMode) == "input");
      var undeclared := kind in {Ws2812, Dshot, Pwm, UartTx, SpiTx} && GetBool(text, "assert_undriven") != Some(true);
      && (response == Refused(id, "parse_error") <==> !parsed.ok)
      && (response == Refused(id, "e9_unavailable") <==> parsed.ok && e9Affected && senses)
      && (response == Refused(id, "hazard_violation") <==> parsed.ok && undeclared)
      && (response == InfoReport(id, e9Affected) <==> parsed.ok && kind == Info)
      && (response == Accepted(id) <==> parsed.ok && kind != Info && !(e9Affected && senses) && !undeclared)
      && (ExecutedBy(text, e9Affected) == if response == Accepted(id) then [parsed.cmd] else [])
  {
    hide Parse, GetBool, CString;
    ParseKeeps(text);
    ReasonsDiffer();
  }

  /** The dispatcher on any command, parsed or not. */
  lemma {:induction false} DispatchExactly(cmd: Command, e9Affected: bool)
    ensures var response := Dispatched(cmd, e9Affected);
      var senses := cmd.kind == Loopback || (cmd.kind == Sync && CString(cmd.syncMode) == "input");
      var undeclared := cmd.kind in {Ws2812, Dshot, Pwm, UartTx, SpiTx} && !cmd.assertUndriven;
      && (response == Refused(cmd.id, "unknown_command") <==> cmd.kind == Unknown)
      && (response == Refused(cmd.id, "e9_unavailable") <==> e9Affected && senses)
      && (response == Refused(cmd.id, "hazard_violation") <==> undeclared)
      && (response == Accepted(cmd.id) <==> cmd.kind != Unknown && !(e9Affected && senses) && !undeclared)
  {
    hide CString;
    ReasonsDiffer();
  }

  lemma ReasonsDiffer()
    ensures "parse_error" != "e9_unavailable" && "parse_error" != "hazard_violation"
    ensures "e9_unavailable" != "hazard_violation"
    ensures "unknown_command" != "e9_unavailable" && "unknown_command" != "hazard_violation"
  {
    assert "unknown_command"[0] != "e9_unavailable"[0] && "unknown_command"[0] != "hazard_violation"[0];
    assert "parse_error"[0] != "e9_unavailable"[0] && "parse_error"[0] != "hazard_violation"[0];
    assert "e9_unavailable"[0] != "hazard_violation"[0];
  }

  /** The answer that an object deserves, told from its own fields. */
  function Deserved(o: Object, e9Affected: bool): Response {
    var id, name := NumberAt(o, "id"), ShortTextAt(o, "cmd", 16);
    var senses := name == "loopback" || (name == "sync" && CString(TextAt(o, "mode", 8)) == "input");
    var drives := name in ["ws2812", "dshot", "pwm", "uart_tx", "spi_tx"];
    if !HasNumber(o, "id") || name !in COMMAND_NAMES then Refused(id, "parse_error")
    else if e9Affected && senses then Refused(id, "e9_unavailable")
    else if drives && Lookup(o.fields, "assert_undriven") != Some(Flag(true)) then Refused(id, "hazard_violation")
    else if name == "info" then InfoReport(id, e9Affected)
    else Accepted(id)
  }

  /** From the text of an object to the answer and to what is executed. */
  lemma {:induction false} PrintedAnswer(o: Object, e9Affected: bool)
    requires Good(o)
    ensures ResponseTo(Print(o), e9Affected) == Deserved(o, e9Affected)
    ensures ExecutedBy(Print(o), e9Affected) != [] <==> Deserved(o, e9Affected).Accepted?
    ensures forall cmd :: cmd in ExecutedBy(Print(o), e9Affected) ==> Describes(o, true, cmd)
  {
    hide Parse, GetBool, CString, Print, NumberAt, HasNumber, TextAt, ShortTextAt, Lookup, NumbersOf;
    PrintedDescribed(o);
    var cmd := Parse(Line(Print(o))).cmd;
    DrivingNames(ShortTextAt(o, "cmd", 16));
  }

  lemma DrivingNames(name: string)
    ensures name in ["ws2812", "dshot", "pwm", "uart_tx", "spi_tx"]
       <==> name == "ws2812" || name == "dshot" || name == "pwm" || name == "uart_tx" || name == "spi_tx"
  {
  }

  /** A line is executed exactly when it parses to a safe command, and refused or reported
      otherwise; in every case it is answered with the id it was given. */
  lemma {:induction false} ExecutedExactly(text: string, e9Affected: bool)
    ensures ExecutedBy(text, e9Affected) != [] <==> Parse(Line(text)).ok && Safe(Parse(Line(text)).cmd, e9Affected)
    ensures ExecutedBy(text, e9Affected) != [] <==> ResponseTo(text, e9Affected).Accepted?
    ensures ResponseTo(text, e9Affected).id == U32(Line(text).Int("id"))
  {
    hide Source.Int, Source.Str, Source.Flag, Source.Shaped, U32, CString, KindOf;
    ParseKeeps(text);
  }

  /** What parsing leaves of the id, the kind and the hazard assertion. */
  lemma {:induction false} ParseKeeps(text: string)
    ensures var parsed := Parse(Line(text));
      && parsed.cmd.id == U32(Line(text).Int("id"))
      && (parsed.ok ==> parsed.cmd.kind != Unknown)
      && (parsed.ok ==> parsed.cmd.assertUndriven == (Line(text).Flag("assert_undriven") == Some(true)))
  {
    hide Source.Int, Source.Str, Source.Flag, Source.Shaped, U32, U8, CString, KindOf, Buffer, PayloadLength;
  }

  ghost predicate AllSafe(commands: seq<Command>, e9Affected: bool) {
    forall i :: 0 <= i < |commands| ==> Safe(commands[i], e9Affected)
  }

  lemma {:induction false} ExecutionsSafe(lines: seq<string>, e9Affected: bool)
    ensures AllSafe(Executions(lines, e9Affected), e9Affected)
    ensures |Executions(lines, e9Affected)| <= |lines|
  {
    hide Safe, Parse, Dispatched, CString;
    if lines != [] {
      var text := CString(lines[|lines| - 1]);
      ExecutionsSafe(lines[..|lines| - 1], e9Affected);
      ExecutedExactly(text, e9Affected);
    }
  }

  /** Over every stream no command is ever executed that either gate refuses. */
  lemma {:induction false} EveryRunIsSafe(chars: string, e9Affected: bool)
    ensures AllSafe(Executions(Framed(chars).lines, e9Affected), e9Affected)
  {
    hide AllSafe, Framed;
    ExecutionsSafe(Framed(chars).lines, e9Affected);
  }

  /** A stimulus that drives its pin runs only from a line whose first `assert_undriven` field is true. */
  lemma {:induction false} DrivesOnlyWhenAsserted(text: string, e9Affected: bool, cmd: Command)
    requires cmd in ExecutedBy(text, e9Affected)
    requires cmd.kind in {Ws2812, Dshot, Pwm, UartTx, SpiTx}
    ensures GetBool(text, "assert_undriven") == Some(true)
  {
    hide Parse, GetBool, CString;
    AnswerExactly(text, e9Affected);
  }
}
