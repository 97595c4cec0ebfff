/**
 * The extended driver (`src/main.rs`): requests name an action and
 * responses carry the driver's identity; an empty read means no input yet,
 * so the driver sleeps and reads again.
 */
module ExtendedDriver {
  import opened Wrappers
  import opened Rustc
  import Lib
  import opened Protocol

  const LANGUAGE: string := "Rust"
  const LANGUAGE_VERSION: string := "1.0"
  const DRIVER: string := "parser-rust:1.0"
  const PARSE_ACTION: string := "ParseAST"

  /** A decoded request line; `action` and `content` are required by the decoder. */
  datatype ParseInput = ParseInput(
    action: string,
    language: Option<string>,
    languageVersion: Option<string>,
    content: string)

  /** The JSON decoder, which the model does not look inside. */
  type Decoder = string -> Option<ParseInput>

  /** One response line, before it is serialised. */
  datatype ParseOutput = ParseOutput(
    ast: Option<Crate>,
    errors: seq<Diagnostic>,
    status: Lib.ParseStatus,
    language: string,
    languageVersion: string,
    driver: string)

  /** The parse result a response carries, without the identity fields. */
  function Summary(o: ParseOutput): Lib.ParsedAST {
    Lib.ParsedAST(o.ast, o.status, o.errors)
  }

  /** The response names this language, its version and this driver. */
  predicate Identified(o: ParseOutput) {
    o.language == LANGUAGE && o.languageVersion == LANGUAGE_VERSION && o.driver == DRIVER
  }

  /** A response for a parse: the parse result unchanged, plus the identity fields. */
  function FromAst(p: Lib.ParsedAST): (o: ParseOutput)
    ensures Summary(o) == p
    ensures Identified(o)
  {
    ParseOutput(p.ast, p.errors, p.status, LANGUAGE, LANGUAGE_VERSION, DRIVER)
  }

  /** A response for a rejected request: fatal, no crate, one diagnostic carrying `msg`. */
  function FromError(msg: string): (o: ParseOutput)
    ensures Identified(o)
    ensures o.status == Lib.ParseStatus.Fatal && Lib.Classified(Summary(o))
    ensures o.errors == [FatalDiagnostic(msg)]
  {
    ParseOutput(None, [FatalDiagnostic(msg)], Lib.ParseStatus.Fatal, LANGUAGE, LANGUAGE_VERSION, DRIVER)
  }

  /**
   * `handle_request`: decodes the line, rejects any action other than
   * `ParseAST`, and otherwise parses the content.
   */
  function HandleRequest(decode: Decoder, parse: Parser, line: string): (r: Result<ParseOutput, string>)
    ensures r.Err? <==> decode(line).None? || decode(line).value.action != PARSE_ACTION
    ensures decode(line).None? ==> r == Err(ERR_DECODE)
    ensures decode(line).Some? && decode(line).value.action != PARSE_ACTION
      ==> r == Err("unknown action " + decode(line).value.action)
    ensures r.Ok? ==> Identified(r.value)
    ensures r.Ok? ==> Summary(r.value) == Lib.Outcome(parse(decode(line).value.content))
  {
    match decode(line)
    case None => Err(ERR_DECODE)
    case Some(input) =>
      if input.action != PARSE_ACTION then Err("unknown action " + input.action)
      else Ok(FromAst(Lib.Outcome(parse(input.content))))
  }

  /** A rejected request does not reach the parser: any parser gives the same answer. */
  lemma RejectionSkipsParser(decode: Decoder, parse: Parser, parse': Parser, line: string)
    requires HandleRequest(decode, parse, line).Err?
    ensures HandleRequest(decode, parse', line) == HandleRequest(decode, parse, line)
  {
  }

  /** The one line written for a request: the response, or the error turned into a response. */
  function Respond(decode: Decoder, parse: Parser, line: string): (o: ParseOutput)
    ensures Identified(o) && Lib.Classified(Summary(o))
    ensures HandleRequest(decode, parse, line).Err? ==> o == FromError(HandleRequest(decode, parse, line).error)
    ensures HandleRequest(decode, parse, line).Ok? ==> o == HandleRequest(decode, parse, line).value
  {
    match HandleRequest(decode, parse, line)
    case Ok(output) => output
    case Err(err) => FromError(err)
  }

  /** A decodable `ParseAST` request is answered with the identified parse result of its own content. */
  lemma AcceptedRequestAnswered(decode: Decoder, parse: Parser, line: string, input: ParseInput)
    requires decode(line) == Some(input) && input.action == PARSE_ACTION
    ensures Summary(Respond(decode, parse, line)) == Lib.Outcome(parse(input.content))
    ensures Identified(Respond(decode, parse, line))
  {
  }

  /** The driver's answer to each request line, as a function of the line. */
  function Responder(decode: Decoder, parse: Parser): string -> ParseOutput {
    line => Respond(decode, parse, line)
  }

  /** What one read writes: nothing for a read error or an empty read, one response otherwise. */
  function StepOutput(decode: Decoder, parse: Parser, event: ReadEvent): seq<ParseOutput> {
    match event
    case ReadErr => []
    case Read(line) => if |line| == 0 then [] else [Respond(decode, parse, line)]
  }

  /** Everything the driver writes for a trace of reads, one read after the other. */
  function Outputs(decode: Decoder, parse: Parser, events: seq<ReadEvent>): seq<ParseOutput> {
    if events == [] then []
    else StepOutput(decode, parse, events[0]) + Outputs(decode, parse, events[1..])
  }

  /**
   * Exactly one response per request line, in the order the lines were
   * read: the k-th response answers the k-th request line.
   */
  lemma {:induction false} OutputsAnswerRequests(decode: Decoder, parse: Parser, events: seq<ReadEvent>)
    ensures Outputs(decode, parse, events) == Answers(Responder(decode, parse), Requests(events))
  {
    if events != [] {
      OutputsAnswerRequests(decode, parse, events[1..]);
      assert events == [events[0]] + events[1..];
      RequestsAppend([events[0]], events[1..]);
      RequestsOne(events[0]);
      AnswersAppend(Responder(decode, parse), Requests([events[0]]), Requests(events[1..]));
      assert Answers(Responder(decode, parse), Requests([events[0]])) == StepOutput(decode, parse, events[0]);
    }
  }

  /** The output of consecutive traces is the concatenation of their outputs. */
  lemma {:induction false} OutputsAppend(decode: Decoder, parse: Parser, a: seq<ReadEvent>, b: seq<ReadEvent>)
    ensures Outputs(decode, parse, a + b) == Outputs(decode, parse, a) + Outputs(decode, parse, b)
  {
    if a == [] {
      assert a + b == b;
    } else {
      assert (a + b)[0] == a[0];
      assert (a + b)[1..] == a[1..] + b;
      OutputsAppend(decode, parse, a[1..], b);
    }
  }

  /** The output of a single read is what that read writes. */
  lemma OutputsOne(decode: Decoder, parse: Parser, event: ReadEvent)
    ensures Outputs(decode, parse, [event]) == StepOutput(decode, parse, event)
  {
    assert [event][1..] == [];
  }

  /** The output grows by one read at a time. */
  lemma OutputsStep(decode: Decoder, parse: Parser, events: seq<ReadEvent>, i: nat)
    requires i < |events|
    ensures Outputs(decode, parse, events[..i + 1])
      == Outputs(decode, parse, events[..i]) + StepOutput(decode, parse, events[i])
  {
    var pre, event := events[..i], events[i];
    assert events[..i + 1] == pre + [event];
    OutputsAppend(decode, parse, pre, [event]);
    OutputsOne(decode, parse, event);
  }

  /**
   * `main`: reads forever; a failed or empty read writes nothing and the
   * loop goes on (after a pause, for the empty read); every other line is
   * answered with one response. The trace stands for the reads made before
   * the process is stopped.
   */
  method Serve(decode: Decoder, parse: Parser, events: seq<ReadEvent>) returns (out: seq<ParseOutput>)
    ensures out == Outputs(decode, parse, events)
  {
    out := [];
    var i := 0;
    while i < |events|
      invariant 0 <= i <= |events|
      invariant out == Outputs(decode, parse, events[..i])
    {
      var event := events[i];
      OutputsStep(decode, parse, events, i);
      i := i + 1;
      if event.ReadErr? {
        continue;
      }
      var line := event.buf;
      if |line| == 0 {
        // the driver sleeps before reading again
        continue;
      }
      match HandleRequest(decode, parse, line)
      case Ok(output) =>
        out := out + [output];
      case Err(err) =>
        out := out + [FromError(err)];
    }
    assert events[..i] == events;
  }

  /** Every response, for whatever input, is identified and correctly classified. */
  lemma OutputsWellFormed(decode: Decoder, parse: Parser, events: seq<ReadEvent>)
    ensures forall o :: o in Outputs(decode, parse, events) ==> Identified(o) && Lib.Classified(Summary(o))
  {
    var out := Outputs(decode, parse, events);
    OutputsAnswerRequests(decode, parse, events);
    forall o | o in out
      ensures Identified(o) && Lib.Classified(Summary(o))
    {
      var k :| 0 <= k < |out| && out[k] == o;
      AnswersAt(Responder(decode, parse), Requests(events), k);
    }
  }

  /**
   * A line that cannot be decoded, or names another action, is answered
   * with a fatal response and the driver goes on serving what follows.
   */
  lemma {:induction false} RejectedLineThenContinue(decode: Decoder, parse: Parser, line: string, rest: seq<ReadEvent>)
    requires line != []
    requires decode(line).None? || decode(line).value.action != PARSE_ACTION
    ensures Outputs(decode, parse, [Read(line)] + rest)
      == [FromError(HandleRequest(decode, parse, line).error)] + Outputs(decode, parse, rest)
    ensures Outputs(decode, parse, [Read(line)] + rest)[0].status == Lib.ParseStatus.Fatal
  {
    assert ([Read(line)] + rest)[0] == Read(line);
    assert ([Read(line)] + rest)[1..] == rest;
  }

  /** A failed or empty read writes nothing and the driver goes on with the next read. */
  lemma {:induction false} IdleReadThenContinue(decode: Decoder, parse: Parser, event: ReadEvent, rest: seq<ReadEvent>)
    requires event.ReadErr? || EndsInput(event)
    ensures Outputs(decode, parse, [event] + rest) == Outputs(decode, parse, rest)
  {
    assert ([event] + rest)[0] == event;
    assert ([event] + rest)[1..] == rest;
  }
}
