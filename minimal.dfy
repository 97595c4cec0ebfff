/**
 * The minimal driver (`native/src/main.rs`): requests carry only the
 * source text, responses only the parse result, and the first empty read
 * (the end of input) ends the driver.
 */
module MinimalDriver {
  import opened Wrappers
  import opened Rustc
  import Lib
  import opened Protocol

  /** A decoded request line; `content` is required by the decoder. */
  datatype ParseInput = ParseInput(content: string)

  /** The JSON decoder, which the model does not look inside. */
  type Decoder = string -> Option<ParseInput>

  /** One response line, before it is serialised. */
  datatype ParseOutput = ParseOutput(ast: Option<Crate>, errors: seq<Diagnostic>, status: Lib.ParseStatus)

  /** The parse result a response carries. */
  function Summary(o: ParseOutput): Lib.ParsedAST {
    Lib.ParsedAST(o.ast, o.status, o.errors)
  }

  /** A response for a parse: the parse result unchanged. */
  function FromAst(p: Lib.ParsedAST): (o: ParseOutput)
    ensures Summary(o) == p
  {
    ParseOutput(p.ast, p.errors, p.status)
  }

  /** A response for a rejected request: fatal, no crate, one diagnostic carrying `msg`. */
  function FromError(msg: string): (o: ParseOutput)
    ensures o.status == Lib.ParseStatus.Fatal && Lib.Classified(Summary(o))
    ensures o.errors == [FatalDiagnostic(msg)]
  {
    ParseOutput(None, [FatalDiagnostic(msg)], Lib.ParseStatus.Fatal)
  }

  /** `handle_request`: decodes the line and parses its content; only decoding can fail. */
  function HandleRequest(decode: Decoder, parse: Parser, line: string): (r: Result<ParseOutput, string>)
    ensures r.Err? <==> decode(line).None?
    ensures r.Err? ==> r.error == ERR_DECODE
    ensures r.Ok? ==> Summary(r.value) == Lib.Outcome(parse(decode(line).value.content))
  {
    match decode(line)
    case None => Err(ERR_DECODE)
    case Some(input) => Ok(FromAst(Lib.Outcome(parse(input.content))))
  }

  /** The one line written for a request: the response, or the error turned into a response. */
  function Respond(decode: Decoder, parse: Parser, line: string): (o: ParseOutput)
    ensures Lib.Classified(Summary(o))
    ensures decode(line).None? ==> o == FromError(ERR_DECODE)
    ensures HandleRequest(decode, parse, line).Ok? ==> o == HandleRequest(decode, parse, line).value
  {
    match HandleRequest(decode, parse, line)
    case Ok(output) => output
    case Err(err) => FromError(err)
  }

  /** A decodable request is answered with the parse result of its own content. */
  lemma AcceptedRequestAnswered(decode: Decoder, parse: Parser, line: string, input: ParseInput)
    requires decode(line) == Some(input)
    ensures Summary(Respond(decode, parse, line)) == Lib.Outcome(parse(input.content))
  {
  }

  /** The driver's answer to each request line, as a function of the line. */
  function Responder(decode: Decoder, parse: Parser): string -> ParseOutput {
    line => Respond(decode, parse, line)
  }

  /** What one read that is not the end of input writes: nothing for a read error, one response otherwise. */
  function StepOutput(decode: Decoder, parse: Parser, event: ReadEvent): seq<ParseOutput> {
    if event.ReadErr? then [] else [Respond(decode, parse, event.buf)]
  }

  /** Everything the driver writes for a trace of reads, up to the first end of input. */
  function Outputs(decode: Decoder, parse: Parser, events: seq<ReadEvent>): seq<ParseOutput> {
    if events == [] || EndsInput(events[0]) then []
    else StepOutput(decode, parse, events[0]) + Outputs(decode, parse, events[1..])
  }

  /**
   * One response per request line read before the end of input, in order:
   * the k-th response answers the k-th such line.
   */
  lemma {:induction false} OutputsAnswerRequests(decode: Decoder, parse: Parser, events: seq<ReadEvent>)
    ensures Outputs(decode, parse, events) == Answers(Responder(decode, parse), Requests(BeforeEnd(events)))
  {
    if events != [] && !EndsInput(events[0]) {
      OutputsAnswerRequests(decode, parse, events[1..]);
      RequestsBeforeEndCons(events);
      RequestsOne(events[0]);
      AnswersAppend(Responder(decode, parse), Requests([events[0]]), Requests(BeforeEnd(events[1..])));
      assert Answers(Responder(decode, parse), Requests([events[0]])) == StepOutput(decode, parse, events[0]);
    }
  }

  /** Before the end of input, the output of consecutive traces is the concatenation of their outputs. */
  lemma {:induction false} OutputsAppend(decode: Decoder, parse: Parser, a: seq<ReadEvent>, b: seq<ReadEvent>)
    requires forall i :: 0 <= i < |a| ==> !EndsInput(a[i])
    ensures Outputs(decode, parse, a + b) == Outputs(decode, parse, a) + Outputs(decode, parse, b)
  {
    if a == [] {
      assert a + b == b;
    } else {
      assert (a + b)[0] == a[0];
      assert (a + b)[1..] == a[1..] + b;
      OutputsAppend(decode, parse, a[1..], b);
    }
  }

  /** Nothing read after the first end of input is answered. */
  lemma {:induction false} StopsAtEnd(decode: Decoder, parse: Parser, pre: seq<ReadEvent>, post: seq<ReadEvent>)
    requires forall i :: 0 <= i < |pre| ==> !EndsInput(pre[i])
    ensures Outputs(decode, parse, pre + [Read("")] + post) == Outputs(decode, parse, pre)
  {
    assert pre + [Read("")] + post == pre + ([Read("")] + post);
    OutputsAppend(decode, parse, pre, [Read("")] + post);
    assert ([Read("")] + post)[0] == Read("");
  }

  /** The output of a single read that is not the end of input. */
  lemma OutputsOne(decode: Decoder, parse: Parser, event: ReadEvent)
    requires !EndsInput(event)
    ensures Outputs(decode, parse, [event]) == StepOutput(decode, parse, event)
  {
    assert [event][1..] == [];
  }

  /** The output grows by one read at a time while the end of input has not been read. */
  lemma OutputsStep(decode: Decoder, parse: Parser, events: seq<ReadEvent>, i: nat)
    requires i < |events|
    requires forall j :: 0 <= j <= i ==> !EndsInput(events[j])
    ensures Outputs(decode, parse, events[..i + 1])
      == Outputs(decode, parse, events[..i]) + StepOutput(decode, parse, events[i])
  {
    var pre, event := events[..i], events[i];
    assert forall j :: 0 <= j < |pre| ==> !EndsInput(pre[j]);
    assert events[..i + 1] == pre + [event];
    OutputsAppend(decode, parse, pre, [event]);
    OutputsOne(decode, parse, event);
  }

  /**
   * `main`: reads until the first empty read, which returns; a failed read
   * writes nothing and the loop goes on; every other line is answered with
   * one response. `stopped` tells whether the end of input was read.
   */
  method Serve(decode: Decoder, parse: Parser, events: seq<ReadEvent>) returns (out: seq<ParseOutput>, stopped: bool)
    ensures out == Outputs(decode, parse, events)
    ensures stopped <==> exists i :: 0 <= i < |events| && EndsInput(events[i])
  {
    out := [];
    var i := 0;
    while i < |events|
      invariant 0 <= i <= |events|
      invariant forall j :: 0 <= j < i ==> !EndsInput(events[j])
      invariant out == Outputs(decode, parse, events[..i])
    {
      var event := events[i];
      if EndsInput(event) {
        assert events == events[..i] + [Read("")] + events[i + 1..];
        StopsAtEnd(decode, parse, events[..i], events[i + 1..]);
        return out, true;
      }
      OutputsStep(decode, parse, events, i);
      i := i + 1;
      if event.ReadErr? {
        continue;
      }
      match HandleRequest(decode, parse, event.buf)
      case Ok(output) =>
        out := out + [output];
      case Err(err) =>
        out := out + [FromError(err)];
    }
    assert events[..i] == events;
    return out, false;
  }

  /** Every response, for whatever input, is correctly classified. */
  lemma OutputsWellFormed(decode: Decoder, parse: Parser, events: seq<ReadEvent>)
    ensures forall o :: o in Outputs(decode, parse, events) ==> Lib.Classified(Summary(o))
  {
    var out := Outputs(decode, parse, events);
    OutputsAnswerRequests(decode, parse, events);
    forall o | o in out
      ensures Lib.Classified(Summary(o))
    {
      var k :| 0 <= k < |out| && out[k] == o;
      AnswersAt(Responder(decode, parse), Requests(BeforeEnd(events)), k);
    }
  }

  /**
   * A line that cannot be decoded is answered with a fatal response and the
   * driver goes on serving what follows.
   */
  lemma {:induction false} UndecodableLineThenContinue(decode: Decoder, parse: Parser, line: string, rest: seq<ReadEvent>)
    requires line != [] && decode(line).None?
    ensures Outputs(decode, parse, [Read(line)] + rest) == [FromError(ERR_DECODE)] + Outputs(decode, parse, rest)
  {
    assert ([Read(line)] + rest)[0] == Read(line);
    assert ([Read(line)] + rest)[1..] == rest;
  }

  /** A failed read writes nothing and the driver goes on with the next read. */
  lemma {:induction false} ReadErrorThenContinue(decode: Decoder, parse: Parser, rest: seq<ReadEvent>)
    ensures Outputs(decode, parse, [ReadErr] + rest) == Outputs(decode, parse, rest)
  {
    assert ([ReadErr] + rest)[0] == ReadErr;
    assert ([ReadErr] + rest)[1..] == rest;
  }
}
