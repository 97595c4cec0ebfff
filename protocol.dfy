/**
 * What both drivers share: the reads they make on standard input, the
 * message of a line that cannot be decoded, and the single fatal diagnostic
 * a rejected request is answered with.
 */
module Protocol {
  import opened Wrappers
  import opened Rustc
  import Lib

  /** Message of a request line that is not the expected JSON object. */
  const ERR_DECODE: string := "error decoding input from json"

  /**
   * One `read_line` on standard input: an I/O error, or the text read with
   * its line terminator, which is empty only at the end of input.
   */
  datatype ReadEvent = ReadErr | Read(buf: string)

  /** A read that returned nothing: the end of input. */
  predicate EndsInput(e: ReadEvent) {
    e.Read? && |e.buf| == 0
  }

  /** The request lines of a trace of reads, in order: every non-empty read. */
  function Requests(events: seq<ReadEvent>): (lines: seq<string>)
    ensures |lines| <= |events|
    ensures forall k :: 0 <= k < |lines| ==> lines[k] != []
    ensures forall line :: line in lines <==> Read(line) in events && line != []
  {
    if events == [] then []
    else
      assert events == [events[0]] + events[1..];
      match events[0]
      case ReadErr => Requests(events[1..])
      case Read(buf) => (if |buf| == 0 then [] else [buf]) + Requests(events[1..])
  }

  /** A single read is a request line exactly when it is a non-empty read. */
  lemma RequestsOne(e: ReadEvent)
    ensures Requests([e]) == if e.Read? && e.buf != [] then [e.buf] else []
  {
    assert [e][1..] == [];
  }

  /** Requests of consecutive traces come out in trace order. */
  lemma {:induction false} RequestsAppend(a: seq<ReadEvent>, b: seq<ReadEvent>)
    ensures Requests(a + b) == Requests(a) + Requests(b)
  {
    if a == [] {
      assert a + b == b;
    } else {
      assert (a + b)[0] == a[0];
      assert (a + b)[1..] == a[1..] + b;
      RequestsAppend(a[1..], b);
    }
  }

  /** The responses to a sequence of request lines, one each, in order. */
  function Answers<O>(respond: string -> O, lines: seq<string>): seq<O> {
    if lines == [] then [] else [respond(lines[0])] + Answers(respond, lines[1..])
  }

  /** The k-th response answers the k-th request line, and there are as many responses as lines. */
  lemma {:induction false} AnswersAt<O>(respond: string -> O, lines: seq<string>, k: nat)
    ensures |Answers(respond, lines)| == |lines|
    ensures k < |lines| ==> Answers(respond, lines)[k] == respond(lines[k])
  {
    if lines != [] {
      AnswersAt(respond, lines[1..], if k > 0 then k - 1 else 0);
    }
  }

  /** Answering consecutive request lines answers each part in turn. */
  lemma {:induction false} AnswersAppend<O>(respond: string -> O, a: seq<string>, b: seq<string>)
    ensures Answers(respond, a + b) == Answers(respond, a) + Answers(respond, b)
  {
    if a == [] {
      assert a + b == b;
    } else {
      assert (a + b)[0] == a[0];
      assert (a + b)[1..] == a[1..] + b;
      AnswersAppend(respond, a[1..], b);
    }
  }

  /** The reads up to, and not including, the first end of input. */
  function BeforeEnd(events: seq<ReadEvent>): (pre: seq<ReadEvent>)
    ensures pre <= events
    ensures forall i :: 0 <= i < |pre| ==> !EndsInput(pre[i])
    ensures |pre| < |events| ==> EndsInput(events[|pre|])
  {
    if events == [] || EndsInput(events[0]) then []
    else [events[0]] + BeforeEnd(events[1..])
  }

  /** Whatever follows the first end of input is cut off. */
  lemma {:induction false} BeforeEndCuts(pre: seq<ReadEvent>, post: seq<ReadEvent>)
    requires forall i :: 0 <= i < |pre| ==> !EndsInput(pre[i])
    ensures BeforeEnd(pre + [Read("")] + post) == pre
  {
    if pre != [] {
      assert (pre + [Read("")] + post)[1..] == pre[1..] + [Read("")] + post;
      BeforeEndCuts(pre[1..], post);
    }
  }

  /** A read that is not the end of input adds its request, if any, in front of the later ones. */
  lemma RequestsBeforeEndCons(events: seq<ReadEvent>)
    requires events != [] && !EndsInput(events[0])
    ensures Requests(BeforeEnd(events)) == Requests([events[0]]) + Requests(BeforeEnd(events[1..]))
  {
    assert BeforeEnd(events) == [events[0]] + BeforeEnd(events[1..]);
    RequestsAppend([events[0]], BeforeEnd(events[1..]));
  }

  /** The text of a diagnostic's message: its segments joined. */
  function MessageText(message: seq<(string, Style)>): string {
    if message == [] then [] else message[0].0 + MessageText(message[1..])
  }

  /**
   * The diagnostic a rejected request is answered with: fatal, the message
   * as its one segment, styled at the fatal level, no span, no children, no
   * code.
   */
  function FatalDiagnostic(msg: string): (d: Diagnostic)
    ensures d.level == Level.Fatal && Lib.IsErrorLevel(d.level)
    ensures |d.message| == 1 && d.message[0].1 == LevelStyle(Level.Fatal)
    ensures MessageText(d.message) == msg
    ensures d.span == EmptySpan && d.children == [] && d.code == None
  {
    Diagnostic(Level.Fatal, [(msg, LevelStyle(Level.Fatal))], EmptySpan, [], None)
  }

  /** Distinct messages give distinct diagnostics. */
  lemma FatalDiagnosticInjective(m: string, m': string)
    requires FatalDiagnostic(m) == FatalDiagnostic(m')
    ensures m == m'
  {
    assert MessageText(FatalDiagnostic(m).message) == m;
  }
}
