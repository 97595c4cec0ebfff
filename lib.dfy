/**
 * The parsing library (`rustparse`): a diagnostics emitter that keeps only
 * error-or-worse diagnostics, the three-way classification of a parse, and
 * `parse_source`, which joins the parser's two failure channels into one
 * result.
 */
module Lib {
  import opened Wrappers
  import opened Rustc

  /** The severities the emitter keeps: Bug, Fatal, PhaseFatal and Error. */
  predicate IsErrorLevel(l: Level) {
    l.Bug? || l.Fatal? || l.PhaseFatal? || l.Error?
  }

  /**
   * The diagnostics an emitter holds after `ds` were emitted into an empty
   * one: the error-or-worse ones, in emission order, duplicates kept.
   */
  function Retained(ds: seq<Diagnostic>): (r: seq<Diagnostic>)
    ensures |r| <= |ds|
    ensures forall i :: 0 <= i < |r| ==> IsErrorLevel(r[i].level)
    ensures forall d :: d in r <==> d in ds && IsErrorLevel(d.level)
  {
    if ds == [] then []
    else
      assert ds == [ds[0]] + ds[1..];
      if IsErrorLevel(ds[0].level) then [ds[0]] + Retained(ds[1..])
      else Retained(ds[1..])
  }

  /** Emitting `a` and then `b` keeps what `a` keeps followed by what `b` keeps. */
  lemma {:induction false} RetainedAppend(a: seq<Diagnostic>, b: seq<Diagnostic>)
    ensures Retained(a + b) == Retained(a) + Retained(b)
  {
    if a == [] {
      assert a + b == b;
    } else {
      assert (a + b)[0] == a[0];
      assert (a + b)[1..] == a[1..] + b;
      RetainedAppend(a[1..], b);
    }
  }

  /** A list of error-or-worse diagnostics passes the filter untouched. */
  lemma {:induction false} RetainedKeepsErrors(ds: seq<Diagnostic>)
    requires forall i :: 0 <= i < |ds| ==> IsErrorLevel(ds[i].level)
    ensures Retained(ds) == ds
  {
    if ds != [] {
      RetainedKeepsErrors(ds[1..]);
    }
  }

  /**
   * The emitter installed in the parse session's handler. Its list is owned
   * by one `parse_source` call.
   */
  class DiagnosticsEmitter {
    var diagnostics: seq<Diagnostic>

    constructor ()
      ensures diagnostics == []
    {
      diagnostics := [];
    }

    /** Appends `d` when it is error-or-worse; drops it otherwise. */
    method Emit(d: Diagnostic)
      modifies this
      ensures IsErrorLevel(d.level) ==> diagnostics == old(diagnostics) + [d]
      ensures !IsErrorLevel(d.level) ==> diagnostics == old(diagnostics)
      ensures diagnostics == old(diagnostics) + Retained([d])
    {
      match d.level
      case Bug | Fatal | PhaseFatal | Error =>
        diagnostics := diagnostics + [d];
      case _ =>
    }
  }

  /** Outcome of a parse. */
  datatype ParseStatus = Ok | Error | Fatal

  /** The token a status is serialised as. */
  function EncodeStatus(s: ParseStatus): (t: string)
    ensures DecodeStatus(t) == Some(s)
  {
    match s
    case Ok => "ok"
    case Error => "error"
    case Fatal => "fatal"
  }

  /** Reads a status token back; anything else is rejected. */
  function DecodeStatus(t: string): Option<ParseStatus> {
    if t == "ok" then Some(ParseStatus.Ok)
    else if t == "error" then Some(ParseStatus.Error)
    else if t == "fatal" then Some(ParseStatus.Fatal)
    else None
  }

  /** The only tokens read back are the three a status is written as. */
  lemma DecodeStatusExact(t: string, s: ParseStatus)
    ensures DecodeStatus(t) == Some(s) <==> EncodeStatus(s) == t
  {
  }

  /** Two statuses with the same token are the same status. */
  lemma EncodeStatusInjective(s: ParseStatus, s': ParseStatus)
    ensures EncodeStatus(s) == EncodeStatus(s') ==> s == s'
  {
    assert DecodeStatus(EncodeStatus(s)) == Some(s);
    assert DecodeStatus(EncodeStatus(s')) == Some(s');
  }

  /** A parse result: the crate, if one was built, its status and the kept diagnostics. */
  datatype ParsedAST = ParsedAST(ast: Option<Crate>, status: ParseStatus, errors: seq<Diagnostic>)

  /**
   * The classification invariant: `Ok` has a crate and no diagnostics,
   * `Error` has a crate and some diagnostics, `Fatal` has no crate.
   */
  predicate Classified(p: ParsedAST) {
    match p.status
    case Ok => p.ast.Some? && p.errors == []
    case Error => p.ast.Some? && p.errors != []
    case Fatal => p.ast.None?
  }

  /** `ParsedAST::new`: keeps the crate and the diagnostics, and classifies them. */
  function NewParsedAST(krate: Option<Crate>, errors: seq<Diagnostic>): (p: ParsedAST)
    ensures p.ast == krate && p.errors == errors
    ensures Classified(p)
  {
    ParsedAST(
      krate,
      match krate
      case Some(_) => if |errors| > 0 then ParseStatus.Error else ParseStatus.Ok
      case None => ParseStatus.Fatal,
      errors)
  }

  /** The crate and the diagnostics decide the status: there is one classification. */
  lemma ClassificationUnique(p: ParsedAST, q: ParsedAST)
    requires Classified(p) && Classified(q)
    requires p.ast == q.ast && p.errors == q.errors
    ensures p == q
  {
  }

  /** Everything the emitter sees in one attempt: the parser's emissions, then the forced abort diagnostic. */
  function Emissions(attempt: ParseAttempt): seq<Diagnostic> {
    match attempt
    case Parsed(_, emitted) => emitted
    case Aborted(emitted, abort) => emitted + [abort]
  }

  /** What `parse_source` returns for one attempt of the parser. */
  function Outcome(attempt: ParseAttempt): (p: ParsedAST)
    ensures Classified(p)
    ensures attempt.Parsed? ==> p.ast == Some(attempt.krate)
    ensures attempt.Aborted? ==> p.ast == None && p.status == ParseStatus.Fatal
    ensures p.errors == Retained(Emissions(attempt))
  {
    NewParsedAST(if attempt.Parsed? then Some(attempt.krate) else None, Retained(Emissions(attempt)))
  }

  /**
   * `parse_source`: runs the parser with a fresh emitter, which receives the
   * parser's diagnostics one by one as it emits them; on the abrupt path the
   * returned diagnostic is emitted into the same emitter before the result
   * is classified.
   */
  method ParseSource(parse: Parser, source: string) returns (p: ParsedAST)
    ensures p == Outcome(parse(source))
  {
    var emitter := new DiagnosticsEmitter();
    var attempt := parse(source);
    var emitted := attempt.emitted;
    var i := 0;
    while i < |emitted|
      invariant 0 <= i <= |emitted|
      invariant emitter.diagnostics == Retained(emitted[..i])
    {
      emitter.Emit(emitted[i]);
      assert emitted[..i + 1] == emitted[..i] + [emitted[i]];
      RetainedAppend(emitted[..i], [emitted[i]]);
      i := i + 1;
    }
    assert emitted[..i] == emitted;
    match attempt
    case Parsed(krate, _) =>
      assert Emissions(attempt) == emitted;
      p := NewParsedAST(Some(krate), emitter.diagnostics);
    case Aborted(_, abort) =>
      emitter.Emit(abort);
      RetainedAppend(emitted, [abort]);
      assert Emissions(attempt) == emitted + [abort];
      p := NewParsedAST(None, emitter.diagnostics);
  }

  /** Status of a parse in terms of the parser's behaviour, both directions. */
  lemma OutcomeStatus(attempt: ParseAttempt)
    ensures Outcome(attempt).status == ParseStatus.Ok
      <==> attempt.Parsed? && Retained(attempt.emitted) == []
    ensures Outcome(attempt).status == ParseStatus.Error
      <==> attempt.Parsed? && Retained(attempt.emitted) != []
    ensures Outcome(attempt).status == ParseStatus.Fatal <==> attempt.Aborted?
  {
  }

  /**
   * On the abrupt path the kept diagnostics are those the parser emitted
   * before failing, followed by the abort diagnostic when it is
   * error-or-worse.
   */
  lemma {:induction false} AbortedErrors(emitted: seq<Diagnostic>, abort: Diagnostic)
    ensures Outcome(Aborted(emitted, abort)).errors
      == Retained(emitted) + (if IsErrorLevel(abort.level) then [abort] else [])
    ensures IsErrorLevel(abort.level) ==> |Outcome(Aborted(emitted, abort)).errors| >= 1
  {
    RetainedAppend(emitted, [abort]);
  }

  /**
   * A single syntax error that stops the parser before anything else was
   * reported gives a fatal result with exactly that one diagnostic.
   */
  lemma SingleSyntaxError(emitted: seq<Diagnostic>, abort: Diagnostic)
    requires Retained(emitted) == []
    requires IsErrorLevel(abort.level)
    ensures Outcome(Aborted(emitted, abort)).status == ParseStatus.Fatal
    ensures Outcome(Aborted(emitted, abort)).ast == None
    ensures Outcome(Aborted(emitted, abort)).errors == [abort]
  {
    AbortedErrors(emitted, abort);
  }

  /**
   * When the crate is built, each emission wherever it occurs adds exactly
   * itself to the diagnostics if it is error-or-worse and nothing otherwise.
   */
  lemma {:induction false} ParsedErrorsCounted(krate: Crate, a: seq<Diagnostic>, d: Diagnostic, b: seq<Diagnostic>)
    ensures Outcome(Parsed(krate, a + [d] + b)).errors
      == Retained(a) + (if IsErrorLevel(d.level) then [d] else []) + Retained(b)
  {
    assert Retained([d]) == if IsErrorLevel(d.level) then [d] else [] by {
      assert [d][1..] == [];
    }
    RetainedAppend(a, [d]);
    RetainedAppend(a + [d], b);
  }

  /** A warning, note or help emitted anywhere leaves the result of a successful parse unchanged. */
  lemma ParsedWarningIgnored(krate: Crate, a: seq<Diagnostic>, d: Diagnostic, b: seq<Diagnostic>)
    requires !IsErrorLevel(d.level)
    ensures Outcome(Parsed(krate, a + [d] + b)) == Outcome(Parsed(krate, a + b))
  {
    ParsedErrorsCounted(krate, a, d, b);
    RetainedAppend(a, b);
    assert Retained(a) + [] == Retained(a);
    assert Retained(a + [d] + b) == Retained(a + b);
  }
}
