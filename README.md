# rust-driver: a Dafny model of the Rust parsing driver

The driver is a long-running process that reads one JSON request per line on
standard input, parses the Rust source text it carries with the compiler's
parser, and writes one JSON response per line: the crate (AST), the
error-or-worse diagnostics the parser reported, and a status `ok`, `error` or
`fatal`. The repository holds two variants of the driver loop, and the library
both of them use:

- `lib.dfy` (module `Lib`, `native/src/lib/lib.rs`): the diagnostics emitter,
  a class whose list `Emit` appends to only for the levels Bug, Fatal,
  PhaseFatal and Error; `ParsedAST::new`, which classifies a crate-or-none and
  a diagnostic list into `Ok`/`Error`/`Fatal`; the status tokens; and
  `parse_source`, a method that gives a fresh emitter the diagnostics the
  parser emits, one at a time, forces the abort diagnostic of the parser's
  `Err(d)` path into the same emitter, and classifies the result. It is proved
  against the function `Lib.Outcome`, and the filter against `Lib.Retained`.
- `extended.dfy` (module `ExtendedDriver`, `src/main.rs`): requests carry an
  `action` that must be `ParseAST`; every response carries the identity fields
  `Rust`, `1.0`, `parser-rust:1.0`; an empty read makes the loop pause and
  read again.
- `minimal.dfy` (module `MinimalDriver`, `native/src/main.rs`): requests carry
  only `content`; responses only the parse result; the first empty read ends
  the loop.
- `protocol.dfy` (module `Protocol`): what both loops share: the read events,
  the decode-failure message, the synthetic fatal diagnostic, and the request
  lines of a trace.
- `rustc.dfy` (module `Rustc`) and `wrappers.dfy` (module `Wrappers`): the
  compiler's data types (levels, styles, spans, diagnostics, the crate) and
  Rust's `Option` and `Result`.

The compiler's parser (`parse_crate_from_source_str`) is a function parameter
of type `Rustc.Parser`. For a source text it returns a `ParseAttempt`: the
diagnostics the parser emitted, in order, and then either the crate or the
abort diagnostic. The JSON decoder is a function parameter `Decoder` from a
line to an optional `ParseInput`. A missing `action` (extended variant) or a
missing `content` therefore counts as a decode failure. Each driver loop is a
method over a finite trace of reads (`ReadErr` or `Read(buf)`). It returns the
sequence of responses written, before serialisation. It is proved equal to
the function `Outputs`, and the lemmas are stated about that function.

Rust's `read_line` keeps the line terminator, so a read of length zero means
the end of input, and a blank line (`"\n"`) is a request line that fails to
decode. The extended loop therefore sleeps and reads again forever once input
has ended. The minimal loop returns at that point. The model follows the code
here: an empty read is the end of input in both variants, and it ends only the
minimal loop.

The model follows the code in three places where a reader might expect otherwise:
- A fatal result is guaranteed a diagnostic only when the abort diagnostic
  is error-or-worse. The emitter drops a Warning/Note/Help/Cancelled abort
  like any other diagnostic, and the result then holds only what the parser
  emitted earlier, possibly nothing (`Lib.AbortedErrors`).
- Diagnostic children are the compiler's `SubDiagnostic` records (level,
  message, span). They are not diagnostics of the same shape, and they are
  never filtered.
- The minimal variant has no `action` field at all, optional or not.

## Model

| member | source | states |
|---|---|---|
| `Lib.DiagnosticsEmitter.constructor` | native/src/lib/lib.rs:27-31 | a new emitter holds no diagnostics (the list `parse_source` creates at line 98 is empty) |
| `Lib.DiagnosticsEmitter.Emit` | native/src/lib/lib.rs:35-46 | an error-or-worse diagnostic is appended at the end of the list; any other level leaves the list unchanged |
| `Lib.Retained` | native/src/lib/lib.rs:37-44 | what an emitter keeps of an emission sequence: no longer than it, only error-or-worse entries, and a diagnostic is kept exactly when it was emitted and is error-or-worse |
| `Lib.RetainedAppend` | native/src/lib/lib.rs:42 | appending never reorders or drops earlier entries: what is kept of `a + b` is what is kept of `a` followed by what is kept of `b` |
| `Lib.RetainedKeepsErrors` | native/src/lib/lib.rs:37-43 | a sequence of only error-or-worse diagnostics is kept whole, duplicates included (no deduplication) |
| `Lib.EncodeStatus` | native/src/lib/lib.rs:68-76 | each status is written as a token that reads back as that status |
| `Lib.DecodeStatusExact` | native/src/lib/lib.rs:70-74 | the tokens are exactly `ok`, `error` and `fatal`, for `Ok`, `Error` and `Fatal` |
| `Lib.EncodeStatusInjective` | native/src/lib/lib.rs:70-74 | two statuses with the same token are equal |
| `Lib.NewParsedAST` | native/src/lib/lib.rs:79-92 | the crate and the diagnostic list are returned unchanged, and the status satisfies the classification invariant (`Ok`: crate and no diagnostics; `Error`: crate and some; `Fatal`: no crate, whatever the list) |
| `Lib.ClassificationUnique` | native/src/lib/lib.rs:82-89 | the crate and the diagnostics determine the status: two classified results that agree on both are equal |
| `Lib.Outcome` | native/src/lib/lib.rs:97-115 | the result of `parse_source` is classified; it has the parser's crate on the `Ok` path and no crate with status `Fatal` on the `Err` path; its diagnostics are the filtered emissions |
| `Lib.ParseSource` | native/src/lib/lib.rs:97-115 | feeding the parser's diagnostics one by one into a fresh emitter, then forcing the abort diagnostic, yields `Lib.Outcome` of the parser's attempt |
| `Lib.OutcomeStatus` | native/src/lib/lib.rs:104-113 | status is `Ok` iff the crate was built and nothing error-level was emitted, `Error` iff the crate was built and something was, `Fatal` iff the parser aborted |
| `Lib.AbortedErrors` | native/src/lib/lib.rs:109-113 | on the abrupt path the diagnostics are the earlier kept ones followed by the abort diagnostic if it is error-or-worse, so at least one in that case |
| `Lib.SingleSyntaxError` | native/src/lib/lib.rs:145-151 | one syntax error that aborts the parse, with nothing reported before it, gives status `Fatal`, no crate and exactly that one diagnostic |
| `Lib.ParsedErrorsCounted` | native/src/lib/lib.rs:105-107 | on a successful parse, an emission at any position adds exactly itself to the diagnostics if it is error-or-worse, and nothing otherwise |
| `Lib.ParsedWarningIgnored` | native/src/lib/lib.rs:37-44 | a warning-level emission anywhere leaves the result of a successful parse unchanged |
| `Protocol.Requests` | src/main.rs:102-117 | the request lines of a trace are its non-empty reads, in order, each non-empty |
| `Protocol.RequestsOne` | src/main.rs:104-113 | a single read is a request line exactly when it is a non-empty read |
| `Protocol.RequestsAppend` | src/main.rs:102-117 | request lines of consecutive traces come in trace order |
| `Protocol.RequestsBeforeEndCons` | native/src/main.rs:76-90 | a read that is not the end of input puts its request line, if any, before those of the later reads |
| `Protocol.AnswersAt` | src/main.rs:113-116 | answering request lines gives as many responses as lines, the k-th answering the k-th line |
| `Protocol.AnswersAppend` | src/main.rs:102-117 | answering consecutive groups of lines answers each group in turn |
| `Protocol.BeforeEnd` | native/src/main.rs:82-84 | the reads the minimal loop handles: a prefix of the trace with no empty read, followed in the trace by an empty read unless the trace is exhausted |
| `Protocol.BeforeEndCuts` | native/src/main.rs:82-84 | everything after the first empty read is cut off |
| `Protocol.FatalDiagnostic` | src/main.rs:64-70 | the synthetic diagnostic is Fatal (so error-level), has one message segment styled at the Fatal level whose text is the message, an empty span, no children and no code |
| `Protocol.FatalDiagnosticInjective` | native/src/main.rs:46-52 | different messages give different synthetic diagnostics |
| `ExtendedDriver.FromAst` | src/main.rs:50-59 | a parse response carries the parse result unchanged (projecting it back gives the same `ParsedAST`) and the identity fields |
| `ExtendedDriver.FromError` | src/main.rs:61-76 | an error response has status `Fatal` and no crate, exactly the one synthetic diagnostic for the message, and the identity fields |
| `ExtendedDriver.HandleRequest` | src/main.rs:84-97 | the request fails iff decoding fails or the action is not `ParseAST`; the message is `error decoding input from json` or `unknown action <action>`; otherwise the response is the identified parse result of the content |
| `ExtendedDriver.RejectionSkipsParser` | src/main.rs:85-94 | a rejected request does not depend on the parser: any parser gives the same answer |
| `ExtendedDriver.Respond` | src/main.rs:113-116 | the line written for a request is identified and classified; it is the `handle_request` response when that succeeds, and the error response for its message when it fails (`report_error`, lines 80-82) |
| `ExtendedDriver.AcceptedRequestAnswered` | src/main.rs:96 | a decodable `ParseAST` request is answered with the identified parse result of its own content |
| `ExtendedDriver.OutputsAnswerRequests` | src/main.rs:102-117 | the loop's output for any trace is exactly the answers to its request lines (its non-empty reads), one each, in read order |
| `ExtendedDriver.OutputsAppend` | src/main.rs:102-117 | responses of consecutive traces come in trace order |
| `ExtendedDriver.OutputsOne` | src/main.rs:104-116 | one read writes nothing on a read error or an empty read and one response otherwise |
| `ExtendedDriver.OutputsStep` | src/main.rs:102-117 | each iteration adds to the output only what its own read writes |
| `ExtendedDriver.Serve` | src/main.rs:99-118 | the loop over a trace writes exactly `Outputs` of that trace, that is, one response per request line in order (`ExtendedDriver.OutputsAnswerRequests`) |
| `ExtendedDriver.OutputsWellFormed` | src/main.rs:22-24 | every response written, success or error, carries `Rust`, `1.0`, `parser-rust:1.0` and satisfies the classification invariant |
| `ExtendedDriver.RejectedLineThenContinue` | src/main.rs:113-116 | an undecodable line or one with another action gets one fatal response, and the loop goes on with the rest of the trace |
| `ExtendedDriver.IdleReadThenContinue` | src/main.rs:104-111 | a failed or empty read writes nothing and the loop goes on |
| `MinimalDriver.FromAst` | native/src/main.rs:35-41 | a parse response carries the parse result unchanged |
| `MinimalDriver.FromError` | native/src/main.rs:43-55 | an error response has status `Fatal`, no crate, and exactly the one synthetic diagnostic for the message |
| `MinimalDriver.HandleRequest` | native/src/main.rs:62-71 | the request fails iff decoding fails, always with `error decoding input from json`; otherwise the response is the parse result of the content |
| `MinimalDriver.Respond` | native/src/main.rs:86-89 | the line written for a request is classified; it is the `handle_request` response when decoding succeeds, and the decode-error response when it fails |
| `MinimalDriver.AcceptedRequestAnswered` | native/src/main.rs:70 | a decodable request is answered with the parse result of its own content |
| `MinimalDriver.OutputsAnswerRequests` | native/src/main.rs:73-91 | the loop's output for any trace is exactly the answers to the request lines read before the first empty read, one each, in read order |
| `MinimalDriver.OutputsAppend` | native/src/main.rs:76-90 | before the end of input, responses of consecutive traces come in trace order |
| `MinimalDriver.StopsAtEnd` | native/src/main.rs:82-84 | nothing read after the first empty read is answered |
| `MinimalDriver.OutputsOne` | native/src/main.rs:78-89 | a read error writes nothing; a non-empty line writes its one response |
| `MinimalDriver.OutputsStep` | native/src/main.rs:76-90 | before the end of input, each iteration adds to the output only what its own read writes |
| `MinimalDriver.Serve` | native/src/main.rs:73-91 | the loop writes exactly `Outputs` of the trace (one response per request line before the first empty read, `MinimalDriver.OutputsAnswerRequests`), and it stops early iff the trace contains an empty read |
| `MinimalDriver.OutputsWellFormed` | native/src/main.rs:86-89 | every response written satisfies the classification invariant |
| `MinimalDriver.UndecodableLineThenContinue` | native/src/main.rs:62-68 | an undecodable line gets the one fatal decode-error response, and the loop goes on |
| `MinimalDriver.ReadErrorThenContinue` | native/src/main.rs:78-80 | a failed read writes nothing and the loop goes on |

## Left out

- The compiler's parser, `ParseSess`, `Handler` and `CodeMap` are not modelled inside. The parser is a function parameter, and the handler is assumed to pass every emitted diagnostic to the emitter; its flags (`can_emit_warnings`, `treat_err_as_bug`) and error counting are not modelled.
- JSON decoding and serialisation (`json::decode`, `as_json`) are not modelled. Decoding is a function parameter. Responses are kept as values, so the one-line framing of the output is not proved.
- The AST schema: a crate is modelled as the names of its top-level items only.
- `SubDiagnostic`'s `render_span` is not modelled.
- The `Rc<RefCell<…>>` sharing of the diagnostic list: the list is a field of one emitter object owned by one `ParseSource` call.
- The 500 ms sleep after an empty read in `src/main.rs`: modelled as "no output, read again".
- Standard-input locking and blocking reads: reads are a finite trace. The extended loop has no `return`; the model ends it when the trace runs out.
- The parser emitting diagnostics through callbacks while it runs: `Lib.ParseSource` replays the emission sequence the parser reports, in order, after the parser returns. The result is the same, because nothing else touches the list in between.
- Writes are assumed to succeed. Every response is written with `println!` (src/main.rs:81, 114; native/src/main.rs:59, 87), which panics when standard output cannot be written. That ends the process; this exit path is not modelled.
- `Rustc.Parser` is assumed to return. The compiler's parser can also raise some errors (an unbalanced delimiter, an unterminated literal) as a panic instead of returning `Err` from `parse_crate_from_source_str` (native/src/lib/lib.rs:103). Neither driver catches a panic, so in the source such a request ends the process without an answer. The model's parser always returns a `ParseAttempt`, so `ExtendedDriver.Serve` and `MinimalDriver.Serve` answer every request line only for parses that return.
- `driver/main.go` is not part of this model: it prints build information and checks that the native binary exists.
