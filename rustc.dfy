/**
 * The compiler types the driver handles without looking inside them:
 * diagnostics (from `rustc_errors`), source spans (from `syntax_pos`),
 * the parsed crate (from `syntax::ast`), and the two ways the compiler's
 * parser can finish.
 */
module Rustc {
  import opened Wrappers

  /** Severity of a diagnostic (`rustc_errors::Level`). */
  datatype Level = Bug | Fatal | PhaseFatal | Error | Warning | Note | Help | Cancelled

  /** How one message segment is rendered (`rustc_errors::snippet::Style`). */
  datatype Style =
    | MainHeaderMsg | HeaderMsg | LineAndColumn | LineNumber | Quotation
    | UnderlinePrimary | UnderlineSecondary | LabelPrimary | LabelSecondary
    | OldSchoolNoteText | NoStyle
    | LevelStyle(level: Level)

  /** A byte range of the source text. */
  datatype Span = Span(lo: nat, hi: nat)

  /** Zero or more primary spans, plus labelled spans (`syntax_pos::MultiSpan`). */
  datatype MultiSpan = MultiSpan(primarySpans: seq<Span>, spanLabels: seq<(Span, string)>)

  /** `MultiSpan::new()`: a diagnostic that points nowhere. */
  const EmptySpan: MultiSpan := MultiSpan([], [])

  /** A note or help attached to a diagnostic; never filtered on its own. */
  datatype SubDiagnostic = SubDiagnostic(level: Level, message: seq<(string, Style)>, span: MultiSpan)

  /** One reported problem (`rustc_errors::diagnostic::Diagnostic`). */
  datatype Diagnostic = Diagnostic(
    level: Level,
    message: seq<(string, Style)>,
    span: MultiSpan,
    children: seq<SubDiagnostic>,
    code: Option<string>)

  /** The parsed crate; only the names of its top-level items are kept. */
  datatype Item = Item(ident: string)
  datatype Crate = Crate(items: seq<Item>)

  /**
   * What `parse_crate_from_source_str` does with one source text: the
   * diagnostics it emitted through the session's handler, in order, and then
   * either the crate (`Ok(krate)`) or the diagnostic of its abrupt failure
   * (`Err(d)`), which it hands back unemitted.
   */
  datatype ParseAttempt =
    | Parsed(krate: Crate, emitted: seq<Diagnostic>)
    | Aborted(emitted: seq<Diagnostic>, abort: Diagnostic)

  /** The compiler's parser, which the model does not look inside. */
  type Parser = string -> ParseAttempt
}
