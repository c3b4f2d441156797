/** What a native run reports of its two streams, once its process has ended. */
module BrokerRunner {
  import opened ByteStrings
  import opened RedactionSpec
  import opened BrokerOutput
  import Redaction
  import Utf8

  datatype Report = Report(stdout: Bytes, stderr: Bytes, outputDiscarded: bool)

  /** May be stored and shown: no secret, no longer than what was captured, and plain unless some secret is not UTF-8. */
  ghost predicate Shown(patterns: seq<Bytes>, captured: Bytes, text: Bytes) {
    && text == Safe(patterns, captured)
    && PatternFree(patterns, text)
    && |text| <= |captured|
    && ((forall x :: x in patterns ==> Utf8.Valid(x)) ==> Plain(text))
  }

  /**
   Reports both streams only when no limit was exceeded, and nothing of either otherwise. Each is redacted, made safe to
   show, and redacted again by the automaton, so that whatever the process wrote, the text holds no secret.
   */
  method ReportOutput(collector: Collector, filter: Redaction.Filter) returns (report: Report)
    requires collector.Valid() && filter.nodes != [] && filter.Valid()
    modifies collector
    ensures report.outputDiscarded == old(collector.Exceeded())
    ensures report.outputDiscarded ==> report.stdout == [] && report.stderr == []
    ensures !report.outputDiscarded ==>
              && Shown(filter.patterns, old(collector.allStdout), report.stdout)
              && Shown(filter.patterns, old(collector.allStderr), report.stderr)
    ensures collector.stdout == [] && collector.stderr == []
  {
    var stdout, stderr, overflowed := collector.Take();
    if overflowed {
      return Report([], [], true);
    }
    var redactedStdout := filter.Bytes(stdout);
    var redactedStderr := filter.Bytes(stderr);
    var sanitizedStdout := SanitizeOutput(redactedStdout);
    var sanitizedStderr := SanitizeOutput(redactedStderr);
    var finalStdout := filter.Bytes(sanitizedStdout);
    var finalStderr := filter.Bytes(sanitizedStderr);
    SafeOutput(filter.patterns, stdout);
    SafeOutput(filter.patterns, stderr);
    report := Report(finalStdout, finalStderr, false);
  }
}
