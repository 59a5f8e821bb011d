/**
 * The archive prober (`run_test_proc`): one test run of the tool for one
 * password, classified from its diagnostic lines and exit status.
 */
module Prober {
  import opened Text
  import opened ArchiveTool

  const WrongPasswordMarker := "wrong password"

  /** The marker occurs in `line` at index `i`, letters compared without
      regard to case. */
  predicate MarkerAt(line: string, i: nat) {
    i + |WrongPasswordMarker| <= |line| && Lower(line[i..i + |WrongPasswordMarker|]) == WrongPasswordMarker
  }

  /** `'wrong password' in line.lower()` */
  predicate MentionsWrongPassword(line: string) {
    Contains(Lower(line), WrongPasswordMarker)
  }

  /** The check is a case-insensitive search for the marker anywhere in the
      line. */
  lemma MentionsWrongPasswordIff(line: string)
    ensures MentionsWrongPassword(line) <==> exists i: nat :: MarkerAt(line, i)
  {
    var low := Lower(line);
    ContainsIff(low, WrongPasswordMarker);
    forall i: nat | i + |WrongPasswordMarker| <= |line|
      ensures OccursAt(low, WrongPasswordMarker, i) <==> MarkerAt(line, i)
    {
      LowerSlice(line, i, i + |WrongPasswordMarker|);
    }
  }

  /** Index of the first line carrying the marker, or the number of lines
      when none does. */
  function FirstMarkedLine(lines: seq<string>): (k: nat)
    ensures k <= |lines|
    ensures forall i | 0 <= i < k :: !MentionsWrongPassword(lines[i])
    ensures k < |lines| ==> MentionsWrongPassword(lines[k])
  {
    if lines == [] || MentionsWrongPassword(lines[0]) then 0
    else 1 + FirstMarkedLine(lines[1..])
  }

  /** The probe reports success: the scan of the diagnostic lines reaches
      their end, and the tool exited with status 0. */
  predicate ProbeSucceeds(report: TestReport) {
    FirstMarkedLine(report.stderr) == |report.stderr| && report.exitCode == 0
  }

  /** A line mentioning a wrong password makes the probe fail whatever the
      exit status; without one, the exit status alone decides. */
  lemma ProbeOutcome(report: TestReport)
    ensures (exists i | 0 <= i < |report.stderr| :: MentionsWrongPassword(report.stderr[i])) ==> !ProbeSucceeds(report)
    ensures (forall i | 0 <= i < |report.stderr| :: !MentionsWrongPassword(report.stderr[i])) ==>
            (ProbeSucceeds(report) <==> report.exitCode == 0)
  {
  }

  /** Reads the diagnostic lines one by one and gives up at the first one
      that mentions a wrong password; `linesRead` is how many lines were
      consumed before the process was killed. */
  method RunTestProc(report: TestReport) returns (ok: bool, linesRead: nat)
    ensures ok == ProbeSucceeds(report)
    ensures var k := FirstMarkedLine(report.stderr);
            linesRead == if k < |report.stderr| then k + 1 else |report.stderr|
  {
    linesRead := 0;
    while linesRead < |report.stderr|
      invariant linesRead <= |report.stderr|
      invariant forall i | 0 <= i < linesRead :: !MentionsWrongPassword(report.stderr[i])
      invariant linesRead <= FirstMarkedLine(report.stderr)
    {
      var line := report.stderr[linesRead];
      linesRead := linesRead + 1;
      if MentionsWrongPassword(line) {
        return false, linesRead;
      }
    }
    ok := report.exitCode == 0;
  }
}
