/**
 * The archive processor (`process_archive`) and the failure list it
 * appends to (`failed_archives`, guarded by `failed_archives_lock`). The
 * list is threaded through the processing as a value, and the worker pool
 * is a sequential run over the archive paths.
 */
module Processor {
  import opened Wrappers
  import opened Seqs
  import opened ArchiveTool
  import opened Searcher
  import opened Extractor

  /** The archive belongs in the failure list: no password unlocks it, or
      extracting it with the password found exits non-zero. */
  predicate ArchiveFails(tool: Tool, archive: string, passwords: seq<string>) {
    match SearchResult(tool, archive, passwords)
    case None => true
    case Some(password) => tool.extract(archive, password) != 0
  }

  /** The test runs behind a list of probed passwords. */
  function TestCalls(archive: string, probed: seq<string>): seq<ToolCall> {
    seq(|probed|, i requires 0 <= i < |probed| => Test(archive, probed[i]))
  }

  /** The tool runs that processing one archive issues, in order. */
  function ArchiveCalls(tool: Tool, archive: string, passwords: seq<string>): seq<ToolCall> {
    TestCalls(archive, SearchTrace(tool, archive, passwords))
    + match SearchResult(tool, archive, passwords)
      case None => []
      case Some(password) => [Extract(archive, password, ExtractDir(archive))]
  }

  /** The tool runs of processing `archives` one after the other. */
  function RunCalls(tool: Tool, archives: seq<string>, passwords: seq<string>): seq<ToolCall> {
    if archives == [] then []
    else RunCalls(tool, archives[..|archives| - 1], passwords) + ArchiveCalls(tool, archives[|archives| - 1], passwords)
  }

  function FailsWith(tool: Tool, passwords: seq<string>): string -> bool {
    archive => ArchiveFails(tool, archive, passwords)
  }

  /** The failure list a run over `archives` produces. */
  function FailedArchives(tool: Tool, archives: seq<string>, passwords: seq<string>): seq<string> {
    Filter(archives, FailsWith(tool, passwords))
  }

  lemma RunCallsStep(tool: Tool, archives: seq<string>, i: nat, passwords: seq<string>)
    requires i < |archives|
    ensures RunCalls(tool, archives[..i + 1], passwords)
            == RunCalls(tool, archives[..i], passwords) + ArchiveCalls(tool, archives[i], passwords)
  {
    PrefixSnoc(archives, i);
  }

  lemma FailedArchivesStep(tool: Tool, archives: seq<string>, i: nat, passwords: seq<string>)
    requires i < |archives|
    ensures FailedArchives(tool, archives[..i + 1], passwords)
            == FailedArchives(tool, archives[..i], passwords) + if ArchiveFails(tool, archives[i], passwords) then [archives[i]] else []
  {
    PrefixSnoc(archives, i);
    FailedArchivesSnoc(tool, archives[..i], archives[i], passwords);
  }

  lemma FailedArchivesSnoc(tool: Tool, archives: seq<string>, archive: string, passwords: seq<string>)
    ensures FailedArchives(tool, archives + [archive], passwords)
            == FailedArchives(tool, archives, passwords) + if ArchiveFails(tool, archive, passwords) then [archive] else []
  {
    FilterSnoc(archives, archive, FailsWith(tool, passwords));
  }

  /** An archive no password opens is recorded and never extracted: its
      runs are `1 + |passwords|` test runs and nothing else. */
  lemma NotFoundSkipsExtraction(tool: Tool, archive: string, passwords: seq<string>)
    requires SearchResult(tool, archive, passwords).None?
    ensures ArchiveFails(tool, archive, passwords)
    ensures |ArchiveCalls(tool, archive, passwords)| == 1 + |passwords|
    ensures forall c | c in ArchiveCalls(tool, archive, passwords) :: c.Test?
  {
    NotFoundIff(tool, archive, passwords);
  }

  /** After a password is found, exactly one extract run follows the test
      runs, with that password and the derived directory, and its exit
      status alone decides whether the archive is recorded. */
  lemma FoundThenExtractOnce(tool: Tool, archive: string, passwords: seq<string>)
    requires SearchResult(tool, archive, passwords).Some?
    ensures var password, calls := SearchResult(tool, archive, passwords).value, ArchiveCalls(tool, archive, passwords);
            && calls != []
            && calls[|calls| - 1] == Extract(archive, password, ExtractDir(archive))
            && (forall i | 0 <= i < |calls| - 1 :: calls[i].Test?)
            && (ArchiveFails(tool, archive, passwords) <==> tool.extract(archive, password) != 0)
  {
    var tests := TestCalls(archive, SearchTrace(tool, archive, passwords));
    assert forall i | 0 <= i < |tests| :: tests[i].Test?;
  }

  /** A run over distinct archives records each failing archive exactly
      once and nothing else, in the order the archives were processed. */
  lemma FailuresRecordedOnce(tool: Tool, archives: seq<string>, passwords: seq<string>)
    requires Distinct(archives)
    ensures var failed := FailedArchives(tool, archives, passwords);
            && Distinct(failed)
            && IsSubsequence(failed, archives)
            && forall a | a in archives :: multiset(failed)[a] == if ArchiveFails(tool, a, passwords) then 1 else 0
  {
    var keep := FailsWith(tool, passwords);
    FilterDistinct(archives, keep);
    FilterIsSubsequence(archives, keep);
    forall a | a in archives
      ensures multiset(FailedArchives(tool, archives, passwords))[a] == if ArchiveFails(tool, a, passwords) then 1 else 0
    {
      FilterCount(archives, keep, a);
      DistinctOccursOnce(archives, a);
    }
  }

  lemma {:induction false} DistinctOccursOnce(s: seq<string>, x: string)
    requires Distinct(s) && x in s
    ensures multiset(s)[x] == 1
  {
    if s[0] == x {
      assert x !in s[1..];
    } else {
      DistinctOccursOnce(s[1..], x);
    }
    assert s == [s[0]] + s[1..];
  }

  /** Workers may finish in any order: every order of the same archives
      yields the same failures, counted with multiplicity. */
  lemma FailuresOrderIndependent(tool: Tool, archives: seq<string>, order: seq<string>, passwords: seq<string>)
    requires multiset(order) == multiset(archives)
    ensures multiset(FailedArchives(tool, order, passwords)) == multiset(FailedArchives(tool, archives, passwords))
  {
    FilterPermutation(order, archives, FailsWith(tool, passwords));
  }

  /** Proof helper: unfolds `ArchiveCalls` and `ArchiveFails` with the
      search's outcome (the password found, if any, and the passwords
      probed) given by name, so that callers do not unfold the search. */
  lemma ArchiveCallsCases(tool: Tool, archive: string, passwords: seq<string>, found: Option<string>, probed: seq<string>)
    requires found == SearchResult(tool, archive, passwords)
    requires probed == SearchTrace(tool, archive, passwords)
    ensures ArchiveCalls(tool, archive, passwords)
            == TestCalls(archive, probed) + if found.None? then [] else [Extract(archive, found.value, ExtractDir(archive))]
    ensures ArchiveFails(tool, archive, passwords) <==> found.None? || tool.extract(archive, found.value) != 0
  {
  }

  /** `process_archive`: searches for the password; records the archive and
      stops when none is found, otherwise extracts and records the archive
      if that fails. Recording is `failed_archives.append(archive)`, done
      under `failed_archives_lock`. */
  method ProcessArchive(failed: seq<string>, tool: Tool, archive: string, passwords: seq<string>)
    returns (failed': seq<string>, calls: seq<ToolCall>)
    ensures failed' == failed + if ArchiveFails(tool, archive, passwords) then [archive] else []
    ensures calls == ArchiveCalls(tool, archive, passwords)
  {
    failed' := failed;
    var password, probed := TestArchive(tool, archive, passwords);
    ArchiveCallsCases(tool, archive, passwords, password, probed);
    calls := TestCalls(archive, probed);
    if password.None? {
      failed' := failed' + [archive];
      return;
    }
    var ok, call := ExtractArchive(tool, archive, password.value);
    calls := calls + [call];
    if !ok {
      failed' := failed' + [archive];
    }
  }

  /** The worker pool, one task after the other, starting from the empty
      failure list: every archive is processed once and the list ends up
      holding exactly the failing ones. */
  method ProcessAll(tool: Tool, archives: seq<string>, passwords: seq<string>)
    returns (failed: seq<string>, calls: seq<ToolCall>)
    ensures failed == FailedArchives(tool, archives, passwords)
    ensures calls == RunCalls(tool, archives, passwords)
  {
    failed, calls := [], [];
    for i := 0 to |archives|
      invariant failed == FailedArchives(tool, archives[..i], passwords)
      invariant calls == RunCalls(tool, archives[..i], passwords)
    {
      RunCallsStep(tool, archives, i, passwords);
      FailedArchivesStep(tool, archives, i, passwords);
      var more;
      failed, more := ProcessArchive(failed, tool, archives[i], passwords);
      calls := calls + more;
    }
    assert archives[..|archives|] == archives;
  }
}
