/**
 * The password searcher (`test_archive`): probe the empty password, then
 * every candidate in list order, and stop at the first success.
 */
module Searcher {
  import opened Wrappers
  import opened ArchiveTool
  import opened Prober
  import opened Seqs

  /** The tool's test run accepts `password` for `archive`. */
  predicate Unlocks(tool: Tool, archive: string, password: string) {
    ProbeSucceeds(tool.test(archive, password))
  }

  /** Index of the first candidate that unlocks the archive, if any. */
  function FirstUnlocking(tool: Tool, archive: string, candidates: seq<string>): (r: Option<nat>)
    ensures r.Some? ==> r.value < |candidates| && Unlocks(tool, archive, candidates[r.value])
    ensures r.Some? ==> forall j | 0 <= j < r.value :: !Unlocks(tool, archive, candidates[j])
    ensures r.None? ==> forall j | 0 <= j < |candidates| :: !Unlocks(tool, archive, candidates[j])
  {
    if candidates == [] then None
    else if Unlocks(tool, archive, candidates[0]) then Some(0)
    else match FirstUnlocking(tool, archive, candidates[1..])
      case None => None
      case Some(k) => Some(k + 1)
  }

  /** The password the search reports: "" when the archive needs none,
      otherwise the first unlocking candidate, or `None`. */
  function SearchResult(tool: Tool, archive: string, candidates: seq<string>): Option<string> {
    if Unlocks(tool, archive, "") then Some("")
    else match FirstUnlocking(tool, archive, candidates)
      case None => None
      case Some(k) => Some(candidates[k])
  }

  /** The passwords the search probes, in the order it probes them. */
  function SearchTrace(tool: Tool, archive: string, candidates: seq<string>): seq<string> {
    if Unlocks(tool, archive, "") then [""]
    else match FirstUnlocking(tool, archive, candidates)
      case None => [""] + candidates
      case Some(k) => [""] + candidates[..k + 1]
  }

  /** Probes the empty password, then each candidate in order, returning at
      the first one the tool accepts; `probed` lists the passwords tried. */
  method TestArchive(tool: Tool, archive: string, passwords: seq<string>)
    returns (found: Option<string>, probed: seq<string>)
    ensures found == SearchResult(tool, archive, passwords)
    ensures probed == SearchTrace(tool, archive, passwords)
  {
    probed := [""];
    var ok, _ := RunTestProc(tool.test(archive, ""));
    if ok {
      NoPasswordNeeded(tool, archive, passwords);
      return Some(""), probed;
    }
    var i := 0;
    while i < |passwords|
      invariant 0 <= i <= |passwords|
      invariant forall j | 0 <= j < i :: !Unlocks(tool, archive, passwords[j])
      invariant probed == [""] + passwords[..i]
    {
      PrefixSnoc(passwords, i);
      probed := probed + [passwords[i]];
      var accepted, _ := RunTestProc(tool.test(archive, passwords[i]));
      if accepted {
        FoundAtIndex(tool, archive, passwords, i);
        return Some(passwords[i]), probed;
      }
      i := i + 1;
    }
    NotFoundIff(tool, archive, passwords);
    assert passwords[..i] == passwords;
    found := None;
  }

  /** An archive that opens without a password is reported with "" after a
      single probe; no candidate is consulted. */
  lemma NoPasswordNeeded(tool: Tool, archive: string, candidates: seq<string>)
    requires Unlocks(tool, archive, "")
    ensures SearchResult(tool, archive, candidates) == Some("")
    ensures SearchTrace(tool, archive, candidates) == [""]
  {
  }

  /** When the first unlocking candidate sits at index `k`, it is the one
      reported, after exactly `k + 2` probes: the empty password, then
      candidates `0` to `k` in order. */
  lemma FoundAtIndex(tool: Tool, archive: string, candidates: seq<string>, k: nat)
    requires !Unlocks(tool, archive, "")
    requires k < |candidates| && Unlocks(tool, archive, candidates[k])
    requires forall j | 0 <= j < k :: !Unlocks(tool, archive, candidates[j])
    ensures SearchResult(tool, archive, candidates) == Some(candidates[k])
    ensures SearchTrace(tool, archive, candidates) == [""] + candidates[..k + 1]
    ensures |SearchTrace(tool, archive, candidates)| == k + 2
  {
    var r := FirstUnlocking(tool, archive, candidates);
    assert r.Some? && r.value == k;
  }

  /** The search finds nothing exactly when neither the empty password nor
      any candidate unlocks the archive, and then every candidate has been
      probed once, after the empty password. */
  lemma NotFoundIff(tool: Tool, archive: string, candidates: seq<string>)
    ensures SearchResult(tool, archive, candidates).None? <==>
            !Unlocks(tool, archive, "") && forall j | 0 <= j < |candidates| :: !Unlocks(tool, archive, candidates[j])
    ensures SearchResult(tool, archive, candidates).None? ==>
            SearchTrace(tool, archive, candidates) == [""] + candidates
  {
  }

  /** A reported password unlocks the archive and is "" or a candidate;
      every probe before the last one failed, and the last one succeeded
      exactly when a password is reported. */
  lemma SearchSound(tool: Tool, archive: string, candidates: seq<string>)
    ensures var r, t := SearchResult(tool, archive, candidates), SearchTrace(tool, archive, candidates);
            && (r.Some? ==> Unlocks(tool, archive, r.value) && (r.value == "" || r.value in candidates))
            && t != [] && t[0] == ""
            && (forall j | 0 <= j < |t| - 1 :: !Unlocks(tool, archive, t[j]))
            && (Unlocks(tool, archive, t[|t| - 1]) <==> r.Some?)
            && (r.Some? ==> t[|t| - 1] == r.value)
  {
    var r, t := SearchResult(tool, archive, candidates), SearchTrace(tool, archive, candidates);
    if Unlocks(tool, archive, "") {
      NoPasswordNeeded(tool, archive, candidates);
    } else {
      match FirstUnlocking(tool, archive, candidates)
      case None =>
        NotFoundIff(tool, archive, candidates);
        forall j | 1 <= j < |t|
          ensures !Unlocks(tool, archive, t[j])
        {
          assert t[j] == candidates[j - 1];
        }
      case Some(k) =>
        FoundAtIndex(tool, archive, candidates, k);
        forall j | 1 <= j < |t|
          ensures t[j] == candidates[j - 1]
        {
        }
    }
  }
}
