/**
 * The driver (`main`): validates the three answers the user gives (archive
 * folder, password list, thread count), reads the password list, selects
 * the archives in the folder by extension and processes them all, ending
 * with the list of failed archives.
 */
module Driver {
  import opened Wrappers
  import opened Text
  import opened Seqs
  import opened PosixPath
  import opened ArchiveTool
  import opened Processor

  /** `common_archive_extensions` */
  const ArchiveExtensions: seq<string> :=
    [".7z", ".zip", ".rar", ".tar", ".gz", ".bz2", ".xz", ".lzma", ".iso", ".dmg", ".img", ".vhd"]

  /** `name.endswith(tuple(common_archive_extensions))`, case-sensitive. */
  predicate IsArchiveName(name: string) {
    exists e | e in ArchiveExtensions :: EndsWith(name, e)
  }

  /** The test looks at the end of the name only: whatever comes before
      an archive name, the result is still one. */
  lemma ArchiveNamePrefix(prefix: string, name: string)
    requires IsArchiveName(name)
    ensures IsArchiveName(prefix + name)
  {
    var e :| e in ArchiveExtensions && EndsWith(name, e);
    assert (prefix + name)[|prefix + name| - |e|..] == name[|name| - |e|..];
  }

  /** No known extension is longer than five characters, so the last five
      characters of a name decide the test on their own. */
  lemma ArchiveNameByEnding(prefix: string, name: string)
    requires |name| >= 5
    ensures IsArchiveName(prefix + name) <==> IsArchiveName(name)
  {
    forall e | e in ArchiveExtensions
      ensures EndsWith(prefix + name, e) <==> EndsWith(name, e)
    {
      assert |e| <= 5;
      assert (prefix + name)[|prefix + name| - |e|..] == name[|name| - |e|..];
    }
  }

  /** A name whose last character ends no known extension is not an
      archive name. */
  lemma NoExtensionEndsWith(name: string)
    requires name != []
    requires forall e | e in ArchiveExtensions :: e != [] && e[|e| - 1] != name[|name| - 1]
    ensures !IsArchiveName(name)
  {
    forall e | e in ArchiveExtensions
      ensures !EndsWith(name, e)
    {
      assert |e| <= |name| ==> name[|name| - |e|..][|e| - 1] == name[|name| - 1];
    }
  }

  /** The test is case-sensitive: every known extension ends in a lower-case
      letter or a digit, so a name ending in an upper-case letter is never
      an archive name. */
  lemma UpperCaseEndingRejected(name: string)
    requires name != [] && 'A' <= name[|name| - 1] <= 'Z'
    ensures !IsArchiveName(name)
  {
    NoExtensionEndsWith(name);
  }

  /** Examples: a compressed tarball is kept; an upper-case extension is
      not. */
  lemma ExtensionMatch()
    ensures IsArchiveName("backup.tar.gz")
    ensures !IsArchiveName("backup.ZIP")
  {
    assert EndsWith("backup.tar.gz", ".gz");
    UpperCaseEndingRejected("backup.ZIP");
  }

  /** The folder entries kept as archives, in listing order. */
  function ArchiveNames(listing: seq<string>): seq<string> {
    Filter(listing, IsArchiveName)
  }

  /** `archive_paths`: every kept entry joined onto the folder. */
  function ArchivePaths(folder: string, listing: seq<string>): (paths: seq<string>)
    ensures |paths| == |ArchiveNames(listing)|
  {
    var names := ArchiveNames(listing);
    seq(|names|, i requires 0 <= i < |names| => Join(folder, names[i]))
  }

  /** Entries as a directory listing yields them: file names, never
      containing the separator. */
  predicate IsListing(listing: seq<string>) {
    forall i | 0 <= i < |listing| :: '/' !in listing[i]
  }

  /** The archive paths name exactly the archive entries of the listing, in
      listing order: taking each path's base name gives back the kept
      entries, which are an ordered selection of the listing, and an entry
      is kept exactly when it ends in a known archive extension. */
  lemma ArchivePathsRoundTrip(folder: string, listing: seq<string>)
    requires IsListing(listing)
    ensures var names, paths := ArchiveNames(listing), ArchivePaths(folder, listing);
            && (forall i | 0 <= i < |paths| :: BaseName(paths[i]) == names[i])
            && IsSubsequence(names, listing)
            && (forall n :: n in names <==> n in listing && IsArchiveName(n))
  {
    var names, paths := ArchiveNames(listing), ArchivePaths(folder, listing);
    forall i | 0 <= i < |paths|
      ensures BaseName(paths[i]) == names[i]
    {
      FilterMembers(listing, IsArchiveName, names[i]);
      BaseNameJoin(folder, names[i]);
    }
    FilterIsSubsequence(listing, IsArchiveName);
    forall n
      ensures n in names <==> n in listing && IsArchiveName(n)
    {
      FilterMembers(listing, IsArchiveName, n);
    }
  }

  /** Distinct directory entries give distinct archive paths. */
  lemma ArchivePathsDistinct(folder: string, listing: seq<string>)
    requires IsListing(listing) && Distinct(listing)
    ensures Distinct(ArchivePaths(folder, listing))
  {
    var names, paths := ArchiveNames(listing), ArchivePaths(folder, listing);
    ArchivePathsRoundTrip(folder, listing);
    FilterDistinct(listing, IsArchiveName);
    forall i, j | 0 <= i < j < |paths|
      ensures paths[i] != paths[j]
    {
      assert BaseName(paths[i]) == names[i] && BaseName(paths[j]) == names[j];
    }
  }

  /** `[password.strip() for password in f.readlines()]` */
  function ParsePasswords(text: string): (passwords: seq<string>)
    ensures |passwords| == |ReadLines(text)|
  {
    var lines := ReadLines(text);
    seq(|lines|, i requires 0 <= i < |lines| => Strip(lines[i]))
  }

  /** Neither begins nor ends with whitespace. */
  predicate IsStripped(s: string) {
    s == [] || (!IsSpace(s[0]) && !IsSpace(s[|s| - 1]))
  }

  /** Stripping a line as `readlines` yields it removes its newline along
      with the other surrounding whitespace. */
  lemma StripLine(line: string)
    requires IsLine(line)
    ensures '\n' !in Strip(line) && IsStripped(Strip(line))
  {
    var p, lead := Strip(line), LeadingSpaces(line);
    forall k | 0 <= k < |p|
      ensures p[k] != '\n'
    {
      if lead + k == |line| - 1 {
        assert k == |p| - 1;
      }
    }
  }

  /** Every password read from the list is free of newlines and of
      surrounding whitespace; a blank line yields the empty password. */
  lemma PasswordsAreStripped(text: string)
    ensures var lines, passwords := ReadLines(text), ParsePasswords(text);
            forall i | 0 <= i < |passwords| ::
              && '\n' !in passwords[i]
              && IsStripped(passwords[i])
              && (passwords[i] == [] <==> AllSpace(lines[i]))
  {
    var lines, passwords := ReadLines(text), ParsePasswords(text);
    forall i | 0 <= i < |passwords|
      ensures '\n' !in passwords[i] && IsStripped(passwords[i])
    {
      StripLine(lines[i]);
    }
  }

  /** A password list written one password per line, each followed by a
      newline. */
  function WriteLines(passwords: seq<string>): string {
    if passwords == [] then [] else passwords[0] + "\n" + WriteLines(passwords[1..])
  }

  lemma ReadLinesCons(line: string, rest: string)
    requires '\n' !in line
    ensures ReadLines(line + "\n" + rest) == [line + "\n"] + ReadLines(rest)
  {
    var text := line + "\n" + rest;
    assert text[|line|] == '\n';
    var n := LineBreak(text);
    assert n == |line|;
    assert text[..n + 1] == line + "\n";
    assert text[n + 1..] == rest;
  }

  lemma StripNewline(p: string)
    requires '\n' !in p && IsStripped(p)
    ensures Strip(p + "\n") == p
  {
    var s := p + "\n";
    if p != [] {
      assert s[0] == p[0];
      assert LeadingSpaces(s) == 0;
      assert s[..|s| - 1] == p;
      assert TrailingSpaces(s) == 1;
      assert s[0..|s| - 1] == p;
    } else {
      assert LeadingSpaces(s) == 1;
    }
  }

  /** Reading back a list written one password per line gives the same
      passwords, in order, as long as none holds a newline or surrounding
      whitespace. */
  lemma {:induction false} PasswordListRoundTrip(passwords: seq<string>)
    requires forall i | 0 <= i < |passwords| :: '\n' !in passwords[i] && IsStripped(passwords[i])
    ensures ParsePasswords(WriteLines(passwords)) == passwords
  {
    if passwords != [] {
      var p, rest := passwords[0], passwords[1..];
      PasswordListRoundTrip(rest);
      ReadLinesCons(p, WriteLines(rest));
      StripNewline(p);
      var lines := ReadLines(WriteLines(passwords));
      assert lines == [p + "\n"] + ReadLines(WriteLines(rest));
      var parsed := ParsePasswords(WriteLines(passwords));
      forall i | 0 <= i < |parsed|
        ensures parsed[i] == passwords[i]
      {
        if i > 0 {
          assert lines[i] == ReadLines(WriteLines(rest))[i - 1];
          assert ParsePasswords(WriteLines(rest))[i - 1] == rest[i - 1];
        }
      }
    }
  }

  /** Why a run stops before processing anything. */
  datatype Fatal = ArchiveFolderNotFound | PasswordListNotFound | InvalidThreadCount

  /** What the user and the file system supply: the folder and whether it is
      a directory, whether the password list path is a file and its text,
      the thread count as entered, and the folder's entries. */
  datatype Inputs = Inputs(
    folder: string,
    folderIsDir: bool,
    passwordListIsFile: bool,
    passwordText: string,
    threads: int,
    listing: seq<string>)

  /** The checks of `main`, in the order it makes them. */
  function Validate(inputs: Inputs): (fatal: Option<Fatal>)
    ensures fatal == Some(ArchiveFolderNotFound) <==> !inputs.folderIsDir
    ensures fatal == Some(PasswordListNotFound) <==> inputs.folderIsDir && !inputs.passwordListIsFile
    ensures fatal == Some(InvalidThreadCount) <==>
            inputs.folderIsDir && inputs.passwordListIsFile && inputs.threads <= 0
    ensures fatal == None <==>
            inputs.folderIsDir && inputs.passwordListIsFile && inputs.threads > 0
  {
    if !inputs.folderIsDir then Some(ArchiveFolderNotFound)
    else if !inputs.passwordListIsFile then Some(PasswordListNotFound)
    else if inputs.threads <= 0 then Some(InvalidThreadCount)
    else None
  }

  /** How a run ends: stopped by a fatal check, or finished with the failure
      list it prints and the tool runs it issued. */
  datatype RunOutcome = Aborted(reason: Fatal) | Finished(failed: seq<string>, calls: seq<ToolCall>)

  /** `main`: stops at the first failing check without running the tool;
      otherwise processes every archive of the folder with every password
      of the list and reports the failed ones. */
  method RunMain(inputs: Inputs, tool: Tool) returns (outcome: RunOutcome)
    ensures Validate(inputs).Some? ==> outcome == Aborted(Validate(inputs).value)
    ensures Validate(inputs).None? ==>
            var archives, passwords := ArchivePaths(inputs.folder, inputs.listing), ParsePasswords(inputs.passwordText);
            outcome == Finished(FailedArchives(tool, archives, passwords), RunCalls(tool, archives, passwords))
  {
    if !inputs.folderIsDir {
      return Aborted(ArchiveFolderNotFound);
    }
    if !inputs.passwordListIsFile {
      return Aborted(PasswordListNotFound);
    }
    var passwords := ParsePasswords(inputs.passwordText);
    if inputs.threads <= 0 {
      return Aborted(InvalidThreadCount);
    }
    var archives := ArchivePaths(inputs.folder, inputs.listing);
    var failed, calls := ProcessAll(tool, archives, passwords);
    outcome := Finished(failed, calls);
  }

  /** Over a listing of distinct entries, the printed failure list names
      each failing archive of the folder exactly once and nothing else. */
  lemma FolderFailuresDistinct(tool: Tool, folder: string, listing: seq<string>, passwords: seq<string>)
    requires IsListing(listing) && Distinct(listing)
    ensures var archives := ArchivePaths(folder, listing);
            var failed := FailedArchives(tool, archives, passwords);
            && Distinct(failed)
            && forall a | a in archives :: multiset(failed)[a] == if ArchiveFails(tool, a, passwords) then 1 else 0
  {
    var archives := ArchivePaths(folder, listing);
    ArchivePathsDistinct(folder, listing);
    FailuresRecordedOnce(tool, archives, passwords);
  }
}
