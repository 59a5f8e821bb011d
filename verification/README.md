# py-bulk-extractor in Dafny

py-bulk-extractor unlocks and unpacks every archive in a folder with the
`7z` tool. The user names an archive folder, a password list (one password
per line) and a number of worker threads. Each archive file in the folder is
then handled as follows:

- the tool's `t` (test) command is run with the empty password, then with
  each password of the list in order, until one run is accepted;
- a run is rejected when one of its diagnostic lines mentions "wrong
  password", whatever the case of the letters; otherwise the exit status
  decides;
- with the accepted password, the tool's `x` command extracts the archive
  into a directory next to it, named after the archive without its last
  extension;
- an archive for which no password is accepted, or whose extraction exits
  non-zero, is added to the shared list of failed archives, which is printed
  at the end.

The model is split into modules that follow `main.py`:

- `Text`: the ASCII behaviour of the `str` operations the program uses
  (`strip`, `lower`, `in`, `endswith`), the line splitting of the file
  method `readlines`, and `rfind`, which `posixpath` uses internally.
- `PosixPath`: `os.path.basename`, `dirname`, `splitext` and `join` for '/'
  paths.
- `ArchiveTool`: the `7z` tool as an oracle. `test` maps an archive and a
  password to the run's diagnostic lines and exit status. `extract` maps an
  archive and a password to the exit status. Every run issued is recorded as
  a `ToolCall`.
- `Prober`: `run_test_proc`, a loop over the diagnostic lines.
- `Searcher`: `test_archive`, a loop over the password list, proved against
  the functions `SearchResult` and `SearchTrace`.
- `Extractor`: `extract_archive` and the extraction directory.
- `Processor`: `process_archive` and the failure list. The list is a value
  that each call extends. The pool of workers is a sequential run over the
  archives.
- `Driver`: `main`, with its three checks, the password list parsing, the
  archive selection and the final run.
- `Seqs` and `Wrappers`: generic sequence filtering and `Option`.

Some consequences of `main.py` worth knowing:

- Finding the password at index `k` of the list costs `k + 2` test runs: the
  empty password, then candidates `0` to `k` (`Searcher.FoundAtIndex`).
- A folder entry named only by an extension, such as `.zip`, passes the
  extension filter. `splitext` leaves it whole, so its extraction directory
  is the archive's own path (`Extractor.ExtractDirOfDotName`).
- A folder given with trailing slashes is accepted; the extraction directory
  is then written without them (`Extractor.ExtractDirBesideArchive`).
- A blank line of the password list becomes the empty password, which is
  then probed a second time.

## Model

| member | source | states |
|---|---|---|
| Text.Strip | main.py:94 | `strip()` drops exactly the leading and trailing ASCII whitespace: the result is a slice of the input starting after the leading whitespace and followed only by whitespace, it is empty iff the input is all whitespace, and otherwise its first and last characters are not whitespace |
| Text.StripRemovesOnlySpace | main.py:94 | the input is the stripped text surrounded by two all-whitespace strings |
| Text.StripIdempotent | main.py:94 | stripping twice is stripping once |
| Text.Lower | main.py:48 | `lower()` keeps the length; its effect at each index is stated by `Text.LowerAt` |
| Text.LowerAt | main.py:48 | `lower()` maps each character to its lower-case form: no upper-case ASCII letter remains, and a character changes iff it is an upper-case letter |
| Text.LowerSlice | main.py:48 | lower-casing a line and then slicing it equals slicing and then lower-casing |
| Text.Contains | main.py:48 | the substring test `pat in s`, as a scan of the start positions; its meaning is stated by `Text.ContainsIff` |
| Text.ContainsIff | main.py:48 | the substring test `pat in s` holds iff `pat` occurs at some index of `s` |
| Text.EndsWith | main.py:101 | `s.endswith(suffix)`: the last `len(suffix)` characters of `s` are `suffix`; its use is stated by `Driver.ArchiveNamePrefix` and `Driver.ArchiveNameByEnding` |
| Text.RFind | main.py:57-58 | the last index holding the character, or -1 when there is none, with no occurrence after it |
| Text.ReadLines | main.py:93-94 | `readlines()` cuts the text into non-empty lines whose concatenation is the text; only a line's last character can be a newline, and every line but the last ends with one |
| PosixPath.BaseName | main.py:57 | the base name is the slash-free tail of the path, preceded by '/' when it is not the whole path |
| PosixPath.DirName | main.py:58 | the directory is a prefix of the path; it is empty iff the path has no '/', and it ends in '/' only when it is all slashes |
| PosixPath.DirNameSplit | main.py:58 | every path is its `dirname`, then slashes only, then its `basename`; the slashes stay in the directory only when it has nothing else |
| PosixPath.SplitExt | main.py:57 | root plus extension is the name; the extension is empty or one dot followed by no dot and no '/' |
| PosixPath.ExtensionIff | main.py:57 | a slash-free name has an extension iff some non-dot character precedes some dot, so leading dots never start an extension |
| PosixPath.SplitExtOfLastExtension | main.py:57 | only the last extension is split off: `splitext(root + ext) == (root, ext)` |
| PosixPath.RootOfName | main.py:57 | the root of a non-empty slash-free name is non-empty and slash-free |
| PosixPath.Join | main.py:102 | `os.path.join(a, b)`: `b` when it is absolute, otherwise `a` and `b` with one '/' between them unless `a` is empty or already ends in '/'; its properties are stated by `PosixPath.BaseNameJoin` and `PosixPath.DirNameJoin` |
| PosixPath.BaseNameJoin | main.py:102 | the base name of `join(folder, name)` is `name` for a slash-free name |
| PosixPath.DirNameJoin | main.py:58 | for every folder, the directory of `join(folder, name)` is the folder without its trailing slashes, or the folder itself when it is all slashes |
| PosixPath.JoinDirPart | main.py:58 | joining a name onto the folder without its trailing slashes gives the same path when the folder has at most one trailing slash |
| Prober.MentionsWrongPassword | main.py:48 | `'wrong password' in line.lower()`; its meaning is stated by `Prober.MentionsWrongPasswordIff` |
| Prober.MentionsWrongPasswordIff | main.py:48 | a line is flagged iff "wrong password" matches, letter case ignored, at some index of it |
| Prober.FirstMarkedLine | main.py:47-49 | the index of the first flagged line, or the number of lines; no earlier line is flagged |
| Prober.ProbeOutcome | main.py:47-53 | a flagged line makes the probe fail whatever the exit status; with none, the probe succeeds iff the exit status is 0 |
| Prober.ProbeSucceeds | main.py:47-53 | the verdict of `run_test_proc` as a function of the diagnostic lines and the exit status; stated by `Prober.ProbeOutcome` |
| Prober.RunTestProc | main.py:43-53 | the loop's verdict is the probe outcome, and it reads exactly up to and including the first flagged line, or all lines when none is flagged |
| Searcher.FirstUnlocking | main.py:33-37 | the index of the first password the tool accepts; every earlier one is rejected, and `None` means all are rejected |
| Searcher.SearchResult | main.py:27-40 | the password `test_archive` returns: "" when it opens the archive, else the first accepted candidate, else `None`; its properties are stated by `Searcher.SearchSound` and `Searcher.NotFoundIff` |
| Searcher.SearchTrace | main.py:27-40 | the passwords `test_archive` probes, in order; its length and contents are stated by `Searcher.FoundAtIndex` and `Searcher.NotFoundIff` |
| Searcher.TestArchive | main.py:27-40 | the search returns the reported password and probes exactly the passwords of the search trace |
| Searcher.NoPasswordNeeded | main.py:28-31 | when the empty password is accepted, the result is "" after one probe |
| Searcher.FoundAtIndex | main.py:27-37 | when the first accepted candidate is at index `k`, it is the result, after `k + 2` probes: "", then candidates 0 to `k` |
| Searcher.NotFoundIff | main.py:33-40 | no password is found iff "" and every candidate are rejected, and then `1 + len(passwords)` probes were made |
| Searcher.SearchSound | main.py:27-40 | a reported password is accepted and is "" or a candidate; every probe but the last is rejected, and the last is accepted iff a password is reported |
| Extractor.ExtractDir | main.py:57-58 | `join(dirname(archive), splitext(basename(archive))[0])`; where it lies is stated by `Extractor.ExtractDirBesideAnyArchive` |
| Extractor.ExtractDirBesideAnyArchive | main.py:57-58 | for every archive path that ends in a name, the extraction directory has the archive's directory and, as its base name, the archive's name without its last extension, which is never empty |
| Extractor.ExtractDirBesideArchive | main.py:57-58 | for every folder and name, the extraction directory of `join(folder, name)` is the name's non-empty root joined onto the folder without its trailing slashes; for a folder without a trailing '/' that is `folder/root` |
| Extractor.ExtractDirKeepsInnerExtensions | main.py:57-58 | for every folder, only the last extension is removed: `a.tar.gz` extracts into `a.tar` |
| Extractor.ExtractDirOfDotName | main.py:57-58 | for every folder, a name whose dots all lead it, such as `.zip`, is extracted into a directory with the archive's directory and base name, which is the archive's own path unless the folder ends in several slashes |
| Extractor.ExtractArchive | main.py:56-68 | one extract run with the password into the derived directory; success iff the exit status is 0 |
| Processor.ArchiveFails | main.py:71-80 | an archive is recorded when no password is found or when the extract run with the found password exits non-zero; its consequences are stated by `Processor.NotFoundSkipsExtraction` and `Processor.FoundThenExtractOnce` |
| Processor.ArchiveCalls | main.py:71-80 | the `7z` runs of `process_archive`, in order: the test runs of the search, then one extract run when a password was found; stated by `Processor.NotFoundSkipsExtraction` and `Processor.FoundThenExtractOnce` |
| Processor.NotFoundSkipsExtraction | main.py:72-76 | with no password found, the archive fails and its runs are `1 + len(passwords)` test runs and no extraction |
| Processor.FoundThenExtractOnce | main.py:72-80 | with a password found, exactly one extract run follows the test runs, and the archive fails iff that run exits non-zero |
| Processor.RunCalls | main.py:106-109 | the `7z` runs of the pool, each archive's runs in turn; `Processor.ProcessAll` issues exactly these |
| Processor.FailedArchives | main.py:71-80 | the failing archives in processing order; its properties are stated by `Processor.FailuresRecordedOnce` and `Processor.FailuresOrderIndependent` |
| Processor.FailuresRecordedOnce | main.py:71-80 | over distinct archives, the failure list is duplicate-free, in processing order, and holds each failing archive once and nothing else |
| Processor.FailuresOrderIndependent | main.py:106-109 | any completion order of the same archives gives the same failures, counted with multiplicity |
| Processor.ProcessArchive | main.py:71-80 | the list gains the archive iff it fails, and the runs issued are the search's test runs followed by the extract run when a password was found |
| Processor.ProcessAll | main.py:106-109 | processing the archives one by one from the empty list leaves it holding exactly the failing archives, in processing order, and issues each archive's runs in turn |
| Driver.IsArchiveName | main.py:101 | `name.endswith(tuple(common_archive_extensions))` over the twelve extensions of main.py:22-24 |
| Driver.ArchiveNamePrefix | main.py:101 | the test looks at the end of the name only: anything put in front of an archive name leaves an archive name |
| Driver.ArchiveNameByEnding | main.py:101 | the last five characters of a name decide the test on their own |
| Driver.UpperCaseEndingRejected | main.py:101 | the test is case-sensitive: a name ending in an upper-case letter is never an archive name |
| Driver.ExtensionMatch | main.py:101 | examples: `backup.tar.gz` is kept and `backup.ZIP` is not |
| Driver.ArchiveNames | main.py:101 | the folder entries kept by the extension test, in listing order; stated by `Driver.ArchivePathsRoundTrip` |
| Driver.ArchivePaths | main.py:101-102 | one path per kept entry, the entry joined onto the folder; their base names and order are stated by `Driver.ArchivePathsRoundTrip` |
| Driver.ArchivePathsRoundTrip | main.py:101-102 | each path's base name is the kept entry it came from; the kept entries are an ordered selection of the listing; an entry is kept iff it ends in a known extension |
| Driver.ArchivePathsDistinct | main.py:101-102 | distinct entries give distinct archive paths |
| Driver.ParsePasswords | main.py:93-94 | one password per line of `readlines()`, each stripped; stated by `Driver.PasswordsAreStripped` and `Driver.PasswordListRoundTrip` |
| Driver.PasswordsAreStripped | main.py:93-94 | each password has no newline and no surrounding whitespace, and is empty iff its line is blank |
| Driver.PasswordListRoundTrip | main.py:93-94 | a list written one password per line reads back as the same passwords, when none has a newline or surrounding whitespace |
| Driver.Validate | main.py:85-99 | the checks run in order (folder, then password list, then thread count `<= 0`), and the run goes ahead iff all three pass |
| Driver.RunMain | main.py:83-109 | a failed check aborts with its reason and no tool run; otherwise the result is the failure list and the runs of processing the selected archives with the parsed passwords |
| Driver.FolderFailuresDistinct | main.py:101-114 | over a listing of distinct entries, the printed list names each failing archive of the folder exactly once |

## Left out

- The `7z` processes are not modelled. Their diagnostic output and exit
  status come from the `Tool` oracle, which is a parameter. Killing and
  reaping the test process, which `run_test_proc` does on every path before
  reading its exit status, is not modelled, and neither is the output the
  processes discard.
- Extractor.ExtractArchive: the extract oracle takes the archive and the
  password but not the output directory. That directory depends on the
  archive path alone, and the recorded `ToolCall` carries it.
- `os.makedirs` is not modelled, so neither is its failure when the derived
  directory exists as a file (for example, the archive itself for a name
  like `.zip`). That failure raises `FileExistsError` out of
  `process_archive`; `future.result()` re-raises it in `main`, which then
  ends before printing the list. For such a folder the `Finished` outcome
  of `Driver.RunMain` does not describe what the program does.
- Processor.ProcessAll: the thread pool, `max_workers` and the lock are
  modelled as one archive after another. Different completion orders are
  covered only up to the multiset of failures
  (`Processor.FailuresOrderIndependent`).
- Interactive input and the file system are inputs of `Driver.RunMain`:
  - the folder and whether it is a directory;
  - whether the password list is a file, and its text;
  - the thread count, already converted to an integer (the `ValueError` of
    `int()` on a non-number is not modelled);
  - the folder listing.
- `os.path.exists` is folded into the directory and file tests.
- Driver.ParsePasswords: universal-newline translation and text decoding
  are not modelled. The text is taken as already decoded, with '\n' line
  ends.
- Text.Strip, Text.Lower: only ASCII whitespace and ASCII letters are
  modelled. Unicode whitespace and case mapping are not.
- Logging and the final printing of the failure list are not modelled. The
  list printed is `RunOutcome.failed`.
- The module-level failure list is a value that `Processor.ProcessAll`
  threads through and returns, not a global that is mutated in place.
