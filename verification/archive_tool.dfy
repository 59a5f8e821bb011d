/**
 * The external `7z` program, seen only through what it returns. Running it
 * is left to the environment: a `Tool` value fixes, for every archive and
 * password, what the test command reports and what exit status the
 * extract command ends with. The extract command's output directory is
 * derived from the archive path alone, so the exit status is given per
 * archive and password.
 */
module ArchiveTool {

  /** What one run of `7z t <archive> -p<password> -y` leaves behind: its
      diagnostic (stderr) lines in order, and the exit status read after the
      process has been killed and reaped. */
  datatype TestReport = TestReport(stderr: seq<string>, exitCode: int)

  datatype Tool = Tool(
    test: (string, string) -> TestReport,      // (archive, password)
    extract: (string, string) -> int           // (archive, password) to exit status
  )

  /** One invocation of the tool, as the extractor issues it. */
  datatype ToolCall =
    | Test(archive: string, password: string)
    | Extract(archive: string, password: string, outDir: string)
}
