/**
 * The extractor (`extract_archive`): the output directory beside the
 * archive, named after the archive without its last extension, and one
 * extract run of the tool into it.
 */
module Extractor {
  import opened PosixPath
  import opened ArchiveTool

  /** `join(dirname(archive), splitext(basename(archive))[0])` */
  function ExtractDir(archive: string): string {
    Join(DirName(archive), SplitExt(BaseName(archive)).0)
  }

  /** For every archive path that ends in a name, the extraction directory
      sits in the archive's own directory and is named after the archive
      without its last extension, a name that is never empty. */
  lemma ExtractDirBesideAnyArchive(archive: string)
    requires BaseName(archive) != []
    ensures var root := SplitExt(BaseName(archive)).0;
            && root != []
            && DirName(ExtractDir(archive)) == DirName(archive)
            && BaseName(ExtractDir(archive)) == root
  {
    var dir, root := DirName(archive), SplitExt(BaseName(archive)).0;
    RootOfName(BaseName(archive));
    BaseNameJoin(dir, root);
    DirNameJoin(dir, root);
    DirPartOfDirName(archive);
  }

  /** For an archive found as `name` in `folder` (with or without trailing
      slashes), the extraction directory is `root` joined onto the folder as
      `dirname` writes it, where `root` is `name` without its last extension
      and is never empty; for a folder without a trailing '/' that is
      `folder/root`. */
  lemma ExtractDirBesideArchive(folder: string, name: string)
    requires name != [] && '/' !in name
    ensures var root := SplitExt(name).0;
            && root != [] && root + SplitExt(name).1 == name
            && ExtractDir(Join(folder, name)) == Join(DirPart(folder), root)
            && (folder != [] && folder[|folder| - 1] != '/' ==> ExtractDir(Join(folder, name)) == folder + "/" + root)
  {
    BaseNameJoin(folder, name);
    DirNameJoin(folder, name);
    RootOfName(name);
  }

  /** Only the last extension goes: `a.tar.gz` in `dir` is extracted into
      `dir/a.tar`. */
  lemma ExtractDirKeepsInnerExtensions(folder: string, root: string, ext: string)
    requires '/' !in root && exists i | 0 <= i < |root| :: root[i] != '.'
    requires ext != [] && ext[0] == '.' && '.' !in ext[1..] && '/' !in ext
    ensures ExtractDir(Join(folder, root + ext)) == Join(DirPart(folder), root)
  {
    SplitExtOfLastExtension(root, ext);
    ExtractDirBesideArchive(folder, root + ext);
  }

  /** A name whose only dots lead it, such as `.zip`, has no extension to
      remove: its extraction directory has the archive's directory and base
      name, and is the archive's own path unless the folder ends in several
      slashes. */
  lemma ExtractDirOfDotName(folder: string, name: string)
    requires name != [] && '/' !in name
    requires forall i, j | 0 <= i < j < |name| && name[j] == '.' :: name[i] == '.'
    ensures var archive := Join(folder, name);
            && DirName(ExtractDir(archive)) == DirName(archive)
            && BaseName(ExtractDir(archive)) == name
            && ExtractDir(archive) == Join(DirPart(folder), name)
            && (AllSlashes(folder) || |folder| < 2 || folder[|folder| - 2] != '/' ==> ExtractDir(archive) == archive)
  {
    ExtensionIff(name);
    ExtractDirBesideArchive(folder, name);
    BaseNameJoin(folder, name);
    ExtractDirBesideAnyArchive(Join(folder, name));
    if AllSlashes(folder) || |folder| < 2 || folder[|folder| - 2] != '/' {
      JoinDirPart(folder, name);
    }
  }

  /** Runs the tool's extract command once with the found password into the
      derived directory; success is exit status 0. */
  method ExtractArchive(tool: Tool, archive: string, password: string) returns (ok: bool, call: ToolCall)
    ensures call == Extract(archive, password, ExtractDir(archive))
    ensures ok <==> tool.extract(archive, password) == 0
  {
    var outDir := ExtractDir(archive);
    call := Extract(archive, password, outDir);
    ok := tool.extract(archive, password) == 0;
  }
}
