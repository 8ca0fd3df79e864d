/** Where `download_file` writes the downloaded bytes: the file name in the current directory
    when no output path is given, the file name inside the output path when that path is a
    directory or ends with a separator, and the output path itself otherwise. Whether the output
    path is an existing directory is an input. */
module DownloadPath {
  import opened Wrappers
  import opened Strings

  predicate LooksLikeDirectory(outputPath: string, isDir: bool) {
    isDir || EndsWith(outputPath, '/') || EndsWith(outputPath, '\\')
  }

  /** `output_path.trim_end_matches('/').trim_end_matches('\\')`: trailing `/` are cut first,
      then trailing `\\`, so a `/` left before a cut `\\` stays. */
  function DirectoryPart(outputPath: string): (d: string)
    ensures d == TrimEndMatches(TrimEndMatches(outputPath, '/'), '\\')
    ensures |d| <= |outputPath| && d == outputPath[..|d|]
    ensures !EndsWith(d, '\\')
    ensures forall i :: |d| <= i < |outputPath| ==> outputPath[i] == '/' || outputPath[i] == '\\'
  {
    var t := TrimEndMatches(outputPath, '/');
    TrimEndMatches(t, '\\')
  }

  function FinalPath(outputPath: string, fileName: string, isDir: bool): (r: string)
    ensures outputPath == "" ==> r == fileName
    ensures outputPath != "" && LooksLikeDirectory(outputPath, isDir) ==>
              r == DirectoryPart(outputPath) + "/" + fileName
    ensures outputPath != "" && !LooksLikeDirectory(outputPath, isDir) ==> r == outputPath
  {
    if outputPath == "" then fileName
    else if LooksLikeDirectory(outputPath, isDir) then DirectoryPart(outputPath) + "/" + fileName
    else outputPath
  }

  /** A directory named with or without one trailing separator of either kind gives the same
      destination, with exactly one `/` before the file name. */
  lemma TrailingSeparatorDoesNotMatter(dir: string, fileName: string, isDir: bool)
    requires dir != "" && !EndsWith(dir, '/') && !EndsWith(dir, '\\')
    ensures FinalPath(dir, fileName, true) == dir + "/" + fileName
    ensures FinalPath(dir + "/", fileName, isDir) == dir + "/" + fileName
    ensures FinalPath(dir + "\\", fileName, isDir) == dir + "/" + fileName
  {
    TrimEndMatchesAppend(dir, '/');
    TrimEndMatchesAppend(dir, '\\');
    assert TrimEndMatches(dir + "\\", '/') == dir + "\\";
  }

  /** The order of the two trims shows on mixed separators: `a/\\` keeps its `/`, while `a\\/`
      loses both. */
  lemma DirectoryPartTrimsSlashesFirst(dir: string)
    requires !EndsWith(dir, '/') && !EndsWith(dir, '\\')
    ensures DirectoryPart(dir + "\\/") == dir
    ensures DirectoryPart(dir + "/\\") == dir + "/"
  {
    assert dir + "\\/" == (dir + "\\") + "/";
    TrimEndMatchesAppend(dir + "\\", '/');
    assert TrimEndMatches(dir + "\\", '/') == dir + "\\";
    TrimEndMatchesAppend(dir, '\\');
    var q := dir + "/\\";
    assert TrimEndMatches(q, '/') == q;
    assert q == (dir + "/") + "\\";
    TrimEndMatchesAppend(dir + "/", '\\');
    assert TrimEndMatches(dir + "/", '\\') == dir + "/";
  }

  /** The step of `download_file` after the response: an empty body is an error, otherwise
      the bytes go to the resolved path. */
  function DownloadDestination(dataLength: nat, outputPath: string, fileName: string, isDir: bool): (r: Result<string, string>)
    ensures dataLength == 0 <==> r == Failure("No file data received")
    ensures r.Success? ==> r.value == FinalPath(outputPath, fileName, isDir)
  {
    if dataLength == 0 then Failure("No file data received")
    else Success(FinalPath(outputPath, fileName, isDir))
  }
}
