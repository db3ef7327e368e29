/** `get_filename_ext`: the extension of a file name, as the driver uses it to pick a writer. */
module FileNames {

  import opened Wrappers
  import opened CStrings

  /**
   * The text after the last '.' of `filename`; empty when there is no '.'
   * or when the last '.' is the first character (a hidden-file name).
   * Path separators are not special.
   */
  function FilenameExt(filename: CString): (ext: CString)
    ensures '.' !in ext
    ensures |ext| <= |filename| && ext == filename[|filename| - |ext|..]
    ensures ext != [] ==> |ext| + 1 < |filename| && filename[|filename| - |ext| - 1] == '.'
  {
    match LastIndexOf(filename, '.')
    case None => ""
    case Some(dot) => if dot == 0 then "" else filename[dot + 1..]
  }

  /** A name without any '.' has no extension. */
  lemma NoDotNoExt(filename: CString)
    requires '.' !in filename
    ensures FilenameExt(filename) == ""
  {
  }

  /** A name whose only '.' leads it (".png") has no extension. */
  lemma LeadingDotNoExt(rest: CString)
    requires '.' !in rest
    ensures FilenameExt("." + rest) == ""
  {
    var s: CString := "." + rest;
    assert s[1..] == rest;
    var r := LastIndexOf(s, '.');
    assert s[0] == '.';
  }

  /**
   * Splitting a name at a '.' whose right part has no '.': the extension is
   * that right part when the left part is not empty.
   */
  lemma SplitExt(stem: CString, tail: CString)
    requires stem != [] && '.' !in tail
    ensures FilenameExt(stem + "." + tail) == tail
  {
    var s: CString := stem + "." + tail;
    var dot := |stem|;
    assert s[dot] == '.';
    var r := LastIndexOf(s, '.');
    assert s[dot + 1..] == tail;
  }

  /** Conversely, a non-empty extension is exactly what follows a '.' with a non-empty stem before it. */
  lemma ExtSplits(filename: CString)
    requires FilenameExt(filename) != ""
    ensures var ext := FilenameExt(filename);
      var stem := filename[..|filename| - |ext| - 1];
      stem != [] && filename == stem + "." + ext
  {
    var ext := FilenameExt(filename);
    var n := |filename| - |ext| - 1;
    assert filename == filename[..n] + [filename[n]] + filename[n + 1..];
  }

  /** A name ending in '.' has an empty extension. */
  lemma TrailingDotNoExt(stem: CString)
    requires stem != []
    ensures FilenameExt(stem + ".") == ""
  {
    SplitExt(stem, "");
    assert stem + "." + "" == stem + ".";
  }

  /** Only the last '.' matters: "a.b.c" has extension "c". */
  lemma MultipleDotsExample()
    ensures FilenameExt("a.b.c") == "c"
  {
    var stem: CString, tail: CString := "a.b", "c";
    assert stem + "." + tail == "a.b.c";
    SplitExt(stem, tail);
  }

  /** A '.' in a directory part is taken as the extension's start: "dir.x/file" has extension "x/file". */
  lemma DirectoryDotExample()
    ensures FilenameExt("dir.x/file") == "x/file"
  {
    var stem: CString, tail: CString := "dir", "x/file";
    assert stem + "." + tail == "dir.x/file";
    SplitExt(stem, tail);
  }

  /** A hidden-file name has no extension: ".png" yields "". */
  lemma HiddenFileExample()
    ensures FilenameExt(".png") == ""
  {
    LeadingDotNoExt("png");
    assert "." + "png" == ".png";
  }
}
