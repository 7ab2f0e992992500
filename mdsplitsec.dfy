/**
 * mdsplitsec: after splitting, the paths of the files written are listed on
 * standard output, each followed by NUL in null mode and by a newline
 * otherwise.
 */
module MdSplitSec {
  import opened TestableIO
  import Lines

  /** WriteFilePaths; it never fails. */
  method WriteFilePaths(nullMode: bool, filePaths: seq<string>, out: Buffer) returns (ok: bool)
    modifies out
    ensures ok
    ensures out.text == old(out.text) + Lines.Records(nullMode, filePaths)
  {
    var i := 0;
    while i < |filePaths|
      invariant i <= |filePaths|
      invariant out.text == old(out.text) + Lines.Records(nullMode, filePaths[..i])
    {
      var filePath := filePaths[i];
      if nullMode {
        out.WriteString(filePath);
        out.WriteString("\0");
      } else {
        out.WriteString(filePath + "\n");
      }
      assert filePaths[..i + 1][..i] == filePaths[..i];
      i := i + 1;
    }
    assert filePaths[..i] == filePaths;
    ok := true;
  }

  /**
   * The end of MainCommandByOptions: the paths the split returned are
   * written first, and only then is the split's error reported.
   */
  method ReportSplit(nullMode: bool, filePaths: seq<string>, splitFailed: bool, out: Buffer) returns (failed: bool)
    modifies out
    ensures failed == splitFailed
    ensures out.text == old(out.text) + Lines.Records(nullMode, filePaths)
  {
    var ok := WriteFilePaths(nullMode, filePaths, out);
    failed := splitFailed;
  }
}
