/**
 * FileResult: the outcome of visiting one file during a tree walk. A path is
 * represented by its `toString()` text. The value is immutable in the class
 * that declares it; the one mutation any caller performs (the completion
 * event stamping COMPLETE) goes through FileResultObject below.
 */
module FileResults {
  import opened Wrappers
  import MD5Util

  /**
   * SUCCESS and ERROR are the values the FileResult class declares. COMPLETE is
   * used only by SetFilesToCompleteEvent, which refers to a `FileStatus.COMPLETE`
   * that this enum does not declare.
   */
  datatype FileStatus = SUCCESS | ERROR | COMPLETE

  /** A Java exception, reduced to its message. */
  datatype Exception = Exception(message: string)

  /** `FileTime lastModified` is an instant, here a number; null where absent. */
  datatype FileResult = FileResult(
    filePath: string,
    filePathHash: string,
    fileStatus: FileStatus,
    lastModified: Option<int>,
    exc: Option<Exception>)

  const NO_EXCEPTION_MESSAGE: string := "No exception recorded"

  /** The constructor for successful visits. The status argument is stored unchecked. */
  function NewSuccessResult(p: MD5Util.Platform, filePath: string, fileStatus: FileStatus, lastModified: int): (r: FileResult)
    ensures r.filePath == filePath && r.fileStatus == fileStatus
    ensures r.lastModified == Some(lastModified) && r.exc == None
    ensures r.filePathHash == MD5Util.Md5Hex(p, filePath)
    ensures |r.filePathHash| == 32 && MD5Util.IsLowerHex(r.filePathHash)
  {
    FileResult(filePath, MD5Util.Md5Hex(p, filePath), fileStatus, Some(lastModified), None)
  }

  /** The constructor for failed visits. The status argument is stored unchecked. */
  function NewErrorResult(p: MD5Util.Platform, filePath: string, fileStatus: FileStatus, exc: Exception): (r: FileResult)
    ensures r.filePath == filePath && r.fileStatus == fileStatus
    ensures r.lastModified == None && r.exc == Some(exc)
    ensures r.filePathHash == MD5Util.Md5Hex(p, filePath)
    ensures |r.filePathHash| == 32 && MD5Util.IsLowerHex(r.filePathHash)
  {
    FileResult(filePath, MD5Util.Md5Hex(p, filePath), fileStatus, None, Some(exc))
  }

  /** A result made by one of the two constructors: exactly one of lastModified and exc is set. */
  predicate Constructed(p: MD5Util.Platform, r: FileResult) {
    r.filePathHash == MD5Util.Md5Hex(p, r.filePath) && (r.lastModified.Some? <==> r.exc.None?)
  }

  /** Results for the same path carry the same hash, whatever their status, timestamp or exception. */
  lemma HashFromPathOnly(p: MD5Util.Platform, a: FileResult, b: FileResult)
    requires Constructed(p, a) && Constructed(p, b)
    ensures a.filePath == b.filePath ==> a.filePathHash == b.filePathHash
    ensures a.filePathHash != b.filePathHash ==> a.filePath != b.filePath
  {
  }

  /** getExc: the recorded exception, or a stand-in that says none was recorded. */
  function GetExc(r: FileResult): (e: Exception)
    ensures r.exc.Some? ==> e == r.exc.value
    ensures r.exc.None? ==> e.message == NO_EXCEPTION_MESSAGE
  {
    if r.exc.None? then Exception(NO_EXCEPTION_MESSAGE) else r.exc.value
  }

  /** What getExc yields for each constructor. */
  lemma GetExcOfConstructors(p: MD5Util.Platform, path: string, s: FileStatus, t: int, exc: Exception)
    ensures GetExc(NewErrorResult(p, path, s, exc)) == exc
    ensures GetExc(NewSuccessResult(p, path, s, t)).message == NO_EXCEPTION_MESSAGE
  {
  }

  /** The name an enum constant prints as. */
  function StatusName(s: FileStatus): string {
    match s
    case SUCCESS => "SUCCESS"
    case ERROR => "ERROR"
    case COMPLETE => "COMPLETE"
  }

  /** String concatenation of a possibly-null FileTime: its text, or "null". */
  function TimeText(t: Option<int>, fileTimeText: int -> string): string {
    if t.None? then "null" else fileTimeText(t.value)
  }

  /** toString: path, status, lastModified and hash, joined by single spaces. */
  function ToString(r: FileResult, fileTimeText: int -> string): (s: string)
    ensures |s| == |r.filePath| + |StatusName(r.fileStatus)| + |TimeText(r.lastModified, fileTimeText)| + |r.filePathHash| + 3
    ensures s[..|r.filePath|] == r.filePath && s[|r.filePath|] == ' '
    ensures s[|s| - |r.filePathHash|..] == r.filePathHash && s[|s| - |r.filePathHash| - 1] == ' '
  {
    r.filePath + " " + StatusName(r.fileStatus) + " " + TimeText(r.lastModified, fileTimeText) + " " + r.filePathHash
  }

  /** `s.split(" ", -1)`: the pieces between single spaces, empty pieces kept. */
  function Split(s: string): (parts: seq<string>)
    ensures |parts| >= 1
  {
    if |s| == 0 then [""]
    else
      var rest := Split(s[1..]);
      if s[0] == ' ' then [""] + rest else [[s[0]] + rest[0]] + rest[1..]
  }

  lemma {:induction false} SplitNoSpace(s: string)
    requires ' ' !in s
    ensures Split(s) == [s]
  {
    if |s| > 0 {
      assert ' ' !in s[1..];
      SplitNoSpace(s[1..]);
      assert [s[0]] + s[1..] == s;
    }
  }

  lemma {:induction false} SplitAfterField(a: string, b: string)
    requires ' ' !in a
    ensures Split(a + " " + b) == [a] + Split(b)
  {
    if |a| == 0 {
      assert a + " " + b == [' '] + b;
      assert (a + " " + b)[1..] == b;
    } else {
      assert (a + " " + b)[1..] == a[1..] + " " + b;
      assert ' ' !in a[1..];
      SplitAfterField(a[1..], b);
      assert [a[0]] + a[1..] == a;
    }
  }

  /**
   * When neither the path nor the time text contains a space, the four fields
   * can be read back from toString in order.
   */
  lemma ToStringFieldsRecoverable(p: MD5Util.Platform, r: FileResult, fileTimeText: int -> string)
    requires Constructed(p, r)
    requires ' ' !in r.filePath && ' ' !in TimeText(r.lastModified, fileTimeText)
    ensures Split(ToString(r, fileTimeText)) ==
      [r.filePath, StatusName(r.fileStatus), TimeText(r.lastModified, fileTimeText), r.filePathHash]
  {
    HexHasNoSpace(r.filePathHash);
    assert ' ' !in StatusName(r.fileStatus);
    SplitFourFields(r.filePath, StatusName(r.fileStatus), TimeText(r.lastModified, fileTimeText), r.filePathHash);
  }

  lemma SplitFourFields(a: string, b: string, c: string, d: string)
    requires ' ' !in a && ' ' !in b && ' ' !in c && ' ' !in d
    ensures Split(a + " " + b + " " + c + " " + d) == [a, b, c, d]
  {
    var cd := c + " " + d;
    var bcd := b + " " + cd;
    SplitNoSpace(d);
    SplitAfterField(c, d);
    assert Split(cd) == [c, d];
    SplitAfterField(b, cd);
    assert Split(bcd) == [b, c, d];
    SplitAfterField(a, bcd);
    assert a + " " + b + " " + c + " " + d == a + " " + bcd;
  }

  lemma HexHasNoSpace(s: string)
    requires MD5Util.IsLowerHex(s)
    ensures ' ' !in s
  {
  }

  /**
   * The heap object behind a FileResult reference, for the completion event,
   * which calls `setFileStatus` on it; that setter is not declared by the
   * FileResult class.
   */
  class FileResultObject {
    var value: FileResult

    constructor (r: FileResult)
      ensures value == r
    {
      value := r;
    }

    method SetFileStatus(s: FileStatus)
      modifies this
      ensures value == old(value).(fileStatus := s)
    {
      value := value.(fileStatus := s);
    }
  }
}
