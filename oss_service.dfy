/**
 * The object-storage facade of users/oss_service.py: how an object key and a
 * public URL are composed, and how the outcome of a remote put or remove is
 * mapped onto a uniform result that never raises.
 *
 * The vendor SDK is not modelled. The remote bucket is a map from object key to
 * bytes, and the answer of each remote call (an HTTP status or an exception
 * message) is a parameter, so every possible answer is covered. The UUID, the
 * local date and the bytes are parameters too.
 */
module OssService {
  import opened Numerals
  import opened Wrappers

  type byte = bv8

  const DefaultFolder: string := "uploads"
  const StatusOk: int := 200

  // ---------------------------------------------------------------------------
  // The extension, by the rules of os.path.splitext on a POSIX system
  // ---------------------------------------------------------------------------

  /** Index of the last `c` in `s`, or -1 (Python's str.rfind). */
  function LastIndexOf(s: string, c: char): (i: int)
    ensures -1 <= i < |s|
    ensures i >= 0 ==> s[i] == c
    ensures forall j :: i < j < |s| ==> s[j] != c
  {
    if s == [] then -1
    else if s[|s| - 1] == c then |s| - 1
    else LastIndexOf(s[..|s| - 1], c)
  }

  datatype PathParts = PathParts(root: string, ext: string)

  /**
   * The split is at the last dot, provided it lies in the last path component
   * and some character other than a dot precedes it within that component;
   * otherwise the extension is empty.
   */
  function SplitExt(p: string): PathParts
  {
    var sep := LastIndexOf(p, '/');
    var dot := LastIndexOf(p, '.');
    if sep < dot && exists k :: sep < k < dot && p[k] != '.' then
      PathParts(p[..dot], p[dot..])
    else
      PathParts(p, "")
  }

  /** The part of a path after its last '/'. */
  function LastComponent(p: string): string
  {
    p[LastIndexOf(p, '/') + 1..]
  }

  /** Every dot of `c` has only dots before it: ".hidden", "...", "name". */
  predicate OnlyLeadingDots(c: string)
  {
    forall i, j :: 0 <= j < i < |c| && c[i] == '.' ==> c[j] == '.'
  }

  /** Root and extension put back together give the filename. */
  lemma SplitExtJoin(p: string)
    ensures SplitExt(p).root + SplitExt(p).ext == p
  {
    var dot := LastIndexOf(p, '.');
    if SplitExt(p).ext != "" {
      assert p[..dot] + p[dot..] == p;
    }
  }

  /** The extension is empty, or a dot followed by characters that are neither dot nor '/'; its case is kept. */
  lemma ExtensionShape(p: string)
    ensures var ext := SplitExt(p).ext;
      ext == "" || (ext[0] == '.' && forall i :: 1 <= i < |ext| ==> ext[i] != '.' && ext[i] != '/')
    ensures SplitExt(p).ext == p[|p| - |SplitExt(p).ext|..]
  {
    var sep := LastIndexOf(p, '/');
    var dot := LastIndexOf(p, '.');
    var ext := SplitExt(p).ext;
    if ext != "" {
      assert ext == p[dot..];
      forall i | 1 <= i < |ext|
        ensures ext[i] != '.' && ext[i] != '/'
      {
        assert ext[i] == p[dot + i];
      }
    }
  }

  /** The extension is empty exactly when the last path component has no dot after a non-dot character. */
  lemma ExtensionEmptyIff(p: string)
    ensures SplitExt(p).ext == "" <==> OnlyLeadingDots(LastComponent(p))
  {
    if SplitExt(p).ext == "" {
      EmptyExtensionLeadingDots(p);
    } else {
      var sep := LastIndexOf(p, '/');
      var dot := LastIndexOf(p, '.');
      var c := LastComponent(p);
      var k :| sep < k < dot && p[k] != '.';
      assert c[dot - sep - 1] == p[dot] && c[k - sep - 1] == p[k];
    }
  }

  lemma EmptyExtensionLeadingDots(p: string)
    requires SplitExt(p).ext == ""
    ensures OnlyLeadingDots(LastComponent(p))
  {
    var sep := LastIndexOf(p, '/');
    var dot := LastIndexOf(p, '.');
    var c := LastComponent(p);
    assert sep < dot ==> forall k :: sep < k < dot ==> p[k] == '.';
    forall i, j | 0 <= j < i < |c| && c[i] == '.'
      ensures c[j] == '.'
    {
      var ki, kj := sep + 1 + i, sep + 1 + j;
      assert c[i] == p[ki] && c[j] == p[kj];
      assert sep < kj < ki <= dot;
    }
  }

  // ---------------------------------------------------------------------------
  // The unique part and the date partition
  // ---------------------------------------------------------------------------

  const UuidSpace: nat := Pow(16, 32)

  /** `uuid4().hex`: the 128-bit integer as 32 lower-case hex digits. */
  function UuidHex(uuid: nat): (h: string)
    requires uuid < UuidSpace
  {
    Numeral(uuid, 32, LowerHexDigits)
  }

  predicate IsLowerHex(c: char)
  {
    c in LowerHexDigits
  }

  /** The unique part is exactly 32 lower-case hex characters, and it determines the UUID it came from. */
  lemma UuidHexShape(uuid: nat)
    requires uuid < UuidSpace
    ensures |UuidHex(uuid)| == 32
    ensures forall i :: 0 <= i < 32 ==> IsLowerHex(UuidHex(uuid)[i])
    ensures NumeralValue(UuidHex(uuid), LowerHexDigits) == uuid
  {
    StandardAlphabetsDistinct();
    NumeralRoundTrip(uuid, 32, LowerHexDigits);
  }

  /** A calendar date as `datetime.now()` gives it (local time). */
  datatype Date = Date(year: nat, month: nat, day: nat)

  predicate ValidDate(d: Date)
  {
    1 <= d.year <= 9999 && 1 <= d.month <= 12 && 1 <= d.day <= 31
  }

  /** `strftime('%Y/%m/%d')`. */
  function DatePath(d: Date): string
  {
    Numeral(d.year, 4, DecimalDigits) + "/" + Numeral(d.month, 2, DecimalDigits) + "/" + Numeral(d.day, 2, DecimalDigits)
  }

  /** Reads a `YYYY/MM/DD` string back into a date. */
  function ParseDatePath(s: string): Option<Date>
  {
    if |s| == 10 && s[4] == '/' && s[7] == '/' then
      Some(Date(NumeralValue(s[..4], DecimalDigits), NumeralValue(s[5..7], DecimalDigits), NumeralValue(s[8..], DecimalDigits)))
    else
      None
  }

  /** The date path is 10 characters: 4 year digits, '/', 2 month digits, '/', 2 day digits, and it reads back as the date. */
  lemma DatePathRoundTrip(d: Date)
    requires ValidDate(d)
    ensures |DatePath(d)| == 10 && DatePath(d)[4] == '/' && DatePath(d)[7] == '/'
    ensures forall i :: 0 <= i < 10 && i != 4 && i != 7 ==> DatePath(d)[i] in DecimalDigits
    ensures ParseDatePath(DatePath(d)) == Some(d)
  {
    var y, m, dd := Numeral(d.year, 4, DecimalDigits), Numeral(d.month, 2, DecimalDigits), Numeral(d.day, 2, DecimalDigits);
    DatePathFields(y, m, dd);
    DecimalRoundTrip(d.year, 4);
    DecimalRoundTrip(d.month, 2);
    DecimalRoundTrip(d.day, 2);
  }

  /** Where the three fields of a date path lie. */
  lemma DatePathFields(y: string, m: string, dd: string)
    requires |y| == 4 && |m| == 2 && |dd| == 2
    ensures var s := y + "/" + m + "/" + dd;
      && |s| == 10 && s[4] == '/' && s[7] == '/'
      && s[..4] == y && s[5..7] == m && s[8..] == dd
      && (forall i :: 0 <= i < 4 ==> s[i] == y[i])
      && (forall i :: 5 <= i < 7 ==> s[i] == m[i - 5])
      && (forall i :: 8 <= i < 10 ==> s[i] == dd[i - 8])
  {
  }

  lemma DecimalRoundTrip(v: nat, width: nat)
    requires width == 2 || width == 4
    requires if width == 2 then v < 100 else v < 10000
    ensures NumeralValue(Numeral(v, width, DecimalDigits), DecimalDigits) == v
  {
    assert Pow(10, 2) == 100;
    assert Pow(10, 4) == 10000;
    StandardAlphabetsDistinct();
    NumeralRoundTrip(v, width, DecimalDigits);
  }

  // ---------------------------------------------------------------------------
  // generate_object_key and get_file_url
  // ---------------------------------------------------------------------------

  /** `generate_object_key`: `folder/YYYY/MM/DD/<32 hex digits><ext>`. */
  function ObjectKey(filename: string, folder: string, uuid: nat, date: Date): string
    requires uuid < UuidSpace
  {
    folder + "/" + DatePath(date) + "/" + UuidHex(uuid) + SplitExt(filename).ext
  }

  /**
   * An object key can be taken apart again: after the folder and a '/', the
   * date, a '/', the UUID as 32 hex digits, and the filename's extension.
   */
  lemma ObjectKeyDecodes(filename: string, folder: string, uuid: nat, date: Date)
    requires uuid < UuidSpace && ValidDate(date)
    ensures var k, n := ObjectKey(filename, folder, uuid, date), |folder|;
      && |k| == n + 44 + |SplitExt(filename).ext|
      && k[..n] == folder && k[n] == '/'
      && ParseDatePath(k[n + 1..n + 11]) == Some(date) && k[n + 11] == '/'
      && NumeralValue(k[n + 12..n + 44], LowerHexDigits) == uuid
      && (forall i :: n + 12 <= i < n + 44 ==> IsLowerHex(k[i]))
      && k[n + 44..] == SplitExt(filename).ext
  {
    var dp, h, ext := DatePath(date), UuidHex(uuid), SplitExt(filename).ext;
    DatePathRoundTrip(date);
    UuidHexShape(uuid);
    ObjectKeyFields(folder, dp, h, ext);
  }

  /** Where the four parts of an object key lie. */
  lemma ObjectKeyFields(folder: string, dp: string, h: string, ext: string)
    requires |dp| == 10 && |h| == 32
    ensures var k, n := folder + "/" + dp + "/" + h + ext, |folder|;
      && |k| == n + 44 + |ext|
      && k[..n] == folder && k[n] == '/' && k[n + 1..n + 11] == dp && k[n + 11] == '/'
      && k[n + 12..n + 44] == h && k[n + 44..] == ext
      && (forall i :: n + 12 <= i < n + 44 ==> k[i] == h[i - n - 12])
  {
  }

  /** Two uploads into one folder on one day get different keys whenever their UUIDs differ. */
  lemma ObjectKeysDistinct(name1: string, name2: string, folder: string, u1: nat, u2: nat, date: Date)
    requires u1 < UuidSpace && u2 < UuidSpace && ValidDate(date) && u1 != u2
    ensures ObjectKey(name1, folder, u1, date) != ObjectKey(name2, folder, u2, date)
  {
    ObjectKeyDecodes(name1, folder, u1, date);
    ObjectKeyDecodes(name2, folder, u2, date);
  }

  /** With the default folder, every key lies under "uploads/". */
  lemma DefaultFolderKey(filename: string, uuid: nat, date: Date)
    requires uuid < UuidSpace
    ensures var k := ObjectKey(filename, DefaultFolder, uuid, date);
      |k| > 8 && k[..8] == "uploads/"
  {
    var k := ObjectKey(filename, DefaultFolder, uuid, date);
    assert k == DefaultFolder + ("/" + DatePath(date) + "/" + UuidHex(uuid) + SplitExt(filename).ext);
  }

  /** A filename whose last component has no extension gives a key that ends in the bare hex digits. */
  lemma KeyWithoutExtension(filename: string, folder: string, uuid: nat, date: Date)
    requires uuid < UuidSpace
    requires OnlyLeadingDots(LastComponent(filename))
    ensures var k := ObjectKey(filename, folder, uuid, date);
      |k| >= 32 && k[|k| - 32..] == UuidHex(uuid)
  {
    ExtensionEmptyIff(filename);
    UuidHexShape(uuid);
  }

  // ---------------------------------------------------------------------------
  // Results of upload_file and delete_file
  // ---------------------------------------------------------------------------

  /** What a remote call answered: a response with an HTTP status, or an exception and its text. */
  datatype RemoteOutcome = Status(code: int) | Raised(message: string)

  /** The `error` field of a failure: a status code, or the text of an exception. */
  datatype ErrorInfo = StatusError(status: int) | ExceptionText(message: string)

  datatype UploadResult =
    | Uploaded(objectKey: string, fileUrl: string, originalFilename: string, size: nat)
    | UploadFailed(error: ErrorInfo)

  datatype DeleteResult = Deleted(objectKey: string) | DeleteFailed(error: ErrorInfo)

  /**
   * The text of the AttributeError raised when the failure branch of
   * upload_file reads `status_code` from the put result, which has `status`.
   */
  const MissingStatusCodeText: string := "'PutObjectResult' object has no attribute 'status_code'"

  /** upload_file's result mapping as the code is written: the failure branch raises, and the handler reports the exception. */
  function UploadResultAsWritten(outcome: RemoteOutcome, key: string, url: string, filename: string, size: nat): UploadResult
  {
    match outcome
    case Status(code) =>
      if code == StatusOk then Uploaded(key, url, filename, size)
      else UploadFailed(ExceptionText(MissingStatusCodeText))
    case Raised(message) => UploadFailed(ExceptionText(message))
  }

  /** upload_file's result mapping as intended: a non-200 status is reported as that status. */
  function UploadResultOf(outcome: RemoteOutcome, key: string, url: string, filename: string, size: nat): UploadResult
  {
    match outcome
    case Status(code) =>
      if code == StatusOk then Uploaded(key, url, filename, size)
      else UploadFailed(StatusError(code))
    case Raised(message) => UploadFailed(ExceptionText(message))
  }

  /**
   * The remote call took effect: the SDKs raise on any answer outside 2xx, so
   * a call that returned a 2xx status applied the put or the remove.
   */
  predicate Applied(outcome: RemoteOutcome)
  {
    outcome.Status? && 200 <= outcome.code < 300
  }

  /** delete_file's result mapping as the code is written: success only on status 200. */
  function DeleteResultAsWritten(outcome: RemoteOutcome, key: string): DeleteResult
  {
    match outcome
    case Status(code) => if code == StatusOk then Deleted(key) else DeleteFailed(StatusError(code))
    case Raised(message) => DeleteFailed(ExceptionText(message))
  }

  /** delete_file's result mapping as intended: success whenever the remove took effect. */
  function DeleteResultOf(outcome: RemoteOutcome, key: string): DeleteResult
  {
    match outcome
    case Status(code) => if Applied(outcome) then Deleted(key) else DeleteFailed(StatusError(code))
    case Raised(message) => DeleteFailed(ExceptionText(message))
  }

  /**
   * As written, a put answered with status 203 is reported with the text of an
   * AttributeError and the status is lost.
   */
  lemma UploadStatusLostAsWritten()
    ensures UploadResultAsWritten(Status(203), "k", "/k", "a.png", 1) == UploadFailed(ExceptionText(MissingStatusCodeText))
    ensures UploadResultOf(Status(203), "k", "/k", "a.png", 1) == UploadFailed(StatusError(203))
  {
  }

  /**
   * Both mappings report success exactly on status 200, and then agree on the
   * whole record; they differ only in the error of a non-200 status, which the
   * intended mapping reports as that status.
   */
  lemma UploadResultsAgree(outcome: RemoteOutcome, key: string, url: string, filename: string, size: nat)
    ensures var w, r := UploadResultAsWritten(outcome, key, url, filename, size), UploadResultOf(outcome, key, url, filename, size);
      && (r.Uploaded? <==> outcome == Status(StatusOk))
      && (w.Uploaded? <==> r.Uploaded?)
      && (r.Uploaded? ==> w == r && r == Uploaded(key, url, filename, size))
      && (outcome.Raised? ==> w == r == UploadFailed(ExceptionText(outcome.message)))
      && (outcome.Status? && outcome.code != StatusOk ==> r.error == StatusError(outcome.code))
  {
  }

  /**
   * The intended delete_file reports success, carrying the same key, exactly
   * when the remove took effect; it agrees with the code as written on every
   * outcome but a 2xx status other than 200.
   */
  lemma DeleteResultIff(outcome: RemoteOutcome, key: string)
    ensures DeleteResultOf(outcome, key).Deleted? <==> Applied(outcome)
    ensures DeleteResultOf(outcome, key).Deleted? ==> DeleteResultOf(outcome, key).objectKey == key
    ensures outcome.Raised? ==> DeleteResultOf(outcome, key) == DeleteFailed(ExceptionText(outcome.message))
    ensures outcome.Status? && !Applied(outcome) ==> DeleteResultOf(outcome, key) == DeleteFailed(StatusError(outcome.code))
    ensures DeleteResultAsWritten(outcome, key) != DeleteResultOf(outcome, key) <==> Applied(outcome) && outcome.code != StatusOk
  {
  }

  /** The remote bucket after a put: the object is stored when the put took effect. */
  function AfterPut(objects: map<string, seq<byte>>, key: string, content: seq<byte>, outcome: RemoteOutcome): map<string, seq<byte>>
  {
    if Applied(outcome) then objects[key := content] else objects
  }

  /** The remote bucket after a remove: the object is gone when the remove took effect. */
  function AfterDelete(objects: map<string, seq<byte>>, key: string, outcome: RemoteOutcome): map<string, seq<byte>>
  {
    if Applied(outcome) then objects - {key} else objects
  }

  /** The intended delete result tells the truth about a stored object: success exactly when it is gone afterwards. */
  lemma DeleteResultMatchesBucket(objects: map<string, seq<byte>>, key: string, outcome: RemoteOutcome)
    requires key in objects
    ensures DeleteResultOf(outcome, key).Deleted? <==> key !in AfterDelete(objects, key, outcome)
  {
  }

  /**
   * As written, a remove answered 204 (No Content, the store's usual answer to
   * a delete) takes the object away and is reported as a failure carrying 204.
   */
  lemma DeleteNoContentAsWritten(objects: map<string, seq<byte>>, key: string)
    requires key in objects
    ensures DeleteResultAsWritten(Status(204), key) == DeleteFailed(StatusError(204))
    ensures key !in AfterDelete(objects, key, Status(204))
    ensures DeleteResultOf(Status(204), key) == Deleted(key)
  {
  }

  /** Removing a freshly stored object, with both calls taking effect, restores the bucket. */
  lemma PutThenDeleteRestores(objects: map<string, seq<byte>>, key: string, content: seq<byte>, put: RemoteOutcome, remove: RemoteOutcome)
    requires key !in objects && Applied(put) && Applied(remove)
    ensures AfterDelete(AfterPut(objects, key, content, put), key, remove) == objects
  {
    var after := AfterDelete(AfterPut(objects, key, content, put), key, remove);
    assert after.Keys == objects.Keys;
  }

  /** AlibabaCloudOSSService: the configured prefix and the remote bucket it stores into. */
  class StorageService {
    const bucketName: string
    const urlPrefix: string
    var objects: map<string, seq<byte>>

    /** The settings OSS_BUCKET_NAME and OSS_URL_PREFIX (both default to ""), and the bucket as it stands. */
    constructor (bucketName: string, urlPrefix: string, objects: map<string, seq<byte>>)
      ensures this.bucketName == bucketName && this.urlPrefix == urlPrefix && this.objects == objects
    {
      this.bucketName := bucketName;
      this.urlPrefix := urlPrefix;
      this.objects := objects;
    }

    /** `get_file_url`: the prefix, a '/', then the key. */
    function FileUrl(key: string): string
    {
      urlPrefix + "/" + key
    }

    /** The key can be read back from the URL, so distinct keys have distinct URLs. */
    lemma FileUrlDecodes(key: string)
      ensures |FileUrl(key)| == |urlPrefix| + 1 + |key|
      ensures FileUrl(key)[..|urlPrefix|] == urlPrefix && FileUrl(key)[|urlPrefix|] == '/'
      ensures FileUrl(key)[|urlPrefix| + 1..] == key
    {
      assert FileUrl(key) == urlPrefix + ("/" + key);
    }

    /**
     * `upload_file`: composes the key, puts the bytes, and maps the answer onto a
     * result; it never fails, whatever the remote call answers.
     */
    method UploadFile(content: seq<byte>, filename: string, folder: string, uuid: nat, date: Date, outcome: RemoteOutcome)
      returns (r: UploadResult)
      requires uuid < UuidSpace
      modifies this
      ensures var key := ObjectKey(filename, folder, uuid, date);
        && r == UploadResultOf(outcome, key, FileUrl(key), filename, |content|)
        && objects == AfterPut(old(objects), key, content, outcome)
    {
      var key := ObjectKey(filename, folder, uuid, date);
      match outcome {
        case Status(code) =>
          if 200 <= code < 300 {
            objects := objects[key := content];
          }
          if code == StatusOk {
            r := Uploaded(key, FileUrl(key), filename, |content|);
          } else {
            r := UploadFailed(StatusError(code));
          }
        case Raised(message) =>
          r := UploadFailed(ExceptionText(message));
      }
    }

    /** `delete_file` with the corrected mapping: removes the object and reports whether it is gone; it never fails. */
    method DeleteFile(key: string, outcome: RemoteOutcome) returns (r: DeleteResult)
      modifies this
      ensures r == DeleteResultOf(outcome, key)
      ensures objects == AfterDelete(old(objects), key, outcome)
    {
      match outcome {
        case Status(code) =>
          if 200 <= code < 300 {
            objects := objects - {key};
            r := Deleted(key);
          } else {
            r := DeleteFailed(StatusError(code));
          }
        case Raised(message) =>
          r := DeleteFailed(ExceptionText(message));
      }
    }
  }
}
