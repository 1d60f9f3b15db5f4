/**
 * The upload endpoint's handler. It walks the five document fields in a fixed
 * order; the first field without a filename aborts the request with a server
 * error. Every other field is converted to PDF, uploaded under a name derived
 * from the submitter's name, and reported in the success response. Conversion
 * and upload failures never reach the handler, so they do not change what it
 * reports.
 */
module Handler {
  import opened Common
  import opened Naming
  import opened Imaging
  import opened Storage

  /** An uploaded form file: its client-side filename (possibly absent) and its content. */
  datatype UploadFile = UploadFile(filename: Option<string>, content: seq<byte>)

  /** The form of one request: the submitter's name and the five document files. */
  datatype Request = Request(
    fullname: string,
    idCard: UploadFile,
    entrance: UploadFile,
    transcript: UploadFile,
    gradereport: UploadFile,
    degree: UploadFile)

  /** The external collaborators: the image library and the remote object store. */
  datatype Env = Env(codec: Codec, remote: Remote)

  /** One entry of the success response's `uploaded` list. */
  datatype Entry = Entry(field: string, savedAs: string)

  const SUCCESS_STATUS: string := "success"
  const SUCCESS_MESSAGE: string := "Image processed and saved successfully."
  const FAILURE_PREFIX: string := "File upload failed due to a server error: "

  /** The two ways the handler ends: a 200 JSON body or an HTTP 500 error with a detail text. */
  datatype Response =
    | Success(status: string, message: string, fullname: string, uploaded: seq<Entry>)
    | ServerError(detail: string)
  {
    function StatusCode(): int
    {
      if Success? then 200 else 500
    }
  }

  /**
   * One field the handler got past the filename check: the arguments it then
   * passed to the uploader, namely the file name and the converted buffer
   * (None when conversion failed).
   */
  datatype Attempt = Attempt(field: Field, fileName: string, pdf: Option<Pdf>)

  /** Everything a request produces: the response, the bucket afterwards and the uploads attempted. */
  datatype Outcome = Outcome(response: Response, bucket: Bucket, attempts: seq<Attempt>)

  /** The form parameter each field is read from. */
  function FileOf(req: Request, f: Field): UploadFile
  {
    match f
    case IdCard => req.idCard
    case EntranceExam => req.entrance
    case Transcript => req.transcript
    case GradeReport => req.gradereport
    case Degree => req.degree
  }

  /** The field table, in insertion order: each field paired with its form file. */
  function FileFields(req: Request): (table: seq<(Field, UploadFile)>)
    ensures |table| == |FIELD_ORDER|
    ensures forall j :: 0 <= j < |table| ==> table[j] == (FIELD_ORDER[j], FileOf(req, FIELD_ORDER[j]))
  {
    [ (IdCard, req.idCard),
      (EntranceExam, req.entrance),
      (Transcript, req.transcript),
      (GradeReport, req.gradereport),
      (Degree, req.degree) ]
  }

  /** The guard: a filename that is None or empty. */
  predicate MissingFilename(file: UploadFile)
  {
    file.filename.None? || file.filename.value == ""
  }

  /** The text of the error raised for a field without a filename. */
  function MissingFieldMessage(f: Field): string
  {
    "No filename provided for " + FieldKey(f)
  }

  /** True when every field of the request has a filename. */
  predicate AllNamed(req: Request)
  {
    forall j :: 0 <= j < |FileFields(req)| ==> !MissingFilename(FileFields(req)[j].1)
  }

  /** The index of the first entry at or after `from` whose filename is missing, or the table's length. */
  function FirstMissingFrom(table: seq<(Field, UploadFile)>, from: nat): (k: nat)
    requires from <= |table|
    ensures from <= k <= |table|
    ensures forall j :: from <= j < k ==> !MissingFilename(table[j].1)
    ensures k < |table| ==> MissingFilename(table[k].1)
    decreases |table| - from
  {
    if from == |table| || MissingFilename(table[from].1) then from
    else FirstMissingFrom(table, from + 1)
  }

  /** The number of fields the handler gets past before it stops; 5 when none is missing. */
  function FirstMissing(req: Request): (k: nat)
    ensures k <= |FIELD_ORDER|
  {
    FirstMissingFrom(FileFields(req), 0)
  }

  /** The prefix used for every object name of a request. */
  function Prefix(req: Request): string
  {
    Sanitize(req.fullname)
  }

  /** What the handler hands to the uploader for the j-th field. */
  function AttemptAt(req: Request, env: Env, j: nat): Attempt
    requires j < |FIELD_ORDER|
  {
    var f := FIELD_ORDER[j];
    Attempt(f, FinalFileName(Prefix(req), FieldKey(f)), ImageToPdf(FileOf(req, f).content, env.codec))
  }

  /** What the handler reports for the j-th field. */
  function EntryAt(req: Request, j: nat): Entry
    requires j < |FIELD_ORDER|
  {
    Entry(FieldKey(FIELD_ORDER[j]), ObjectKey(Prefix(req), FIELD_ORDER[j]))
  }

  /** The uploads of the first k fields. */
  function AttemptsUpTo(req: Request, env: Env, k: nat): (r: seq<Attempt>)
    requires k <= |FIELD_ORDER|
    ensures |r| == k
    ensures forall j :: 0 <= j < k ==> r[j] == AttemptAt(req, env, j)
  {
    if k == 0 then [] else AttemptsUpTo(req, env, k - 1) + [AttemptAt(req, env, k - 1)]
  }

  /** The response entries of the first k fields. */
  function EntriesUpTo(req: Request, k: nat): (r: seq<Entry>)
    requires k <= |FIELD_ORDER|
    ensures |r| == k
    ensures forall j :: 0 <= j < k ==> r[j] == EntryAt(req, j)
  {
    if k == 0 then [] else EntriesUpTo(req, k - 1) + [EntryAt(req, k - 1)]
  }

  /** The bucket after the uploads of the first k fields, performed in order. */
  function StoreUpTo(req: Request, env: Env, bucket: Bucket, k: nat): Bucket
    requires k <= |FIELD_ORDER|
  {
    if k == 0 then bucket
    else
      var a := AttemptAt(req, env, k - 1);
      UploadPdfToR2(a.fileName, a.pdf, env.remote, StoreUpTo(req, env, bucket, k - 1))
  }

  /**
   * The handler's specification: the fields before the first one without a
   * filename are converted and uploaded; that field, if any, ends the request
   * with a server error; otherwise all five are reported.
   */
  function UploadDocumentsSpec(req: Request, env: Env, bucket: Bucket): Outcome
  {
    var k := FirstMissing(req);
    var attempts := AttemptsUpTo(req, env, k);
    var response :=
      if k < |FIELD_ORDER| then ServerError(FAILURE_PREFIX + MissingFieldMessage(FIELD_ORDER[k]))
      else Success(SUCCESS_STATUS, SUCCESS_MESSAGE, req.fullname, EntriesUpTo(req, |FIELD_ORDER|));
    Outcome(response, StoreUpTo(req, env, bucket, k), attempts)
  }

  /** The scan for a missing filename stops exactly at the first one. */
  lemma FirstMissingIs(req: Request, k: nat)
    requires k <= |FIELD_ORDER|
    requires forall j :: 0 <= j < k ==> !MissingFilename(FileFields(req)[j].1)
    requires k < |FIELD_ORDER| ==> MissingFilename(FileFields(req)[k].1)
    ensures FirstMissing(req) == k
  {
  }

  /** `upload_documents`: the loop over the field table. */
  method UploadDocuments(req: Request, env: Env, bucket0: Bucket)
    returns (response: Response, bucket: Bucket, attempts: seq<Attempt>)
    ensures Outcome(response, bucket, attempts) == UploadDocumentsSpec(req, env, bucket0)
  {
    var fileFields := FileFields(req);
    var uploadedFileInfo: seq<Entry> := [];
    attempts := [];
    bucket := bucket0;
    for i := 0 to |fileFields|
      invariant i <= FirstMissing(req)
      invariant attempts == AttemptsUpTo(req, env, i)
      invariant uploadedFileInfo == EntriesUpTo(req, i)
      invariant bucket == StoreUpTo(req, env, bucket0, i)
    {
      var (fieldName, file) := fileFields[i];
      if MissingFilename(file) {
        response := ServerError(FAILURE_PREFIX + MissingFieldMessage(fieldName));
        FirstMissingIs(req, i);
        return;
      }
      var sanitizedFullname := Sanitize(req.fullname);
      var finalFileName := FinalFileName(sanitizedFullname, FieldKey(fieldName));
      var pdfBuffer := ImageToPdf(file.content, env.codec);
      bucket := UploadPdfToR2(finalFileName, pdfBuffer, env.remote, bucket);
      attempts := attempts + [Attempt(fieldName, finalFileName, pdfBuffer)];
      uploadedFileInfo := uploadedFileInfo + [Entry(FieldKey(fieldName), ObjectName(finalFileName))];
    }
    response := Success(SUCCESS_STATUS, SUCCESS_MESSAGE, req.fullname, uploadedFileInfo);
    FirstMissingIs(req, |FIELD_ORDER|);
  }

  // ----- What the handler promises -----

  /** The request succeeds exactly when every field has a filename; otherwise it is a 500. */
  lemma SucceedsIffEveryFilenameGiven(req: Request, env: Env, bucket: Bucket)
    ensures UploadDocumentsSpec(req, env, bucket).response.Success? <==> AllNamed(req)
    ensures UploadDocumentsSpec(req, env, bucket).response.StatusCode() == if AllNamed(req) then 200 else 500
  {
  }

  /**
   * A successful response echoes the submitted name unchanged and lists the
   * five fields once each, in table order, each with the object name its
   * upload was given.
   */
  lemma SuccessReportsEveryField(req: Request, env: Env, bucket: Bucket)
    requires AllNamed(req)
    ensures var o := UploadDocumentsSpec(req, env, bucket);
      && o.response.Success?
      && o.response.status == SUCCESS_STATUS
      && o.response.message == SUCCESS_MESSAGE
      && o.response.fullname == req.fullname
      && |o.response.uploaded| == |FIELD_ORDER| == |o.attempts|
    ensures var o := UploadDocumentsSpec(req, env, bucket);
      forall j :: 0 <= j < |FIELD_ORDER| ==>
        && o.response.uploaded[j].field == FieldKey(FIELD_ORDER[j])
        && o.response.uploaded[j].savedAs == ObjectKey(Prefix(req), FIELD_ORDER[j])
        && o.response.uploaded[j].savedAs == ObjectName(o.attempts[j].fileName)
    ensures var o := UploadDocumentsSpec(req, env, bucket);
      forall i, j :: 0 <= i < j < |FIELD_ORDER| ==>
        && o.response.uploaded[i].field != o.response.uploaded[j].field
        && o.response.uploaded[i].savedAs != o.response.uploaded[j].savedAs
  {
    // Dafny also finds this proof unaided; these steps make it several times cheaper.
    var prefix := Prefix(req);
    forall i, j | 0 <= i < j < |FIELD_ORDER|
      ensures ObjectKey(prefix, FIELD_ORDER[i]) != ObjectKey(prefix, FIELD_ORDER[j])
    {
      ObjectKeysDistinct(prefix, FIELD_ORDER[i], FIELD_ORDER[j]);
    }
  }

  /**
   * When the k-th field is the first without a filename, the request ends in
   * the 500 error naming that field; exactly the fields before it were
   * converted and uploaded, and no later one was.
   */
  lemma FailureStopsAtFirstMissing(req: Request, env: Env, bucket: Bucket, k: nat)
    requires k < |FIELD_ORDER|
    requires MissingFilename(FileOf(req, FIELD_ORDER[k]))
    requires forall j :: 0 <= j < k ==> !MissingFilename(FileOf(req, FIELD_ORDER[j]))
    ensures var o := UploadDocumentsSpec(req, env, bucket);
      o.response == ServerError(FAILURE_PREFIX + MissingFieldMessage(FIELD_ORDER[k]))
    ensures var o := UploadDocumentsSpec(req, env, bucket);
      && |o.attempts| == k
      && (forall j :: 0 <= j < k ==> o.attempts[j].field == FIELD_ORDER[j])
      && (forall i, j :: 0 <= i < k <= j < |FIELD_ORDER| ==> o.attempts[i].field != FIELD_ORDER[j])
  {
    // Dafny also finds this proof unaided; these steps make it several times cheaper.
    FirstMissingIs(req, k);
    FieldOrderDistinct();
  }

  /**
   * Conversion and upload results never reach the response: whatever the
   * image library and the store do, and whatever the bucket held, the
   * response is the same, and the same fields are uploaded, in the same
   * order, under the same file names.
   */
  lemma ExternalFailuresAreAbsorbed(req: Request, env1: Env, env2: Env, bucket1: Bucket, bucket2: Bucket)
    ensures UploadDocumentsSpec(req, env1, bucket1).response == UploadDocumentsSpec(req, env2, bucket2).response
    ensures var a1, a2 := UploadDocumentsSpec(req, env1, bucket1).attempts, UploadDocumentsSpec(req, env2, bucket2).attempts;
      |a1| == |a2| && forall j :: 0 <= j < |a1| ==> a1[j].field == a2[j].field && a1[j].fileName == a2[j].fileName
  {
  }

  /** The object name the j-th upload writes is that field's object key. */
  lemma AttemptKey(req: Request, env: Env, j: nat)
    requires j < |FIELD_ORDER|
    ensures ObjectName(AttemptAt(req, env, j).fileName) == ObjectKey(Prefix(req), FIELD_ORDER[j])
  {
  }

  /** Distinct fields are uploaded under distinct object names. */
  lemma AttemptKeysDistinct(req: Request, env: Env, i: nat, j: nat)
    requires i < |FIELD_ORDER| && j < |FIELD_ORDER| && i != j
    ensures ObjectName(AttemptAt(req, env, i).fileName) != ObjectName(AttemptAt(req, env, j).fileName)
  {
    // Dafny also finds this proof unaided; these steps make it several times cheaper.
    FieldOrderDistinct();
    ObjectKeysDistinct(Prefix(req), FIELD_ORDER[i], FIELD_ORDER[j]);
  }

  /** The uploads of the first k fields leave every other object as it was. */
  lemma {:induction false} StoreUpToUntouched(req: Request, env: Env, bucket: Bucket, k: nat, key: string)
    requires k <= |FIELD_ORDER|
    requires forall j :: 0 <= j < k ==> key != ObjectName(AttemptAt(req, env, j).fileName)
    ensures var b := StoreUpTo(req, env, bucket, k);
      (key in b <==> key in bucket) && (key in bucket ==> b[key] == bucket[key])
  {
    if k > 0 {
      StoreUpToUntouched(req, env, bucket, k - 1, key);
      var a := AttemptAt(req, env, k - 1);
      UploadLeavesOtherObjects(a.fileName, a.pdf, env.remote, StoreUpTo(req, env, bucket, k - 1), key);
    }
  }

  /**
   * After the uploads of the first k fields, the object of the last of them
   * holds its PDF when its upload went through, and is as before otherwise.
   */
  lemma StoreUpToLast(req: Request, env: Env, bucket: Bucket, k: nat)
    requires 0 < k <= |FIELD_ORDER|
    ensures var b, a := StoreUpTo(req, env, bucket, k), AttemptAt(req, env, k - 1);
      Writes(env.remote, a.fileName, a.pdf) ==>
        ObjectName(a.fileName) in b && b[ObjectName(a.fileName)] == StoredObject(a.pdf.value.bytes, PDF_CONTENT_TYPE)
    ensures var b, a := StoreUpTo(req, env, bucket, k), AttemptAt(req, env, k - 1); var key := ObjectName(a.fileName);
      !Writes(env.remote, a.fileName, a.pdf) ==> (key in b <==> key in bucket) && (key in bucket ==> b[key] == bucket[key])
  {
    forall i | 0 <= i < k - 1
      ensures ObjectName(AttemptAt(req, env, k - 1).fileName) != ObjectName(AttemptAt(req, env, i).fileName)
    {
      AttemptKeysDistinct(req, env, k - 1, i);
    }
    StoreUpToUntouched(req, env, bucket, k - 1, ObjectName(AttemptAt(req, env, k - 1).fileName));
  }

  /**
   * After the uploads of the first k fields, the object of field j < k holds
   * that field's PDF when its upload went through, and is as before otherwise.
   */
  lemma {:induction false} StoreUpToAt(req: Request, env: Env, bucket: Bucket, k: nat, j: nat)
    requires j < k <= |FIELD_ORDER|
    ensures var b, a := StoreUpTo(req, env, bucket, k), AttemptAt(req, env, j);
      Writes(env.remote, a.fileName, a.pdf) ==>
        ObjectName(a.fileName) in b && b[ObjectName(a.fileName)] == StoredObject(a.pdf.value.bytes, PDF_CONTENT_TYPE)
    ensures var b, a := StoreUpTo(req, env, bucket, k), AttemptAt(req, env, j); var key := ObjectName(a.fileName);
      !Writes(env.remote, a.fileName, a.pdf) ==> (key in b <==> key in bucket) && (key in bucket ==> b[key] == bucket[key])
  {
    if j == k - 1 {
      StoreUpToLast(req, env, bucket, k);
    } else {
      StoreUpToAt(req, env, bucket, k - 1, j);
      AttemptKeysDistinct(req, env, j, k - 1);
      var last := AttemptAt(req, env, k - 1);
      UploadLeavesOtherObjects(last.fileName, last.pdf, env.remote, StoreUpTo(req, env, bucket, k - 1),
                               ObjectName(AttemptAt(req, env, j).fileName));
    }
  }

  /**
   * The object each attempted field is written to is the name the response
   * reports for it. It holds the converted PDF, whose page is never in an
   * alpha or palette mode, when the upload went through. Otherwise it is untouched.
   */
  lemma StoredObjectOfField(req: Request, env: Env, bucket: Bucket, j: nat)
    requires j < |UploadDocumentsSpec(req, env, bucket).attempts|
    ensures var o := UploadDocumentsSpec(req, env, bucket);
      ObjectName(o.attempts[j].fileName) == ObjectKey(Prefix(req), FIELD_ORDER[j])
    ensures var o := UploadDocumentsSpec(req, env, bucket); var a, key := o.attempts[j], ObjectName(o.attempts[j].fileName);
      Writes(env.remote, a.fileName, a.pdf) ==>
        && key in o.bucket
        && o.bucket[key] == StoredObject(a.pdf.value.bytes, PDF_CONTENT_TYPE)
        && a.pdf.value.pageMode !in {RGBA, P}
    ensures var o := UploadDocumentsSpec(req, env, bucket); var a, key := o.attempts[j], ObjectName(o.attempts[j].fileName);
      !Writes(env.remote, a.fileName, a.pdf) ==>
        (key in o.bucket <==> key in bucket) && (key in bucket ==> o.bucket[key] == bucket[key])
  {
    StoreUpToAt(req, env, bucket, FirstMissing(req), j);
    AttemptKey(req, env, j);
  }

  /** A request changes no object outside the five names derived from its submitter's name. */
  lemma RequestLeavesOtherObjects(req: Request, env: Env, bucket: Bucket, key: string)
    requires forall f :: key != ObjectKey(Prefix(req), f)
    ensures var b := UploadDocumentsSpec(req, env, bucket).bucket;
      (key in b <==> key in bucket) && (key in bucket ==> b[key] == bucket[key])
  {
    forall j | 0 <= j < FirstMissing(req)
      ensures key != ObjectName(AttemptAt(req, env, j).fileName)
    {
      AttemptKey(req, env, j);
    }
    StoreUpToUntouched(req, env, bucket, FirstMissing(req), key);
  }

  /**
   * A field whose conversion fails is still reported as saved, although no
   * object was written for it.
   */
  lemma ConversionFailureStillReported(req: Request, env: Env, bucket: Bucket, j: nat)
    requires AllNamed(req)
    requires j < |FIELD_ORDER|
    requires ImageToPdf(FileOf(req, FIELD_ORDER[j]).content, env.codec).None?
    ensures var o := UploadDocumentsSpec(req, env, bucket);
      && o.response.Success?
      && |o.response.uploaded| == |FIELD_ORDER|
      && o.response.uploaded[j] == Entry(FieldKey(FIELD_ORDER[j]), ObjectKey(Prefix(req), FIELD_ORDER[j]))
    ensures var b, key := UploadDocumentsSpec(req, env, bucket).bucket, ObjectKey(Prefix(req), FIELD_ORDER[j]);
      (key in b <==> key in bucket) && (key in bucket ==> b[key] == bucket[key])
  {
    StoreUpToAt(req, env, bucket, |FIELD_ORDER|, j);
    AttemptKey(req, env, j);
  }
}
