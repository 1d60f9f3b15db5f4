/**
 * The storage uploader. The bucket is a map from object name to stored object;
 * whether the remote store accepts a write is an opaque step that may fail,
 * and every failure is caught and dropped.
 */
module Storage {
  import opened Common
  import opened Naming
  import opened Imaging

  const PDF_CONTENT_TYPE: string := "application/pdf"

  datatype StoredObject = StoredObject(body: seq<byte>, contentType: string)

  /** The objects of the configured bucket, by object name. */
  type Bucket = map<string, StoredObject>

  /**
   * Whether the store ends up holding the given body under the given object
   * name. The uploader swallows every exception, so a write that raised after
   * the object was committed looks to the handler just like a success.
   */
  type Remote = (string, seq<byte>) -> bool

  /** Whether a call of the uploader with this buffer actually writes an object. */
  predicate Writes(remote: Remote, fileName: string, pdf: Option<Pdf>)
  {
    // Uploading a missing buffer raises inside the uploader and is caught.
    pdf.Some? && remote(ObjectName(fileName), pdf.value.bytes)
  }

  /**
   * `upload_pdf_to_r2`: store the buffer as `<fileName>.pdf` with the PDF
   * content type; on any error the bucket is left as it was and nothing is
   * reported to the caller.
   */
  function UploadPdfToR2(fileName: string, pdf: Option<Pdf>, remote: Remote, bucket: Bucket): (b: Bucket)
    ensures Writes(remote, fileName, pdf) ==>
      ObjectName(fileName) in b && b[ObjectName(fileName)] == StoredObject(pdf.value.bytes, PDF_CONTENT_TYPE)
    ensures !Writes(remote, fileName, pdf) ==> b == bucket
  {
    var objectName := ObjectName(fileName);
    if pdf.Some? && remote(objectName, pdf.value.bytes) then
      bucket[objectName := StoredObject(pdf.value.bytes, PDF_CONTENT_TYPE)]
    else
      bucket
  }

  /** The uploader touches no object other than the one it writes. */
  lemma UploadLeavesOtherObjects(fileName: string, pdf: Option<Pdf>, remote: Remote, bucket: Bucket, key: string)
    requires key != ObjectName(fileName)
    ensures var b := UploadPdfToR2(fileName, pdf, remote, bucket);
      (key in b <==> key in bucket) && (key in bucket ==> b[key] == bucket[key])
  {
  }
}
