# Document uploader: a verified model of the upload handler

The service takes one multipart request: the submitter's full name and five
document images (id card, entrance exam, transcript, grade report, degree).
It converts each image to a one-page PDF and stores it in an S3-compatible
bucket under `<sanitized name>_<field>.pdf`, then answers with the list of
object names it reports as saved. This project models the three pieces of
logic in `index.py` and proves what they promise:

- **Naming** (`naming.dfy`). The name passes through `replace(' ', '_')` and then
  `lower()` to give the storage prefix. The field key is appended after an
  underscore, and the uploader appends `.pdf`. Also proved: the resulting object
  names parse back to their field, so distinct fields never collide.
- **Colour-mode rule and converter** (`imaging.dfy`). `RGBA` and `P` images become
  `RGB` before encoding and all other modes pass through. The image library's
  common modes are named, and an `Other` case stands for the rest. The decoder
  and the PDF writer are opaque steps that may raise. Every error is swallowed and the converter then returns nothing.
- **Uploader** (`storage.dfy`). The bucket is a map from object name to
  stored object (body and content type). Whether the remote store accepts a
  write is an opaque step. Uploading a missing buffer raises inside the
  uploader's `try` and is swallowed like every other error.
- **Handler** (`handler.dfy`). `upload_documents` is a method with a `for` loop over
  the field table. It keeps an accumulator of `{field, saved_as}` entries and
  stops early on the first field without a filename. It is proved equal to
  `UploadDocumentsSpec`, a declarative description: the index of the first
  missing filename determines the response, the uploads attempted (the
  arguments of each uploader call) and the bucket afterwards. The lemmas
  about that specification state the handler's properties: the success
  condition, order and uniqueness of the report, what the error case has
  and has not done, that conversion and upload failures are absorbed, and
  which objects end up in the bucket.

External collaborators are parameters. `Handler.Env` carries the image library
(`Imaging.Codec`: decoding gives a mode or fails, encoding gives bytes or fails)
and the remote store (`Storage.Remote`: accepts a write or fails). The bucket is
passed in and returned.

Later revisions of the service make the degree field optional and add a merged
report and chat delivery. This model covers `index.py` only. The degree field is
required: a missing degree filename is the same 500 error as any other field.
At index.py:100 the name is lower-cased after spaces are replaced.
`Naming.ReplaceAndLowerCommute` proves that the order makes no difference.

## Model

| member | source | states |
|---|---|---|
| Naming.ReplaceChar | index.py:100 | `replace` of one character keeps the length and changes exactly the positions holding that character |
| Naming.LowerChar | index.py:100 | lower-casing maps `A`–`Z` to `a`–`z`, leaves every other character alone, and never yields an upper-case ASCII letter |
| Naming.Lower | index.py:100 | `lower()` keeps the length and case-folds each character in its own position |
| Naming.Sanitize | index.py:100 | the prefix has the name's length and contains no space and no upper-case letter; a space becomes `_` and every other character is only case-folded, in place |
| Naming.ReplaceAndLowerCommute | index.py:100 | replacing spaces before or after lower-casing gives the same prefix |
| Naming.SanitizeIdempotent | index.py:100 | sanitising a sanitised name changes nothing |
| Naming.FieldKey | index.py:87-93 | each field's key in the field table: `id_card`, `entrance_exam`, `transcript`, `grade_report`, `degree`; `Naming.FieldOfKeyInverts` proves it injective |
| Naming.FieldOfKey | index.py:87-93 | a key read back as a field is that field's key |
| Naming.FieldOfKeyInverts | index.py:87-93 | every field's key reads back as that field |
| Naming.FieldOrderDistinct | index.py:87-93 | the field table lists each of the five fields once |
| Naming.FinalFileName | index.py:102 | the file name handed to the uploader: the prefix, an underscore, the field key |
| Naming.ObjectName | index.py:43 | the object name the uploader writes: the file name followed by `.pdf` |
| Naming.ObjectKey | index.py:102 | a field's object name under a prefix, `<prefix>_<field key>.pdf`; the lemmas below prove it readable back and distinct per field |
| Naming.ParseObjectKey | index.py:102 | reads the field back from an object name under a prefix, or nothing when the name has any other shape |
| Naming.ParseObjectKeyRoundTrip | index.py:102 | the object name `<prefix>_<field key>.pdf` reads back as its field |
| Naming.ParseObjectKeySound | index.py:43 | a name that reads back as a field is exactly `<prefix>_<field key>.pdf` |
| Naming.ObjectKeysDistinct | index.py:102 | under one prefix, distinct fields get distinct object names |
| Naming.JaneDoeExample | index.py:100-102 | "Jane Doe" gives prefix `jane_doe` and id-card object `jane_doe_id_card.pdf` |
| Imaging.NormalizeMode | index.py:30-31 | the result is never `RGBA` or `P`; `RGBA` and `P` become `RGB`; every other mode is unchanged |
| Imaging.NormalizeModeIdempotent | index.py:30-31 | applying the mode rule twice equals applying it once |
| Imaging.ImageToPdf | index.py:25-39 | the converter returns nothing exactly when decoding or encoding fails; a returned page is in the decoded mode after the mode rule, so it is never in `RGBA` or `P` mode, keeps any other decoded mode, and holds what the encoder produced for that mode |
| Storage.Writes | index.py:42-65 | an upload writes exactly when there is a buffer and the store accepts that body under `<file_name>.pdf`; a missing buffer makes the upload raise |
| Storage.UploadPdfToR2 | index.py:42-65 | when the buffer exists and the store accepts, the object `<file_name>.pdf` holds the buffer with content type `application/pdf`; on any failure the bucket is unchanged and nothing is reported |
| Storage.UploadLeavesOtherObjects | index.py:42-65 | the uploader changes no object but `<file_name>.pdf` |
| Handler.FileFields | index.py:87-93 | the field table pairs id_card, entrance_exam, transcript, grade_report and degree, in that order, with their form files |
| Handler.FileOf | index.py:81-93 | the form parameter each field is read from, `entrance` for `entrance_exam` and `gradereport` for `grade_report` |
| Handler.MissingFilename | index.py:97 | the guard: a filename that is None or empty |
| Handler.MissingFieldMessage | index.py:98 | the error text naming the field without a filename |
| Handler.AllNamed | index.py:96-98 | every field of the table has a filename |
| Handler.Response.StatusCode | index.py:115-126 | 200 for the success body, 500 for the server error |
| Handler.FirstMissingFrom | index.py:96-98 | the scan stops at the first entry whose filename is None or empty, all earlier entries having filenames |
| Handler.FirstMissing | index.py:96-98 | the number of fields processed before the handler stops is at most five |
| Handler.FirstMissingIs | index.py:96-98 | the scan stops exactly at the first field without a filename, or after all five |
| Handler.Prefix | index.py:100 | the sanitised submitter's name, the prefix of every object name of a request |
| Handler.AttemptAt | index.py:102-109 | what the uploader is given for the j-th field: its file name and its converted buffer |
| Handler.EntryAt | index.py:110-113 | what is reported for the j-th field: its key and its object name |
| Handler.AttemptsUpTo | index.py:96-109 | the uploads of the first k fields are, in order, each field's derived file name and converted buffer |
| Handler.EntriesUpTo | index.py:110-113 | the report of the first k fields is, in order, each field's key with its object name |
| Handler.StoreUpTo | index.py:96-109 | the bucket after the uploads of the first k fields, performed in table order |
| Handler.UploadDocumentsSpec | index.py:96-126 | the handler's outcome: the first field without a filename ends the request with the error naming it; otherwise the success body lists all five; in both cases the fields before it have been converted and uploaded in order |
| Handler.UploadDocuments | index.py:78-126 | the loop's response, final bucket and uploads attempted are exactly those of the handler's specification |
| Handler.SucceedsIffEveryFilenameGiven | index.py:96-126 | the response is the 200 success exactly when all five filenames are present, otherwise the 500 error |
| Handler.SuccessReportsEveryField | index.py:110-121 | on success the status is `success`, the submitted name is echoed unsanitised, and `uploaded` lists the five fields once each in table order; each `saved_as` is the object name that field's upload wrote, and no two coincide |
| Handler.FailureStopsAtFirstMissing | index.py:96-126 | when the k-th field is the first without a filename the response is the 500 error naming it, with no `uploaded` list; exactly the k earlier fields were converted and uploaded, in order, and no later field was |
| Handler.ExternalFailuresAreAbsorbed | index.py:107-113 | whatever the image library and the store do, and whatever the bucket held, the response is the same, and the same fields are uploaded, in the same order, under the same file names |
| Handler.AttemptKey | index.py:102-109 | the name each field's upload writes is `<prefix>_<field key>.pdf` |
| Handler.AttemptKeysDistinct | index.py:102-109 | two different fields of one request are uploaded under different object names |
| Handler.StoreUpToUntouched | index.py:109 | the uploads of the first k fields leave every object not named by one of them unchanged |
| Handler.StoreUpToLast | index.py:109 | after k uploads, the last field's object holds its PDF if that upload went through and is unchanged otherwise |
| Handler.StoreUpToAt | index.py:109 | after k uploads, the object of every earlier field holds its PDF if its upload went through and is unchanged otherwise; a later upload never overwrites it |
| Handler.StoredObjectOfField | index.py:104-112 | each attempted field's object is the name reported for it; it holds the converted PDF (never in `RGBA` or `P` mode) when the upload went through, and is untouched otherwise |
| Handler.RequestLeavesOtherObjects | index.py:96-109 | a request changes no object outside the five names derived from its submitter's name |
| Handler.ConversionFailureStillReported | index.py:107-113 | a field whose conversion failed is still reported with its `saved_as`, although no object was written under that name |

## Left out

- HTTP routing, multipart parsing, CORS middleware and the asynchronous `file.read()` (index.py:68-85, 104) are framework plumbing. The model starts from the parsed form. A request that lacks a form part, which the framework rejects before the handler runs, is not modelled.
- Exceptions other than the missing-filename error are not modelled: a failing `file.read()` or a failure inside the framework. The modelled handler can reach the 500 outcome only through that error, which is the only exception the source's own code raises.
- Environment and configuration loading, the storage endpoint URL and the bucket name (index.py:16-22) are process configuration. `Storage.Bucket` stands for the one configured bucket.
- Client construction and `upload_fileobj` (index.py:45-59) are a network client. They are modelled only as the `Storage.Remote` predicate, which says whether the store ends up holding a given body under a given name. It is deterministic in its arguments.
- Image decoding and encoding, the PDF byte format and the resolution of 100 (index.py:28, 33) belong to a foreign library and use a floating-point parameter. They are the opaque `Imaging.Codec`. The pixel conversion to RGB is modelled only by the mode it produces. A failure of that conversion counts as a failure of encoding.
- The log output of every `print` has no effect on behaviour.
- Naming.LowerChar: case-folds the ASCII letters only, not Python's full Unicode `lower()`, which also folds other scripts and can change a string's length. Naming.Lower and Naming.Sanitize inherit this restriction.
- Merging several PDFs into one report, list-valued grade reports, an optional degree field and chat delivery belong to later revisions of the service. They are not part of this model.
