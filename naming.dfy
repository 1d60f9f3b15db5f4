/**
 * How the uploader derives storage object names from the submitter's full
 * name and a document field: the name has its spaces replaced by underscores
 * and is lower-cased, the field key is appended after an underscore, and the
 * object is stored under that file name with ".pdf" appended.
 */
module Naming {
  import opened Common

  /** The five document fields of an upload, in the order the handler walks them. */
  datatype Field = IdCard | EntranceExam | Transcript | GradeReport | Degree

  /** The key each field is known by in object names and in the response. */
  function FieldKey(f: Field): string
  {
    match f
    case IdCard => "id_card"
    case EntranceExam => "entrance_exam"
    case Transcript => "transcript"
    case GradeReport => "grade_report"
    case Degree => "degree"
  }

  /** The inverse of FieldKey: which field, if any, a key names. */
  function FieldOfKey(key: string): (r: Option<Field>)
    ensures r.Some? ==> FieldKey(r.value) == key
  {
    if key == "id_card" then Some(IdCard)
    else if key == "entrance_exam" then Some(EntranceExam)
    else if key == "transcript" then Some(Transcript)
    else if key == "grade_report" then Some(GradeReport)
    else if key == "degree" then Some(Degree)
    else None
  }

  lemma FieldOfKeyInverts(f: Field)
    ensures FieldOfKey(FieldKey(f)) == Some(f)
  {
  }

  /** The order in which the field table is iterated (dictionary insertion order). */
  const FIELD_ORDER: seq<Field> := [IdCard, EntranceExam, Transcript, GradeReport, Degree]

  /** Each field occurs once in the order. */
  lemma FieldOrderDistinct()
    ensures forall i, j :: 0 <= i < j < |FIELD_ORDER| ==> FIELD_ORDER[i] != FIELD_ORDER[j]
  {
  }

  /** Python's `s.replace(from, to)` for one-character arguments. */
  function ReplaceChar(s: string, from: char, to: char): (r: string)
    ensures |r| == |s|
    ensures forall i :: 0 <= i < |s| ==> r[i] == (if s[i] == from then to else s[i])
  {
    if s == [] then [] else [if s[0] == from then to else s[0]] + ReplaceChar(s[1..], from, to)
  }

  predicate IsAsciiUpper(c: char)
  {
    'A' <= c <= 'Z'
  }

  /** Lower-casing of one character, restricted to the ASCII letters. */
  function LowerChar(c: char): (r: char)
    ensures !IsAsciiUpper(r)
    ensures !IsAsciiUpper(c) ==> r == c
    ensures IsAsciiUpper(c) ==> 'a' <= r <= 'z' && r as int - c as int == 'a' as int - 'A' as int
  {
    if IsAsciiUpper(c) then (c as int - 'A' as int + 'a' as int) as char else c
  }

  /** Python's `s.lower()`, over ASCII letters: it maps every character in place. */
  function Lower(s: string): (r: string)
    ensures |r| == |s|
    ensures forall i :: 0 <= i < |s| ==> r[i] == LowerChar(s[i])
  {
    if s == [] then [] else [LowerChar(s[0])] + Lower(s[1..])
  }

  /** The storage prefix derived from the submitter's name: `fullname.replace(' ', '_').lower()`. */
  function Sanitize(fullname: string): (r: string)
    ensures |r| == |fullname|
    ensures forall i :: 0 <= i < |r| ==> r[i] != ' ' && !IsAsciiUpper(r[i])
    ensures forall i :: 0 <= i < |r| ==> r[i] == (if fullname[i] == ' ' then '_' else LowerChar(fullname[i]))
  {
    Lower(ReplaceChar(fullname, ' ', '_'))
  }

  /** Replacing spaces before or after lower-casing gives the same prefix. */
  lemma ReplaceAndLowerCommute(s: string)
    ensures Lower(ReplaceChar(s, ' ', '_')) == ReplaceChar(Lower(s), ' ', '_')
  {
  }

  /**
   * Sanitising an already sanitised name changes nothing: a submitter who types
   * the prefix itself ("jane_doe") gets the same object names as one who types
   * the name it came from ("Jane Doe"), so their uploads overwrite each other.
   */
  lemma SanitizeIdempotent(s: string)
    ensures Sanitize(Sanitize(s)) == Sanitize(s)
  {
  }

  /** The name handed to the uploader for one field: `f"{sanitized_fullname}_{file_name}"`. */
  function FinalFileName(prefix: string, fieldKey: string): string
  {
    prefix + "_" + fieldKey
  }

  /** The object name the uploader writes for a file name: `f"{file_name}.pdf"`. */
  function ObjectName(fileName: string): string
  {
    fileName + ".pdf"
  }

  /** The object name a field is stored under for a given prefix. */
  function ObjectKey(prefix: string, f: Field): string
  {
    ObjectName(FinalFileName(prefix, FieldKey(f)))
  }

  /** Reads back which field an object name belongs to, for a given prefix. */
  function ParseObjectKey(prefix: string, name: string): Option<Field>
  {
    if |name| >= |prefix| + 5 && name[..|prefix| + 1] == prefix + "_" && name[|name| - 4..] == ".pdf"
    then FieldOfKey(name[|prefix| + 1..|name| - 4])
    else None
  }

  /** Every field's object name reads back as that field. */
  lemma ParseObjectKeyRoundTrip(prefix: string, f: Field)
    ensures ParseObjectKey(prefix, ObjectKey(prefix, f)) == Some(f)
  {
  }

  /** A name that reads back as a field is exactly that field's object name. */
  lemma ParseObjectKeySound(prefix: string, name: string, f: Field)
    requires ParseObjectKey(prefix, name) == Some(f)
    ensures name == ObjectKey(prefix, f)
  {
  }

  /** Under one prefix, distinct fields never share an object name. */
  lemma ObjectKeysDistinct(prefix: string, f: Field, g: Field)
    requires f != g
    ensures ObjectKey(prefix, f) != ObjectKey(prefix, g)
  {
    ParseObjectKeyRoundTrip(prefix, f);
    ParseObjectKeyRoundTrip(prefix, g);
  }

  /** The worked example: "Jane Doe" gives prefix "jane_doe" and key "jane_doe_id_card.pdf". */
  lemma JaneDoeExample(name: string)
    requires name == "Jane Doe"
    ensures Sanitize(name) == "jane_doe"
    ensures ObjectKey(Sanitize(name), IdCard) == "jane_doe_id_card.pdf"
  {
  }
}
