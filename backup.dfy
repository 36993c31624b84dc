/**
 * The backup codec: the document `DataManager.exportData` writes (app.js:48-54) and the
 * validation `DataManager.readImportFile` applies to a parsed document (app.js:82-94).
 */
module BackupCodec {
  import opened Wrappers
  import opened People

  /**
   * One element of a parsed document's `data` array. A string field that is missing
   * reads as "" (both are falsy); `tags` is None when it is not an array.
   */
  datatype RawRecord = RawRecord(
    id: string,
    name: string,
    tags: Option<seq<string>>,
    memo: string,
    avatar: Option<string>,
    colorVariant: string,
    updatedAt: string)

  /** A parsed backup document; `data` is None when it is missing or not an array. */
  datatype Document = Document(
    appName: string,
    version: string,
    exportDate: Option<string>,
    peopleCount: int,
    data: Option<seq<RawRecord>>)

  /** The three failures of an import, each reported by its own notification. */
  datatype ImportError =
    | FormatError            // JSON.parse threw
    | SchemaError            // `data` missing or not an array
    | RecordValidationError  // some record lacks a truthy id, a truthy name or a `tags` array

  /**
   * `p.id && p.name && Array.isArray(p.tags)`: exactly the records that become a person
   * with a non-empty id and name.
   */
  predicate RecordValid(r: RawRecord)
    ensures RecordValid(r) <==> r.tags.Some? && ToPerson(r).id != "" && ToPerson(r).name != ""
  {
    r.id != "" && r.name != "" && r.tags.Some?
  }

  function ToPerson(r: RawRecord): Person
    requires r.tags.Some?
  {
    Person(r.id, r.name, r.tags.value, r.memo, r.avatar, r.colorVariant, r.updatedAt)
  }

  /** The records as people, field for field. */
  function ToPeople(records: seq<RawRecord>): (people: seq<Person>)
    requires forall r :: r in records ==> r.tags.Some?
    ensures |people| == |records|
    ensures forall i :: 0 <= i < |records| ==> FromPerson(people[i]) == records[i]
  {
    seq(|records|, i requires 0 <= i < |records| && records[i].tags.Some? => ToPerson(records[i]))
  }

  function FromPerson(p: Person): RawRecord {
    RawRecord(p.id, p.name, Some(p.tags), p.memo, p.avatar, p.colorVariant, p.updatedAt)
  }

  /**
   * The record check (app.js:88) on an exported person: the tags are always an array,
   * so the record passes iff its id and its name are non-empty.
   */
  lemma ExportedRecordValid(p: Person)
    ensures RecordValid(FromPerson(p)) <==> p.id != "" && p.name != ""
  {
  }

  /**
   * The checks of `readImportFile` on the outcome of `JSON.parse` (None when it threw).
   * A document is accepted exactly when `data` is an array all of whose records are
   * valid, and then yields those records, in order, as the pending candidates; one
   * invalid record rejects the whole document.
   */
  function Validate(parsed: Option<Document>): (res: Result<seq<Person>, ImportError>)
    ensures res == Failure(FormatError) <==> parsed.None?
    ensures res == Failure(SchemaError) <==> parsed.Some? && parsed.value.data.None?
    ensures res.Success? <==>
      parsed.Some? && parsed.value.data.Some? && forall r :: r in parsed.value.data.value ==> RecordValid(r)
    ensures res.Success? ==>
      var records := parsed.value.data.value;
      |res.value| == |records| &&
      forall i :: 0 <= i < |records| ==> FromPerson(res.value[i]) == records[i]
  {
    if parsed.None? then Failure(FormatError)
    else if parsed.value.data.None? then Failure(SchemaError)
    else
      var records := parsed.value.data.value;
      if forall r :: r in records ==> RecordValid(r) then
        Success(ToPeople(records))
      else
        Failure(RecordValidationError)
  }

  /**
   * The document `exportData` builds from the live list and the current time, or
   * None when the list is empty (export refuses with a notification).
   */
  function Export(people: seq<Person>, now: string): (doc: Option<Document>)
    ensures doc.None? <==> people == []
    ensures doc.Some? ==> doc.value.appName == "anoano" && doc.value.version == "1.0"
    ensures doc.Some? ==> doc.value.peopleCount == |people| && doc.value.exportDate == Some(now)
  {
    if people == [] then None
    else
      Some(Document("anoano", "1.0", Some(now), |people|,
                    Some(seq(|people|, i requires 0 <= i < |people| => FromPerson(people[i])))))
  }

  /**
   * The document of a non-empty list carries that list: its `data` is an array of
   * records, each with a tags array, which read back as people give the list itself,
   * whether or not the import check would accept them.
   */
  lemma ExportDecodes(people: seq<Person>, now: string)
    requires people != []
    ensures var d := Export(people, now).value.data;
      d.Some? && (forall r :: r in d.value ==> r.tags.Some?) && ToPeople(d.value) == people
  {
    var records := Export(people, now).value.data.value;
    assert forall i :: 0 <= i < |people| ==> records[i] == FromPerson(people[i]);
    forall r | r in records ensures r.tags.Some? {
      var i :| 0 <= i < |records| && records[i] == r;
    }
    var back := ToPeople(records);
    forall i | 0 <= i < |people| ensures back[i] == people[i] {
      assert FromPerson(back[i]) == FromPerson(people[i]);
    }
  }

  /** Every record has a non-empty id and a non-empty name. */
  predicate Importable(people: seq<Person>) {
    forall p :: p in people ==> p.id != "" && p.name != ""
  }

  /**
   * Exporting a non-empty list and importing the document gives the list back exactly
   * when every record has a non-empty id and name; otherwise the import is refused as a
   * whole.
   */
  lemma ExportRoundTrip(people: seq<Person>, now: string)
    requires people != []
    ensures Importable(people) ==> Validate(Export(people, now)) == Success(people)
    ensures !Importable(people) ==> Validate(Export(people, now)) == Failure(RecordValidationError)
  {
    var records := Export(people, now).value.data.value;
    assert forall i :: 0 <= i < |people| ==> records[i] == FromPerson(people[i]);
    if Importable(people) {
      forall r | r in records ensures RecordValid(r) {
        var i :| 0 <= i < |records| && records[i] == r;
        assert people[i] in people;
      }
      var back := Validate(Export(people, now)).value;
      assert back == people by {
        forall i | 0 <= i < |people| ensures back[i] == people[i] {
          assert ToPerson(FromPerson(people[i])) == people[i];
        }
      }
    } else {
      var p :| p in people && (p.id == "" || p.name == "");
      var i :| 0 <= i < |people| && people[i] == p;
      assert records[i] in records;
    }
  }
}
