/** The client's version record and the edit form: `fillFormData` copies a
    record into the form's fields, `getFormData` validates the fields and
    builds the request body, and the two are proved to round-trip. */
module FormCodec {
  import opened Wrappers

  /** A version record as the client holds it after a load. Optional text
      and date fields are `null` (None) when the store has no value;
      `expanded` is the client-only flag, `undefined` (None) until the list
      view assigns it. */
  datatype Record = Record(
    id: int,
    version: string,
    osType: string,
    releaseType: string,
    status: string,
    description: Option<string>,
    progressSummary: Option<string>,
    qaDate: Option<string>,
    submissionDate: Option<string>,
    liveDate: Option<string>,
    releaseNotes: Option<string>,
    remarks: Option<string>,
    expanded: Option<bool>)

  /** The values of the edit form's controls, named after their element ids. */
  datatype Form = Form(
    version: string,
    typeField: string,
    status: string,
    os: string,
    description: string,
    testDate: string,
    reviewDate: string,
    reviewText: string,
    releaseDate: string,
    progressNote: string,
    notes: string)

  /** The JSON body sent to create or update a version. */
  datatype Body = Body(
    version: string,
    osType: string,
    releaseType: string,
    status: string,
    description: string,
    progressSummary: string,
    qaDate: string,
    submissionDate: string,
    liveDate: string,
    releaseNotes: string,
    remarks: string)

  const DefaultOs := "雙系統"
  const DefaultType := "Bug修復"
  const DefaultStatus := "確認要釋出的項目中"

  /** `value || fallback` on a form control's text: the empty string is falsy. */
  function OrDefault(s: string, fallback: string): (r: string)
    ensures s != "" ==> r == s
    ensures s == "" ==> r == fallback
  {
    if s == "" then fallback else s
  }

  /** The position of the first `c` in `s`. */
  function FirstIndex(s: string, c: char): (k: nat)
    requires c in s
    ensures k < |s| && s[k] == c && c !in s[..k]
    decreases |s|
  {
    if s[0] == c then 0
    else
      var k := FirstIndex(s[1..], c);
      assert s[..k + 1] == [s[0]] + s[1..][..k];
      k + 1
  }

  /** `s.replace(c, '')` with a one-character string pattern: only the FIRST
      occurrence, wherever it is, is removed. */
  function RemoveFirst(s: string, c: char): (r: string)
    ensures c !in s ==> r == s
    ensures c in s ==> r == s[..FirstIndex(s, c)] + s[FirstIndex(s, c) + 1..]
    decreases |s|
  {
    if s == [] then []
    else if s[0] == c then s[1..]
    else
      SkipFirst(s, c);
      [s[0]] + RemoveFirst(s[1..], c)
  }

  /** Past a first character other than `c`, the first `c` is one further on. */
  lemma SkipFirst(s: string, c: char)
    requires s != [] && s[0] != c
    ensures s == [s[0]] + s[1..]
    ensures c in s <==> c in s[1..]
    ensures c in s ==>
      (FirstIndex(s, c) == FirstIndex(s[1..], c) + 1 &&
       s[..FirstIndex(s, c)] == [s[0]] + s[1..][..FirstIndex(s[1..], c)] &&
       s[FirstIndex(s, c) + 1..] == s[1..][FirstIndex(s[1..], c) + 1..])
  {
    assert s == [s[0]] + s[1..];
  }

  lemma RemoveFirstAt(c: char, t: string)
    ensures RemoveFirst([c] + t, c) == t
  {
    assert ([c] + t)[1..] == t;
  }

  lemma RemoveFirstPast(x: char, t: string, c: char)
    requires x != c
    ensures RemoveFirst([x] + t, c) == [x] + RemoveFirst(t, c)
  {
    assert ([x] + t)[1..] == t;
  }

  /** A text control filled from a nullable field: the field's text, or
      empty for NULL. */
  predicate FilledFrom(control: string, field: Option<string>) {
    (field.None? ==> control == "") && (field.Some? ==> control == field.value)
  }

  /** A choice read from its control: the control's value, or the default
      when the control is empty. */
  predicate ChosenFrom(value: string, control: string, default: string) {
    (control != "" ==> value == control) && (control == "" ==> value == default)
  }

  /** `fillFormData`: every field of the record into its control; the
      version loses its first `v`, null texts become empty. */
  function FillForm(r: Record): (f: Form)
    ensures f.version == RemoveFirst(r.version, 'v')
    ensures f.typeField == r.releaseType && f.status == r.status && f.os == r.osType
    ensures FilledFrom(f.description, r.description) && FilledFrom(f.testDate, r.qaDate)
    ensures FilledFrom(f.reviewDate, r.submissionDate) && FilledFrom(f.reviewText, r.releaseNotes)
    ensures FilledFrom(f.releaseDate, r.liveDate) && FilledFrom(f.progressNote, r.progressSummary)
    ensures FilledFrom(f.notes, r.remarks)
  {
    Form(
      version := RemoveFirst(r.version, 'v'),
      typeField := r.releaseType,
      status := r.status,
      os := r.osType,
      description := OrEmpty(r.description),
      testDate := OrEmpty(r.qaDate),
      reviewDate := OrEmpty(r.submissionDate),
      reviewText := OrEmpty(r.releaseNotes),
      releaseDate := OrEmpty(r.liveDate),
      progressNote := OrEmpty(r.progressSummary),
      notes := OrEmpty(r.remarks))
  }

  /** `getFormData`: no body (null) when the version control is empty;
      otherwise the version gets a `v` in front and empty controls take
      their defaults. */
  function ReadForm(f: Form): (r: Option<Body>)
    ensures r.None? <==> f.version == ""
    ensures r.Some? ==> |r.value.version| >= 2 && r.value.version[0] == 'v' &&
                        r.value.version[1..] == f.version
    ensures r.Some? ==> r.value.osType != "" && r.value.releaseType != "" && r.value.status != ""
    ensures r.Some? ==> ChosenFrom(r.value.osType, f.os, DefaultOs) &&
                        ChosenFrom(r.value.releaseType, f.typeField, DefaultType) &&
                        ChosenFrom(r.value.status, f.status, DefaultStatus)
    ensures r.Some? ==> r.value.description == f.description && r.value.progressSummary == f.progressNote &&
                        r.value.qaDate == f.testDate && r.value.submissionDate == f.reviewDate &&
                        r.value.liveDate == f.releaseDate && r.value.releaseNotes == f.reviewText &&
                        r.value.remarks == f.notes
  {
    if f.version == "" then None
    else Some(Body(
      version := "v" + f.version,
      osType := OrDefault(f.os, DefaultOs),
      releaseType := OrDefault(f.typeField, DefaultType),
      status := OrDefault(f.status, DefaultStatus),
      description := f.description,
      progressSummary := f.progressNote,
      qaDate := f.testDate,
      submissionDate := f.reviewDate,
      liveDate := f.releaseDate,
      releaseNotes := f.reviewText,
      remarks := f.notes))
  }

  /** The record as a request body: everything but `id` and `expanded`,
      with null texts as empty strings. */
  function BodyOf(r: Record): Body {
    Body(r.version, r.osType, r.releaseType, r.status,
         OrEmpty(r.description), OrEmpty(r.progressSummary), OrEmpty(r.qaDate),
         OrEmpty(r.submissionDate), OrEmpty(r.liveDate), OrEmpty(r.releaseNotes),
         OrEmpty(r.remarks))
  }

  /** The records that survive opening the editor and saving unchanged: a
      `v` followed by a non-empty label, and non-empty choice fields. */
  predicate RoundTrips(r: Record) {
    |r.version| >= 2 && r.version[0] == 'v' &&
    r.osType != "" && r.releaseType != "" && r.status != ""
  }

  /** Opening the editor on a record and saving without edits sends exactly
      that record's fields, and it does so for exactly the records of
      RoundTrips. */
  lemma FormRoundTrip(r: Record)
    ensures ReadForm(FillForm(r)) == Some(BodyOf(r)) <==> RoundTrips(r)
  {
    var f := FillForm(r);
    if RoundTrips(r) {
      assert r.version == [r.version[0]] + r.version[1..];
      assert f.version == r.version[1..];
      assert "v" + f.version == r.version;
    }
    if ReadForm(f) == Some(BodyOf(r)) {
      assert r.version == ReadForm(f).value.version;
    }
  }

  /** Saving with only the version filled sends the three defaults and
      empty strings everywhere else. */
  lemma DefaultFill(text: string)
    requires text != ""
    ensures ReadForm(Form(text, "", "", "", "", "", "", "", "", "", "")) ==
            Some(Body("v" + text, DefaultOs, DefaultType, DefaultStatus, "", "", "", "", "", "", ""))
  {
  }

  /** Saving with an empty version sends nothing. */
  lemma EmptyVersionIsRejected(f: Form)
    requires f.version == ""
    ensures ReadForm(f) == None
  {
  }

  lemma RemoveInnerV()
    ensures RemoveFirst("1.v2", 'v') == "1.2"
  {
    assert "1.v2" == ['1'] + (['.'] + (['v'] + "2"));
    RemoveFirstAt('v', "2");
    RemoveFirstPast('.', ['v'] + "2", 'v');
    RemoveFirstPast('1', ['.'] + (['v'] + "2"), 'v');
    assert ['1'] + (['.'] + "2") == "1.2";
  }

  /** The first `v` is removed wherever it is: a stored `1.v2` comes back
      as `v1.2`. */
  lemma InnerVIsMoved(r: Record)
    requires r.version == "1.v2"
    ensures FillForm(r).version == "1.2"
    ensures ReadForm(FillForm(r)).Some?
    ensures ReadForm(FillForm(r)).value.version == "v1.2" != r.version
  {
    RemoveInnerV();
    var f := FillForm(r);
    assert f.version == "1.2";
    var saved := ReadForm(f).value.version;
    assert saved == [saved[0]] + saved[1..];
    assert saved[0] != r.version[0];
  }

  /** A record whose label is just `v` opens with an empty version control,
      so saving it unchanged sends nothing. */
  lemma BareVCannotBeResaved(r: Record)
    requires r.version == "v"
    ensures ReadForm(FillForm(r)) == None
  {
  }
}
