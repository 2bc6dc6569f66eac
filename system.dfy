/** How the browser controller and the server fit together: the filter the
    controller sends and the rows the server keeps for it, the JSON body a
    save sends and the row the server stores from it, and the export table
    the server builds and the CSV file the controller writes from it. */
module System {
  import opened Wrappers
  import opened FormCodec
  import Client
  import CsvExport
  import VersionStore

  /** The `os_filter` query parameter the server receives for a client
      filter: none for `all`, the filter's name otherwise. */
  function QueryOf(f: Client.Filter): Option<string> {
    if f == Client.All then None else Some(Client.FilterName(f))
  }

  /** The query the server receives is the one the load URL carries, and the
      server keeps exactly the rows of the chosen system plus the
      both-systems rows, or every row for `all`. */
  lemma FilterAgreement(f: Client.Filter, osType: string)
    ensures f == Client.All <==> QueryOf(f).None?
    ensures QueryOf(f).Some? ==> Client.LoadUrl(f) == Client.VersionsUrl + "?os_filter=" + QueryOf(f).value
    ensures VersionStore.Selects(QueryOf(f), osType) <==>
      match f
      case All => true
      case Ios => osType == "iOS" || osType == "雙系統"
      case Android => osType == "Android" || osType == "雙系統"
  {
    VersionStore.FilterClause(QueryOf(f), osType);
  }

  /** The row data the server stores for a JSON body: every text arrives,
      the empty ones included. */
  function InputOf(b: Body): (d: VersionStore.VersionInput)
    ensures d.version == b.version && d.osType == b.osType
    ensures d.releaseType == b.releaseType && d.status == b.status
  {
    VersionStore.VersionInput(b.version, b.osType, b.releaseType, b.status,
      Some(b.description), Some(b.progressSummary), Some(b.qaDate),
      Some(b.submissionDate), Some(b.liveDate), Some(b.releaseNotes), Some(b.remarks))
  }

  /** A version as the client holds it after a load: the flag not yet set. */
  function RecordOf(v: VersionStore.Version): (r: Record)
    ensures r.id == v.id && r.version == v.data.version && r.expanded == None
  {
    Record(v.id, v.data.version, v.data.osType, v.data.releaseType, v.data.status,
      v.data.description, v.data.progressSummary, v.data.qaDate, v.data.submissionDate,
      v.data.liveDate, v.data.releaseNotes, v.data.remarks, None)
  }

  /** A body stored and loaded back gives the same body. */
  lemma BodySurvivesStorage(b: Body, id: int, createdAt: string, updatedAt: string)
    ensures BodyOf(RecordOf(VersionStore.Version(id, InputOf(b), createdAt, updatedAt))) == b
  {
  }

  /** A version saved from the form, stored by the server and opened again
      in the editor fills the form so that saving it unchanged sends the
      same body, and the second save is a PUT to the stored id, since the
      server's ids are positive. */
  lemma SavedVersionReopens(f: Form, id: int, createdAt: string, updatedAt: string)
    requires ReadForm(f).Some?
    requires id >= 1
    ensures var r := RecordOf(VersionStore.Version(id, InputOf(ReadForm(f).value), createdAt, updatedAt));
      ReadForm(FillForm(r)) == ReadForm(f) &&
      Client.SaveRequest(Some(r.id), ReadForm(FillForm(r)).value) ==
        Client.Request(Client.Put, Client.VersionsUrl + "/" + Client.IdText(id), Client.VersionPayload(ReadForm(f).value))
  {
    var b := ReadForm(f).value;
    var r := RecordOf(VersionStore.Version(id, InputOf(b), createdAt, updatedAt));
    BodySurvivesStorage(b, id, createdAt, updatedAt);
    assert RoundTrips(r);
    FormRoundTrip(r);
  }

  /** The table the server exports always comes back intact from the CSV
      file the client writes: it has the header line, and every line has
      eleven cells. */
  lemma ExportReadsBack(data: seq<seq<string>>)
    requires |data| >= 1 && data[0] == VersionStore.ExportHeader
    requires forall i :: 1 <= i < |data| ==> |data[i]| == |VersionStore.ExportHeader|
    ensures CsvExport.ReadDocument(CsvExport.Document(data)) == Some(data)
  {
    assert |data[0]| == 11;
    CsvExport.DocumentRoundTrip(data);
  }
}
