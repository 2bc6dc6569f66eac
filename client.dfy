/** The browser-side controller, `VersionManager`: the loaded records, the
    edit-mode flag, the id under edit, the active filter, and the two form
    controls it reads (the version form and the password box). Each remote
    call's reply is a parameter of the method that issues it; each method
    returns the requests it issued and the notifications it showed. */
module Client {
  import opened Wrappers
  import opened FormCodec
  import CsvExport

  datatype Filter = All | Ios | Android

  /** The filter as the string the controller holds (`'all'`, `'ios'`, `'android'`). */
  function FilterName(f: Filter): string {
    match f
    case All => "all"
    case Ios => "ios"
    case Android => "android"
  }

  datatype HttpMethod = Get | Post | Put | Delete

  datatype Payload = NoPayload | PasswordPayload(password: string) | VersionPayload(body: Body)

  datatype Request = Request(verb: HttpMethod, url: string, payload: Payload)

  datatype NoticeKind = Success | Failure

  /** A toast: its colour and its text. */
  datatype Notice = Notice(kind: NoticeKind, text: string)

  /** A remote call's outcome: the decoded reply, or the error's message. */
  type Reply<T> = Result<T, string>

  const VersionsUrl := "/api/versions"

  /** `${n}` for an integer id. */
  function IdText(n: int): (r: string)
    ensures n >= 0 ==> |r| >= 1 && CsvExport.AllDigits(r) && CsvExport.DigitsValue(r) == n
    ensures n >= 1 ==> r[0] != '0'
    ensures n < 0 ==> |r| >= 2 && r[0] == '-' && r[1] != '0' &&
                      CsvExport.AllDigits(r[1..]) && CsvExport.DigitsValue(r[1..]) == -n
  {
    if n >= 0 then
      CsvExport.DecimalRoundTrip(n);
      CsvExport.DecimalString(n)
    else
      CsvExport.DecimalRoundTrip(-n);
      assert ("-" + CsvExport.DecimalString(-n))[1..] == CsvExport.DecimalString(-n);
      "-" + CsvExport.DecimalString(-n)
  }

  /** Different ids name different records in the URLs of `saveVersion`
      and `deleteVersion`. */
  lemma IdTextSeparatesIds(a: int, b: int)
    requires a != b
    ensures VersionsUrl + "/" + IdText(a) != VersionsUrl + "/" + IdText(b)
  {
    var p := VersionsUrl + "/";
    assert (p + IdText(a))[|p|..] == IdText(a);
    assert (p + IdText(b))[|p|..] == IdText(b);
    if (a >= 0) != (b >= 0) {
      assert IdText(a)[0] != IdText(b)[0];
    }
  }

  /** The URL `loadVersions` fetches: the query is present exactly when the
      filter is not `all`. */
  function LoadUrl(f: Filter): (r: string)
    ensures f == All ==> r == VersionsUrl
    ensures f != All ==> r == VersionsUrl + "?os_filter=" + FilterName(f)
  {
    VersionsUrl + (if f != All then "?os_filter=" + FilterName(f) else "")
  }

  /** Different filters fetch different URLs. */
  lemma LoadUrlSeparatesFilters(f: Filter, g: Filter)
    requires f != g
    ensures LoadUrl(f) != LoadUrl(g)
  {
    if f != All && g != All {
      var p := VersionsUrl + "?os_filter=";
      assert LoadUrl(f)[|p|] != LoadUrl(g)[|p|];
    }
  }

  /** `if (this.editingId)`: null and the id 0 are both falsy. */
  predicate Truthy(editingId: Option<int>) {
    editingId.Some? && editingId.value != 0
  }

  /** `saveVersion`'s routing: `PUT /api/versions/{id}` when an id is under
      edit, `POST /api/versions` otherwise. */
  function SaveRequest(editingId: Option<int>, body: Body): (r: Request)
    ensures r.payload == VersionPayload(body)
    ensures r.verb == Put <==> Truthy(editingId)
    ensures r.verb == Post <==> !Truthy(editingId)
    ensures Truthy(editingId) ==> r.url == VersionsUrl + "/" + IdText(editingId.value)
    ensures !Truthy(editingId) ==> r.url == VersionsUrl
  {
    if Truthy(editingId) then Request(Put, VersionsUrl + "/" + IdText(editingId.value), VersionPayload(body))
    else Request(Post, VersionsUrl, VersionPayload(body))
  }

  /** `!version.expanded`: an undefined flag reads as false. */
  predicate IsExpanded(r: Record) {
    r.expanded == Some(true)
  }

  /** The defaults of `renderVersions`: a record without a flag gets
      `index === 0`; a record with one keeps it. */
  function WithExpandedDefaults(vs: seq<Record>): (r: seq<Record>)
    ensures |r| == |vs|
    ensures forall i :: 0 <= i < |vs| ==> r[i].expanded.Some?
    ensures forall i :: 0 <= i < |vs| && vs[i].expanded.Some? ==> r[i] == vs[i]
    ensures forall i :: 0 <= i < |vs| && vs[i].expanded.None? ==> r[i] == vs[i].(expanded := Some(i == 0))
  {
    seq(|vs|, i requires 0 <= i < |vs| =>
      if vs[i].expanded.None? then vs[i].(expanded := Some(i == 0)) else vs[i])
  }

  /** Every record carries its flag. */
  predicate AllFlagged(vs: seq<Record>) {
    forall i :: 0 <= i < |vs| ==> vs[i].expanded.Some?
  }

  /** Rendering again does not overwrite a flag: the defaults are idempotent. */
  lemma DefaultsAreIdempotent(vs: seq<Record>)
    ensures WithExpandedDefaults(WithExpandedDefaults(vs)) == WithExpandedDefaults(vs)
  {
  }

  /** A list fresh from the server (no flags) opens its first record only. */
  lemma FreshListOpensFirstOnly(vs: seq<Record>)
    requires forall i :: 0 <= i < |vs| ==> vs[i].expanded.None?
    ensures forall i :: 0 <= i < |vs| ==> (IsExpanded(WithExpandedDefaults(vs)[i]) <==> i == 0)
  {
    forall i | 0 <= i < |vs| ensures IsExpanded(WithExpandedDefaults(vs)[i]) <==> i == 0 {
      assert WithExpandedDefaults(vs)[i].expanded == Some(i == 0);
    }
  }

  /** The first record with the id, as `Array.prototype.find` picks it. */
  function FindById(vs: seq<Record>, id: int): (r: Option<nat>)
    ensures r.Some? ==> r.value < |vs| && vs[r.value].id == id &&
                        forall j :: 0 <= j < r.value ==> vs[j].id != id
    ensures r.None? ==> forall j :: 0 <= j < |vs| ==> vs[j].id != id
    decreases |vs|
  {
    if vs == [] then None
    else if vs[0].id == id then Some(0)
    else
      match FindById(vs[1..], id)
      case None => None
      case Some(k) => Some(k + 1)
  }

  /** `toggleVersion`'s change: the first record with the id has its flag
      negated. */
  function Toggled(vs: seq<Record>, id: int): (r: seq<Record>)
    ensures |r| == |vs|
    ensures forall j :: 0 <= j < |vs| ==> r[j].(expanded := vs[j].expanded) == vs[j]
    ensures (forall j :: 0 <= j < |vs| ==> vs[j].id != id) ==> r == vs
  {
    match FindById(vs, id)
    case None => vs
    case Some(k) => vs[k := vs[k].(expanded := Some(!IsExpanded(vs[k])))]
  }

  /** Toggling changes the first match's flag, and nothing else. */
  lemma ToggleTouchesOnlyFirstMatch(vs: seq<Record>, id: int, j: nat)
    requires j < |vs|
    ensures FindById(vs, id) == Some(j) ==>
      Toggled(vs, id)[j] == vs[j].(expanded := Some(!IsExpanded(vs[j])))
    ensures FindById(vs, id) != Some(j) ==> Toggled(vs, id)[j] == vs[j]
  {
  }

  /** On flagged records, toggling twice restores the list. */
  lemma ToggleTwiceRestores(vs: seq<Record>, id: int)
    requires AllFlagged(vs)
    ensures Toggled(Toggled(vs, id), id) == vs
  {
    match FindById(vs, id)
    case None =>
    case Some(k) =>
      var once := vs[k := vs[k].(expanded := Some(!IsExpanded(vs[k])))];
      assert Toggled(vs, id) == once;
      assert forall j :: 0 <= j < |vs| ==> once[j].id == vs[j].id;
      assert FindById(once, id) == Some(k);
      assert vs[k].expanded.Some?;
      assert once[k].expanded == Some(!IsExpanded(vs[k]));
      assert IsExpanded(once[k]) == !IsExpanded(vs[k]);
      assert vs[k].expanded == Some(IsExpanded(vs[k])) by {
        if vs[k].expanded.value {
          assert vs[k].expanded == Some(true);
        } else {
          assert vs[k].expanded == Some(false);
        }
      }
      assert once[k].(expanded := vs[k].expanded) == vs[k];
      assert once[k := vs[k]] == vs;
  }

  class VersionManager {
    var versions: seq<Record>
    var isEditMode: bool
    var editingId: Option<int>
    var currentFilter: Filter
    /** The version form's controls. */
    var form: Form
    /** The password box. */
    var passwordInput: string

    /** Between handlers every loaded record carries its expanded flag. */
    ghost predicate Valid()
      reads this
    {
      AllFlagged(versions)
    }

    /** The initial state. `form` and `passwordInput` are the markup's
        initial control values; the first load that `init` starts is a
        separate LoadVersions call. */
    constructor (blank: Form, password: string)
      ensures Valid()
      ensures versions == [] && !isEditMode && editingId == None && currentFilter == All
      ensures form == blank && passwordInput == password
    {
      versions := [];
      isEditMode := false;
      editingId := None;
      currentFilter := All;
      form := blank;
      passwordInput := password;
    }

    /** The state part of `renderVersions`: the placeholder for an empty
        list, otherwise the expanded defaults assigned in place. */
    method RenderVersions() returns (placeholder: bool)
      modifies this`versions
      ensures placeholder <==> old(versions) == []
      ensures versions == WithExpandedDefaults(old(versions))
      ensures Valid()
    {
      if versions == [] {
        return true;
      }
      placeholder := false;
      var i := 0;
      while i < |versions|
        invariant 0 <= i <= |versions| == |old(versions)|
        invariant forall j :: 0 <= j < i ==> versions[j] == WithExpandedDefaults(old(versions))[j]
        invariant forall j :: i <= j < |versions| ==> versions[j] == old(versions)[j]
      {
        if versions[i].expanded.None? {
          versions := versions[i := versions[i].(expanded := Some(i == 0))];
        }
        i := i + 1;
      }
    }

    /** `loadVersions`: fetches under the current filter; a reply replaces
        the list in full and is rendered; a failure keeps the list and
        shows an error. */
    method LoadVersions(reply: Reply<seq<Record>>) returns (request: Request, notices: seq<Notice>)
      requires Valid()
      modifies this`versions
      ensures Valid()
      ensures request == Request(Get, LoadUrl(currentFilter), NoPayload)
      ensures reply.Ok? ==> versions == WithExpandedDefaults(reply.value) && notices == []
      ensures reply.Err? ==> versions == old(versions) &&
                             notices == [Notice(Failure, "載入版本資料失敗：" + reply.error)]
    {
      request := Request(Get, LoadUrl(currentFilter), NoPayload);
      match reply
      case Ok(list) =>
        versions := list;
        var _ := RenderVersions();
        notices := [];
      case Err(message) =>
        notices := [Notice(Failure, "載入版本資料失敗：" + message)];
    }

    /** `exitEditMode`. */
    method ExitEditMode()
      modifies this`isEditMode
      ensures !isEditMode
    {
      isEditMode := false;
    }

    /** `checkPassword`: an empty box sends nothing; otherwise the box's text
        is posted, a `success` reply turns edit mode on, and the box is
        cleared whatever the outcome. */
    method CheckPassword(reply: Reply<bool>) returns (request: Option<Request>, notices: seq<Notice>)
      requires Valid()
      modifies this`isEditMode, this`passwordInput, this`versions
      ensures Valid() && versions == old(versions)
      ensures old(passwordInput) == "" ==>
        request == None && notices == [Notice(Failure, "請輸入密碼")] &&
        isEditMode == old(isEditMode) && passwordInput == ""
      ensures old(passwordInput) != "" ==>
        request == Some(Request(Post, "/api/auth", PasswordPayload(old(passwordInput)))) &&
        passwordInput == "" &&
        isEditMode == (old(isEditMode) || reply == Ok(true))
      ensures old(passwordInput) != "" && reply == Ok(true) ==> notices == [Notice(Success, "登入成功！")]
      ensures old(passwordInput) != "" && reply == Ok(false) ==> notices == [Notice(Failure, "密碼錯誤！")]
      ensures old(passwordInput) != "" && reply.Err? ==> notices == [Notice(Failure, "認證失敗：" + reply.error)]
    {
      var password := passwordInput;
      if password == "" {
        return None, [Notice(Failure, "請輸入密碼")];
      }
      request := Some(Request(Post, "/api/auth", PasswordPayload(password)));
      match reply
      case Ok(success) =>
        if success {
          isEditMode := true;
          passwordInput := "";
          ExpandedDefaultsKeepFlagged(versions);
          var _ := RenderVersions();
          notices := [Notice(Success, "登入成功！")];
        } else {
          notices := [Notice(Failure, "密碼錯誤！")];
          passwordInput := "";
        }
      case Err(message) =>
        notices := [Notice(Failure, "認證失敗：" + message)];
        passwordInput := "";
    }

    /** `openVersionModal`: a record fills the form and is remembered by id;
        no record resets the form and forgets the id. */
    method OpenVersionModal(record: Option<Record>, blank: Form)
      modifies this`editingId, this`form
      ensures record.Some? ==> editingId == Some(record.value.id) && form == FillForm(record.value)
      ensures record.None? ==> editingId == None && form == blank
    {
      match record
      case Some(r) =>
        editingId := Some(r.id);
        form := FillForm(r);
      case None =>
        editingId := None;
        form := blank;
    }

    /** `closeVersionModal`. */
    method CloseVersionModal()
      modifies this`editingId
      ensures editingId == None
    {
      editingId := None;
    }

    /** `saveVersion`: an empty version control sends nothing; otherwise the
        body is sent with PUT or POST; on success the modal closes (which
        forgets the id), the list is reloaded, and the success toast is
        chosen by the id AFTER closing, so it always says 版本新增成功！. */
    method SaveVersion(reply: Reply<()>, reload: Reply<seq<Record>>)
      returns (requests: seq<Request>, notices: seq<Notice>)
      requires Valid()
      modifies this`editingId, this`versions
      ensures Valid()
      ensures ReadForm(form).None? ==>
        requests == [] && notices == [Notice(Failure, "請輸入版號")] &&
        editingId == old(editingId) && versions == old(versions)
      ensures ReadForm(form).Some? ==>
        |requests| >= 1 && requests[0] == SaveRequest(old(editingId), ReadForm(form).value)
      ensures ReadForm(form).Some? && reply.Err? ==>
        requests == [SaveRequest(old(editingId), ReadForm(form).value)] &&
        notices == [Notice(Failure, "儲存失敗：" + reply.error)] &&
        editingId == old(editingId) && versions == old(versions)
      ensures ReadForm(form).Some? && reply.Ok? ==>
        editingId == None &&
        |requests| == 2 && requests[1] == Request(Get, LoadUrl(currentFilter), NoPayload) &&
        (reload.Ok? ==> versions == WithExpandedDefaults(reload.value)) &&
        (reload.Err? ==> versions == old(versions)) &&
        notices == (if reload.Err? then [Notice(Failure, "載入版本資料失敗：" + reload.error)] else []) +
                   [Notice(Success, "版本新增成功！")]
    {
      var body := ReadForm(form);
      if body.None? {
        return [], [Notice(Failure, "請輸入版號")];
      }
      var save := SaveRequest(editingId, body.value);
      if reply.Err? {
        return [save], [Notice(Failure, "儲存失敗：" + reply.error)];
      }
      CloseVersionModal();
      var load, loadNotices := LoadVersions(reload);
      requests := [save, load];
      var text := if Truthy(editingId) then "版本更新成功！" else "版本新增成功！";
      notices := loadNotices + [Notice(Success, text)];
    }

    /** `deleteVersion`: declining the confirmation sends nothing and changes
        nothing; otherwise the DELETE is sent and, on success, the list is
        reloaded. */
    method DeleteVersion(id: int, confirmed: bool, reply: Reply<()>, reload: Reply<seq<Record>>)
      returns (requests: seq<Request>, notices: seq<Notice>)
      requires Valid()
      modifies this`versions
      ensures Valid()
      ensures !confirmed ==> requests == [] && notices == [] && versions == old(versions)
      ensures confirmed ==> |requests| >= 1 && requests[0] == Request(Delete, VersionsUrl + "/" + IdText(id), NoPayload)
      ensures confirmed && reply.Err? ==>
        |requests| == 1 && notices == [Notice(Failure, "刪除失敗：" + reply.error)] && versions == old(versions)
      ensures confirmed && reply.Ok? ==>
        |requests| == 2 && requests[1] == Request(Get, LoadUrl(currentFilter), NoPayload) &&
        (reload.Ok? ==> versions == WithExpandedDefaults(reload.value)) &&
        (reload.Err? ==> versions == old(versions)) &&
        notices == (if reload.Err? then [Notice(Failure, "載入版本資料失敗：" + reload.error)] else []) +
                   [Notice(Success, "版本已成功刪除")]
    {
      if !confirmed {
        return [], [];
      }
      var remove := Request(Delete, VersionsUrl + "/" + IdText(id), NoPayload);
      if reply.Err? {
        return [remove], [Notice(Failure, "刪除失敗：" + reply.error)];
      }
      var load, loadNotices := LoadVersions(reload);
      requests := [remove, load];
      notices := loadNotices + [Notice(Success, "版本已成功刪除")];
    }

    /** `toggleVersion`: flips the flag of the first record with the id and
        re-renders; an unknown id changes nothing. */
    method ToggleVersion(id: int)
      requires Valid()
      modifies this`versions
      ensures Valid()
      ensures versions == Toggled(old(versions), id)
    {
      var k := FindById(versions, id);
      if k.Some? {
        var i := k.value;
        versions := versions[i := versions[i].(expanded := Some(!IsExpanded(versions[i])))];
        ExpandedDefaultsKeepFlagged(versions);
        var _ := RenderVersions();
      }
    }

    /** `setFilter`: remembers the filter and reloads under it. */
    method SetFilter(filter: Filter, reply: Reply<seq<Record>>) returns (request: Request, notices: seq<Notice>)
      requires Valid()
      modifies this`currentFilter, this`versions
      ensures Valid()
      ensures currentFilter == filter
      ensures request == Request(Get, LoadUrl(filter), NoPayload)
      ensures reply.Ok? ==> versions == WithExpandedDefaults(reply.value) && notices == []
      ensures reply.Err? ==> versions == old(versions) &&
                             notices == [Notice(Failure, "載入版本資料失敗：" + reply.error)]
    {
      currentFilter := filter;
      request, notices := LoadVersions(reply);
    }

    /** `exportToExcel`: fetches the export table, writes it as CSV behind a
        byte-order mark, and names the download after the given date. The
        controller's state is not touched. */
    method ExportToExcel(reply: Reply<seq<seq<string>>>, year: nat, monthIndex: int, day: int)
      returns (request: Request, download: Option<(string, string)>, notices: seq<Notice>)
      requires 0 <= monthIndex <= 11 && 1 <= day <= 31
      ensures request == Request(Get, "/api/export", NoPayload)
      ensures reply.Err? ==> download == None && notices == [Notice(Failure, "匯出失敗：" + reply.error)]
      ensures reply.Ok? ==>
        (download.Some? &&
         download.value.0 == CsvExport.ExportFileName(year, monthIndex, day) &&
         download.value.1 == CsvExport.Document(reply.value) &&
         notices == [Notice(Success, "📊 報表已成功匯出！檔案名稱：" + download.value.0)])
      ensures reply.Ok? && reply.value != [[""]] &&
              (forall i :: 0 <= i < |reply.value| ==> |reply.value[i]| >= 1) ==>
        CsvExport.ReadDocument(download.value.1) == Some(reply.value)
    {
      request := Request(Get, "/api/export", NoPayload);
      match reply
      case Err(message) =>
        download := None;
        notices := [Notice(Failure, "匯出失敗：" + message)];
      case Ok(data) =>
        var fileName := CsvExport.ExportFileName(year, monthIndex, day);
        var content := CsvExport.Document(data);
        if data != [[""]] && forall i :: 0 <= i < |data| ==> |data[i]| >= 1 {
          CsvExport.DocumentRoundTrip(data);
        }
        download := Some((fileName, content));
        notices := [Notice(Success, "📊 報表已成功匯出！檔案名稱：" + fileName)];
    }
  }

  /** The defaults leave a flagged list as it is. */
  lemma ExpandedDefaultsKeepFlagged(vs: seq<Record>)
    requires AllFlagged(vs)
    ensures WithExpandedDefaults(vs) == vs
  {
  }

  /** Editing a record and saving it: the PUT goes to the record's id, yet
      the toast announces a creation, because the id is forgotten before it
      is tested. */
  method EditAndSave(r: Record, blank: Form, reload: Reply<seq<Record>>)
    returns (requests: seq<Request>, notices: seq<Notice>)
    requires r.id != 0 && RoundTrips(r)
    ensures |requests| == 2
    ensures requests[0] == Request(Put, VersionsUrl + "/" + IdText(r.id), VersionPayload(BodyOf(r)))
    ensures notices == (if reload.Err? then [Notice(Failure, "載入版本資料失敗：" + reload.error)] else []) +
                       [Notice(Success, "版本新增成功！")]
  {
    var m := new VersionManager(blank, "");
    m.OpenVersionModal(Some(r), blank);
    FormRoundTrip(r);
    requests, notices := m.SaveVersion(Ok(()), reload);
  }
}
