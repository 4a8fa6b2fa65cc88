/**
 * The decision rules inside the request handlers of app.py, lifted out of Flask,
 * the session and the database: the required fields of a new report, the
 * moderator gate, the owner's edit/delete gate and the edit update set, the
 * storage keys of the two images, the listing projection and the CSV layout.
 */
module App {
  import opened Wrappers
  import Supa

  // ---------------------------------------------------------------------------
  // str.strip()

  /** Python's `str.isspace` for one character. */
  predicate IsSpace(c: char) {
    || ('\U{9}' <= c <= '\U{d}') || ('\U{1c}' <= c <= '\U{20}')
    || c == '\U{85}' || c == '\U{a0}' || c == '\U{1680}'
    || ('\U{2000}' <= c <= '\U{200a}') || c == '\U{2028}' || c == '\U{2029}'
    || c == '\U{202f}' || c == '\U{205f}' || c == '\U{3000}'
  }

  predicate AllSpace(s: string) {
    forall i :: 0 <= i < |s| ==> IsSpace(s[i])
  }

  /** The number of whitespace characters s starts with. */
  function LeadingSpaces(s: string): (n: nat)
    ensures n <= |s| && AllSpace(s[..n])
    ensures n < |s| ==> !IsSpace(s[n])
  {
    if s == [] || !IsSpace(s[0]) then 0
    else
      var n := LeadingSpaces(s[1..]);
      assert s[1..][..n] == s[1..n + 1];
      n + 1
  }

  /** The number of whitespace characters s ends with. */
  function TrailingSpaces(s: string): (n: nat)
    ensures n <= |s| && AllSpace(s[|s| - n..])
    ensures n < |s| ==> !IsSpace(s[|s| - 1 - n])
  {
    if s == [] || !IsSpace(s[|s| - 1]) then 0
    else
      var n := TrailingSpaces(s[..|s| - 1]);
      assert s[..|s| - 1][|s| - 1 - n..] == s[|s| - 1 - n..|s| - 1];
      n + 1
  }

  /** Python's `s.strip()`: s without its leading and trailing whitespace. */
  function Strip(s: string): (t: string)
    ensures t == "" <==> AllSpace(s)
    ensures t != "" ==> !IsSpace(t[0]) && !IsSpace(t[|t| - 1])
    ensures exists i, j :: 0 <= i <= j <= |s| && t == s[i..j] && AllSpace(s[..i]) && AllSpace(s[j..])
  {
    var i := LeadingSpaces(s);
    if i == |s| then
      assert s == s[..i];
      assert "" == s[i..i] && s[i..] == "";
      ""
    else
      var n := TrailingSpaces(s);
      assert forall j :: |s| - n <= j < |s| ==> IsSpace(s[j]) by {
        forall j | |s| - n <= j < |s| ensures IsSpace(s[j]) {
          assert s[j] == s[|s| - n..][j - (|s| - n)];
        }
      }
      s[i..|s| - n]
  }

  // ---------------------------------------------------------------------------
  // new_report: required fields (the form as Flask parses it)

  /** An uploaded file part, by its file name; Werkzeug treats one without a file name as absent. */
  datatype Upload = Upload(filename: string)

  datatype NewReportForm = NewReportForm(
    title: Option<string>,
    description: Option<string>,
    category: Option<string>,
    severity: Option<string>,
    lat: Option<string>,
    lon: Option<string>,
    address: Option<string>,
    photo: Option<Upload>)

  /** The fields of a new report once the required-field check has passed. */
  datatype Draft = Draft(
    title: string,
    description: string,
    category: string,
    severity: string,
    lat: string,
    lon: string,
    address: string,
    photo: Upload)

  const RequiredMessage: string := "Photo, Title, Latitude and Longitude are required."

  function GetOr(field: Option<string>, default: string): string {
    if field.Some? then field.value else default
  }

  /** Python's truth value of an optional string: present and not empty. */
  predicate Filled(field: Option<string>) {
    field.Some? && field.value != ""
  }

  function ReadNewReport(form: NewReportForm): (r: Result<Draft, string>)
    ensures r.Err? ==> r.error == RequiredMessage
  {
    var title := Strip(GetOr(form.title, ""));
    var hasPhoto := form.photo.Some? && form.photo.value.filename != "";
    if !hasPhoto || title == "" || !Filled(form.lat) || !Filled(form.lon) then Err(RequiredMessage)
    else Ok(Draft(title, Strip(GetOr(form.description, "")), GetOr(form.category, "Other"),
                  GetOr(form.severity, "Low"), form.lat.value, form.lon.value,
                  Strip(GetOr(form.address, "")), form.photo.value))
  }

  /**
   * A report is refused exactly when the photo, the title (after stripping), the
   * latitude or the longitude is missing or empty; latitude and longitude are not
   * stripped, so whitespace there passes this check.
   */
  lemma RequiredFields(form: NewReportForm)
    ensures ReadNewReport(form).Err? <==>
      || form.photo.None? || form.photo.value.filename == ""
      || form.title.None? || AllSpace(form.title.value)
      || !Filled(form.lat) || !Filled(form.lon)
    ensures ReadNewReport(form).Ok? ==>
      var d := ReadNewReport(form).value;
      && d.title == Strip(form.title.value) && d.title != ""
      && d.description == Strip(GetOr(form.description, ""))
      && d.address == Strip(GetOr(form.address, ""))
      && d.lat == form.lat.value && d.lon == form.lon.value
      && d.photo == form.photo.value
      && (form.category.Some? ==> d.category == form.category.value)
      && (form.category.None? ==> d.category == "Other")
      && (form.severity.Some? ==> d.severity == form.severity.value)
      && (form.severity.None? ==> d.severity == "Low")
  {
  }

  // ---------------------------------------------------------------------------
  // admin_required / get_user_role

  /** A row of the profiles table as the client returns it: column to value, None for SQL null. */
  type Row = map<string, Option<string>>

  const DefaultRole: string := "user"

  /** `get_user_role` given the data of the profile lookup (None when nothing came back). */
  function GetUserRole(data: Option<Row>): (role: Option<string>)
    ensures data.None? || data.value == map[] || "role" !in data.value ==> role == Some(DefaultRole)
    ensures data.Some? && "role" in data.value ==> role == data.value["role"]
  {
    if data.None? || data.value == map[] then Some(DefaultRole)
    else if "role" in data.value then data.value["role"]
    else Some(DefaultRole)
  }

  predicate IsStaff(role: Option<string>) {
    role == Some("admin") || role == Some("moderator")
  }

  datatype Gate = RedirectToLogin | Forbidden | Proceed

  /** `admin_required`: the session's user id, if signed in, and the profile lookup by id. */
  function AdminGate(sessionUser: Option<string>, profile: string -> Option<Row>): (g: Gate)
    ensures g == RedirectToLogin <==> sessionUser.None?
  {
    if sessionUser.None? then RedirectToLogin
    else if IsStaff(GetUserRole(profile(sessionUser.value))) then Proceed
    else Forbidden
  }

  /**
   * Only a signed-in admin or moderator gets through; a user without a profile
   * row falls back to "user" and is refused; without a session the lookup is
   * never made.
   */
  lemma AdminGateRule(sessionUser: Option<string>, profile: string -> Option<Row>, other: string -> Option<Row>)
    ensures AdminGate(sessionUser, profile) == Proceed <==>
      sessionUser.Some? && GetUserRole(profile(sessionUser.value)) in {Some("admin"), Some("moderator")}
    ensures sessionUser.Some? && profile(sessionUser.value).None? ==> AdminGate(sessionUser, profile) == Forbidden
    ensures sessionUser.None? ==> AdminGate(sessionUser, profile) == AdminGate(sessionUser, other)
  {
  }

  // ---------------------------------------------------------------------------
  // api_update_or_delete_report

  /** The owner's report as the status lookup returns it: its status, None for SQL null. */
  datatype StatusRow = StatusRow(status: Option<string>)

  const OpenStatus: string := "Open"
  const DeleteRefusal: string := "Cannot delete once under review or resolved."
  const EditRefusal: string := "Cannot edit once under review or resolved."

  /** The owner may change a report only while it is theirs and still open. */
  predicate OwnerMayChange(found: Option<StatusRow>) {
    found.Some? && found.value.status == Some(OpenStatus)
  }

  datatype DeleteOutcome = DeleteRefused(message: string) | DeleteCommitted

  function DecideDelete(found: Option<StatusRow>): (d: DeleteOutcome)
    ensures d == DeleteCommitted <==> OwnerMayChange(found)
    ensures d.DeleteRefused? ==> d.message == DeleteRefusal
  {
    if !OwnerMayChange(found) then DeleteRefused(DeleteRefusal) else DeleteCommitted
  }

  /** A JSON value of the request body. */
  datatype Json =
    | JNull
    | JBool(b: bool)
    | JNumber(n: real)
    | JString(s: string)
    | JArray(items: seq<Json>)
    | JObject(fields: map<string, Json>)

  /** `payload.get(key)`: the value, or None (here JNull) when the key is absent. */
  function Get(payload: map<string, Json>, key: string): Json {
    if key in payload then payload[key] else JNull
  }

  const EditableFields: set<string> := {"title", "description"}

  /** The `updates` dict: title and description from the payload, keeping only those that are not None. */
  function Updates(payload: map<string, Json>): (u: map<string, Json>)
    ensures u.Keys <= EditableFields
    ensures forall k :: k in EditableFields ==> (k in u <==> k in payload && payload[k] != JNull)
    ensures forall k :: k in u ==> u[k] == payload[k]
  {
    var title, description := Get(payload, "title"), Get(payload, "description");
    var u := if title != JNull then map["title" := title] else map[];
    if description != JNull then u["description" := description] else u
  }

  datatype EditOutcome =
    | EditRefused(message: string)
      /** The update written to the report; an empty set means no write at all. */
    | EditCommitted(updates: map<string, Json>)

  /** `request.json or {}`: a missing or empty body reads as the empty object. */
  function DecideEdit(found: Option<StatusRow>, body: Option<map<string, Json>>): (e: EditOutcome)
    ensures e.EditCommitted? <==> OwnerMayChange(found)
    ensures e.EditRefused? ==> e.message == EditRefusal
    ensures e.EditCommitted? ==> e.updates.Keys <= EditableFields
    ensures e.EditCommitted? ==> e.updates == Updates(if body.Some? then body.value else map[])
  {
    var payload := if body.Some? then body.value else map[];
    if !OwnerMayChange(found) then EditRefused(EditRefusal)
    else EditCommitted(Updates(payload))
  }

  /**
   * An edit writes nothing when the body has neither a title nor a description
   * other than null, and an empty string or any other non-null value is written
   * as given.
   */
  lemma EditWritesOnlyGivenFields(found: Option<StatusRow>, payload: map<string, Json>)
    requires OwnerMayChange(found)
    ensures DecideEdit(found, Some(payload)).updates == map[] <==>
      Get(payload, "title") == JNull && Get(payload, "description") == JNull
    ensures "title" in payload && payload["title"] == JString("") ==>
      DecideEdit(found, Some(payload)).updates["title"] == JString("")
  {
    var u := DecideEdit(found, Some(payload)).updates;
    if Get(payload, "title") != JNull {
      assert "title" in u;
    } else if Get(payload, "description") != JNull {
      assert "description" in u;
    }
  }

  // ---------------------------------------------------------------------------
  // new_report: storage keys

  function KeyPrefix(userId: string, reportId: string): string {
    "reports/" + userId + "/" + reportId + "/"
  }

  function OriginalKey(userId: string, reportId: string): (k: string)
    ensures KeyPrefix(userId, reportId) <= k && k[|KeyPrefix(userId, reportId)|..] == "original.jpg"
  {
    KeyPrefix(userId, reportId) + "original.jpg"
  }

  function ThumbKey(userId: string, reportId: string): (k: string)
    ensures KeyPrefix(userId, reportId) <= k && k[|KeyPrefix(userId, reportId)|..] == "thumb.jpg"
  {
    KeyPrefix(userId, reportId) + "thumb.jpg"
  }

  /** A key cut at every '/'. */
  function Segments(s: string): (parts: seq<string>)
    ensures |parts| >= 1
  {
    if s == [] then [""]
    else
      var rest := Segments(s[1..]);
      if s[0] == '/' then [""] + rest else [[s[0]] + rest[0]] + rest[1..]
  }

  lemma {:induction false} SegmentsOfPlain(a: string)
    requires '/' !in a
    ensures Segments(a) == [a]
  {
    if a != [] {
      SegmentsOfPlain(a[1..]);
      assert [a[0]] + a[1..] == a;
    }
  }

  lemma {:induction false} SegmentsJoin(a: string, b: string)
    requires '/' !in a
    ensures Segments(a + "/" + b) == [a] + Segments(b)
  {
    if a == [] {
      assert a + "/" + b == "/" + b;
      assert ("/" + b)[1..] == b;
    } else {
      SegmentsJoin(a[1..], b);
      assert (a + "/" + b)[1..] == a[1..] + "/" + b;
      assert [a[0]] + a[1..] == a;
    }
  }

  lemma KeyNameSegments(userId: string, reportId: string, name: string)
    requires '/' !in userId && '/' !in reportId && '/' !in name
    ensures Segments(KeyPrefix(userId, reportId) + name) == ["reports", userId, reportId, name]
  {
    var tail := reportId + "/" + name;
    var middle := userId + "/" + tail;
    assert KeyPrefix(userId, reportId) + name == "reports" + "/" + middle;
    SegmentsJoin("reports", middle);
    SegmentsJoin(userId, tail);
    SegmentsJoin(reportId, name);
    SegmentsOfPlain(name);
  }

  /** For ids without '/', the two keys read back as bucket folder, user id, report id and file name. */
  lemma KeySegments(userId: string, reportId: string)
    requires '/' !in userId && '/' !in reportId
    ensures Segments(OriginalKey(userId, reportId)) == ["reports", userId, reportId, "original.jpg"]
    ensures Segments(ThumbKey(userId, reportId)) == ["reports", userId, reportId, "thumb.jpg"]
  {
    KeyNameSegments(userId, reportId, "original.jpg");
    KeyNameSegments(userId, reportId, "thumb.jpg");
  }

  /**
   * The two keys of one report share their folder and differ only in the file
   * name; for ids without '/', different reports never share a key.
   */
  lemma KeysDistinct(u1: string, r1: string, u2: string, r2: string)
    requires '/' !in u1 && '/' !in r1 && '/' !in u2 && '/' !in r2
    ensures OriginalKey(u1, r1) != ThumbKey(u2, r2)
    ensures OriginalKey(u1, r1) == OriginalKey(u2, r2) <==> u1 == u2 && r1 == r2
    ensures ThumbKey(u1, r1) == ThumbKey(u2, r2) <==> u1 == u2 && r1 == r2
  {
    KeySegments(u1, r1);
    KeySegments(u2, r2);
    assert Segments(OriginalKey(u1, r1))[3] != Segments(ThumbKey(u2, r2))[3];
  }

  // ---------------------------------------------------------------------------
  // api_reports: the listing projection

  /** A row of the reports table; None is SQL null in the nullable columns. */
  datatype ReportRow = ReportRow(
    id: string,
    userId: Option<string>,
    title: string,
    description: Option<string>,
    category: string,
    severity: string,
    lat: real,
    lon: real,
    address: Option<string>,
    imageUrl: string,
    thumbUrl: string,
    status: string,
    createdAt: string)

  /** One record of the JSON listing: the row with the user id replaced by the masked reporter. */
  datatype Listed = Listed(
    id: string,
    title: string,
    description: Option<string>,
    category: string,
    severity: string,
    lat: real,
    lon: real,
    address: Option<string>,
    imageUrl: string,
    thumbUrl: string,
    status: string,
    createdAt: string,
    reporter: string)

  function Listing(r: ReportRow): (l: Listed)
    ensures l.reporter == Supa.MaskUserHandle(r.userId)
  {
    Listed(r.id, r.title, r.description, r.category, r.severity, r.lat, r.lon, r.address,
           r.imageUrl, r.thumbUrl, r.status, r.createdAt, Supa.MaskUserHandle(r.userId))
  }

  /** `res.data or []`. */
  function RowsOrEmpty(data: Option<seq<ReportRow>>): seq<ReportRow> {
    if data.Some? then data.value else []
  }

  /** The loop of `api_reports`: one record per row, in the order of the query. */
  method ApiReports(data: Option<seq<ReportRow>>) returns (records: seq<Listed>)
    ensures |records| == |RowsOrEmpty(data)|
    ensures forall i :: 0 <= i < |records| ==> records[i] == Listing(RowsOrEmpty(data)[i])
  {
    var rows := RowsOrEmpty(data);
    records := [];
    var i := 0;
    while i < |rows|
      invariant 0 <= i <= |rows|
      invariant |records| == i
      invariant forall j :: 0 <= j < i ==> records[j] == Listing(rows[j])
    {
      records := records + [Listing(rows[i])];
      i := i + 1;
    }
  }

  /**
   * A record reveals no more of the user id than its first four characters: rows
   * that differ only in user ids with the same first four characters (or in two
   * blank ids) are listed identically.
   */
  lemma ListingRevealsOnlyPrefix(r: ReportRow, s: ReportRow)
    requires r.(userId := None) == s.(userId := None)
    requires Supa.NoUserId(r.userId) == Supa.NoUserId(s.userId)
    requires !Supa.NoUserId(r.userId) ==> Supa.Take(r.userId.value, 4) == Supa.Take(s.userId.value, 4)
    ensures Listing(r) == Listing(s)
  {
    if !Supa.NoUserId(r.userId) {
      Supa.HandleDeterminedByPrefix(r.userId.value, s.userId.value);
    }
  }

  // ---------------------------------------------------------------------------
  // export_csv: the column layout

  datatype Cell = Text(s: string) | Number(x: real) | Empty

  const CsvHeader: seq<string> :=
    ["id", "title", "category", "severity", "status", "lat", "lon", "address", "created_at", "image_url", "thumb_url"]

  function OptText(v: Option<string>): Cell {
    if v.Some? then Text(v.value) else Empty
  }

  /** `r.get(name)` for a column of the reports table, Empty for a column it does not have. */
  function Column(r: ReportRow, name: string): Cell {
    match name
    case "id" => Text(r.id)
    case "user_id" => OptText(r.userId)
    case "title" => Text(r.title)
    case "description" => OptText(r.description)
    case "category" => Text(r.category)
    case "severity" => Text(r.severity)
    case "lat" => Number(r.lat)
    case "lon" => Number(r.lon)
    case "address" => OptText(r.address)
    case "image_url" => Text(r.imageUrl)
    case "thumb_url" => Text(r.thumbUrl)
    case "status" => Text(r.status)
    case "created_at" => Text(r.createdAt)
    case _ => Empty
  }

  /** The data row `export_csv` writes for one report. */
  function CsvRecord(r: ReportRow): (cells: seq<Cell>)
    ensures |cells| == |CsvHeader|
  {
    [Text(r.id), Text(r.title), Text(r.category), Text(r.severity), Text(r.status), Number(r.lat),
     Number(r.lon), OptText(r.address), Text(r.createdAt), Text(r.imageUrl), Text(r.thumbUrl)]
  }

  /** Each data row holds, at every position, the column the header names there; user id and description are not exported. */
  lemma CsvColumnsAligned(r: ReportRow)
    ensures |CsvHeader| == 11 && |CsvRecord(r)| == 11
    ensures forall i :: 0 <= i < 11 ==> CsvRecord(r)[i] == Column(r, CsvHeader[i])
    ensures "user_id" !in CsvHeader && "description" !in CsvHeader
  {
  }

  /** The header row as cells. */
  function HeaderRow(): (cells: seq<Cell>)
    ensures |cells| == |CsvHeader|
    ensures forall i :: 0 <= i < |cells| ==> cells[i] == Text(CsvHeader[i])
  {
    [Text("id"), Text("title"), Text("category"), Text("severity"), Text("status"), Text("lat"),
     Text("lon"), Text("address"), Text("created_at"), Text("image_url"), Text("thumb_url")]
  }

  /** The rows `export_csv` hands the CSV writer: the header, then one row per report in query order. */
  method ExportCsv(data: Option<seq<ReportRow>>) returns (table: seq<seq<Cell>>)
    ensures |table| == |RowsOrEmpty(data)| + 1 && table[0] == HeaderRow()
    ensures forall i :: 0 <= i < |RowsOrEmpty(data)| ==> table[i + 1] == CsvRecord(RowsOrEmpty(data)[i])
    ensures forall i :: 0 <= i < |table| ==> |table[i]| == |CsvHeader|
  {
    var rows := RowsOrEmpty(data);
    table := [HeaderRow()];
    var i := 0;
    while i < |rows|
      invariant 0 <= i <= |rows|
      invariant |table| == i + 1 && table[0] == HeaderRow()
      invariant forall j :: 0 <= j < i ==> table[j + 1] == CsvRecord(rows[j])
      invariant forall j :: 0 <= j < |table| ==> |table[j]| == |CsvHeader|
    {
      table := table + [CsvRecord(rows[i])];
      i := i + 1;
    }
  }
}
