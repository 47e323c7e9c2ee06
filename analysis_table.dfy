/** The pure helpers of the analysis table component
    (examples/nodejs/components/AnalysisTable.js): the column table and the
    `sortOrder` validator, the payload of a sort click, the issue-count class
    and label, the status label and the URL truncation. */
module AnalysisTable {
  import opened Wrappers
  import opened JsObjects

  // ---------------------------------------------------------------------
  // Columns and the sortOrder prop

  datatype Column = Column(key: string, title: string, sortable: bool)

  /** The `columns` data of the component, in display order. */
  const Columns: seq<Column> := [
    Column("project_name", "Proyek", true),
    Column("language", "Bahasa", true),
    Column("status", "Status", true),
    Column("complexity_score", "Kompleksitas", true),
    Column("issues_found", "Issues", true),
    Column("created_at", "Dibuat", true),
    Column("actions", "Aksi", false)
  ]

  /** The defaults of the `sortBy` and `sortOrder` props. */
  const DefaultSortBy: string := "created_at"
  const DefaultSortOrder: string := "desc"

  /** The `sortOrder` prop's validator: `['asc', 'desc'].includes(value)`. */
  predicate IsValidSortOrder(value: string) {
    value in ["asc", "desc"]
  }

  /** Only the actions column cannot be sorted, and column keys are distinct. */
  lemma ColumnsFacts()
    ensures forall c :: c in Columns ==> (!c.sortable <==> c.key == "actions")
    ensures forall i, j :: 0 <= i < j < |Columns| ==> Columns[i].key != Columns[j].key
    ensures exists c :: c in Columns && c.key == DefaultSortBy && c.sortable
    ensures IsValidSortOrder(DefaultSortOrder)
  {
    assert Columns[5].key == DefaultSortBy;
  }

  // ---------------------------------------------------------------------
  // handleSort

  /** The payload of the 'sort-changed' event. */
  datatype SortChange = SortChange(sortBy: string, sortOrder: string)

  /** handleSort(columnKey) with the component's current `sortBy` and `sortOrder`:
      clicking the sorted column flips the order, any other column starts at 'asc'. */
  function HandleSort(sortBy: string, sortOrder: string, columnKey: string): (e: SortChange)
    ensures e.sortBy == columnKey
    ensures IsValidSortOrder(e.sortOrder)
    ensures sortBy != columnKey ==> e.sortOrder == "asc"
    ensures sortBy == columnKey && IsValidSortOrder(sortOrder) ==> e.sortOrder != sortOrder
  {
    var newOrder := if sortBy == columnKey then (if sortOrder == "asc" then "desc" else "asc") else "asc";
    SortChange(columnKey, newOrder)
  }

  /** Clicking the sorted column twice restores a valid order. */
  lemma SortToggleTwice(columnKey: string, sortOrder: string)
    requires IsValidSortOrder(sortOrder)
    ensures var once := HandleSort(columnKey, sortOrder, columnKey);
      HandleSort(once.sortBy, once.sortOrder, columnKey) == SortChange(columnKey, sortOrder)
  {
  }

  // ---------------------------------------------------------------------
  // getIssuesClass and getIssuesLabel

  /** The four classes, from no issues to many. */
  const IssuesClasses: seq<string> := ["issues-none", "issues-low", "issues-medium", "issues-high"]

  /** getIssuesClass: 0 is none, up to 5 (negative counts included) low, up to 15
      medium, more high. */
  function GetIssuesClass(issuesCount: int): (c: string)
    ensures c in IssuesClasses
    ensures c == "issues-none" <==> issuesCount == 0
    ensures c == "issues-low" <==> issuesCount != 0 && issuesCount <= 5
    ensures c == "issues-medium" <==> 5 < issuesCount <= 15
    ensures c == "issues-high" <==> 15 < issuesCount
  {
    if issuesCount == 0 then "issues-none"
    else if issuesCount <= 5 then "issues-low"
    else if issuesCount <= 15 then "issues-medium"
    else "issues-high"
  }

  /** Position of a class in IssuesClasses. */
  function Severity(c: string): nat
    requires c in IssuesClasses
  {
    if c == IssuesClasses[0] then 0
    else if c == IssuesClasses[1] then 1
    else if c == IssuesClasses[2] then 2
    else 3
  }

  /** More issues never give a milder class (counts are never negative in practice;
      a negative count is classed low, above zero's none). */
  lemma IssuesClassMonotone(a: nat, b: nat)
    requires a <= b
    ensures Severity(GetIssuesClass(a)) <= Severity(GetIssuesClass(b))
  {
  }

  /** getIssuesLabel: singular for 0 and 1, plural otherwise. */
  function GetIssuesLabel(issuesCount: int): (text: string)
    ensures text == "issue" <==> issuesCount == 0 || issuesCount == 1
    ensures text == "issue" || text == "issues"
  {
    if issuesCount == 0 then "issue"
    else if issuesCount == 1 then "issue"
    else "issues"
  }

  // ---------------------------------------------------------------------
  // getStatusText

  /** The own properties of `statusMap`. */
  const StatusLabels: map<string, string> := map[
    "completed" := "Selesai",
    "pending" := "Sedang Proses",
    "failed" := "Gagal"
  ]

  /** getStatusText, reading only the map's own entries: a known status gets its
      label, any other status is returned unchanged. */
  function GetStatusText(status: string): (text: string)
    ensures status in StatusLabels ==> text == StatusLabels[status]
    ensures status !in StatusLabels ==> text == status
  {
    if status in StatusLabels && StatusLabels[status] != "" then StatusLabels[status] else status
  }

  /** A label is not itself a status, so applying the function twice changes nothing. */
  lemma StatusTextIdempotent(status: string)
    ensures GetStatusText(GetStatusText(status)) == GetStatusText(status)
  {
    if status in StatusLabels {
      assert StatusLabels[status] !in StatusLabels;
    }
  }

  /** What `statusMap[status] || status` yields as written. */
  datatype TextResult = Text(text: string) | PrototypeValue(member: string)

  function GetStatusTextAsWritten(status: string): (r: TextResult)
    ensures r.Text? ==> r.text == GetStatusText(status)
    ensures r.PrototypeValue? <==> status !in StatusLabels && status in ObjectPrototypeMembers
  {
    match LookupProperty(StatusLabels, status)
    case Own(statusLabel) => Text(if statusLabel != "" then statusLabel else status)
    case Inherited(member) => PrototypeValue(member)
    case Undefined => Text(status)
  }

  /** The status "toString" yields the inherited function instead of "toString". */
  lemma ToStringStatusCounterexample()
    ensures GetStatusTextAsWritten("toString") == PrototypeValue("toString")
    ensures GetStatusText("toString") == "toString"
  {
    assert "toString" !in StatusLabels;
    assert "toString" in ObjectPrototypeMembers;
  }

  // ---------------------------------------------------------------------
  // truncateUrl

  const MaxUrlLength: nat := 30
  const KeptLength: nat := 27
  const Ellipsis: string := "..."

  /** truncateUrl: '' for a missing or empty URL, the URL itself when it has at
      most 30 characters, otherwise its first 27 characters and '...'. */
  function TruncateUrl(url: Option<string>): (r: string)
    ensures |r| <= MaxUrlLength
    ensures url.None? ==> r == ""
    ensures url.Some? && |url.value| <= MaxUrlLength ==> r == url.value
    ensures url.Some? && |url.value| > MaxUrlLength ==>
      |r| == MaxUrlLength && r[..KeptLength] == url.value[..KeptLength] && r[KeptLength..] == Ellipsis
  {
    if url.None? || url.value == "" then ""
    else if |url.value| > MaxUrlLength then url.value[..KeptLength] + Ellipsis
    else url.value
  }

  /** Truncating a truncated URL changes nothing. */
  lemma TruncateUrlIdempotent(url: Option<string>)
    ensures TruncateUrl(Some(TruncateUrl(url))) == TruncateUrl(url)
  {
  }
}
