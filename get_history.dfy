/**
 * The history query handler: validation and clamping of the query string,
 * the fixed-window per-client rate limiter, the redaction of stored records
 * and the pagination arithmetic of the response.
 */
module GetHistory {
  import opened JsCore
  import opened Records

  const RateLimitWindowMs: int := 60 * 1000
  const MaxRequestsPerWindow: int := 100
  const DefaultPage: int := 1
  const DefaultLimit: int := 20
  const MaxLimit: int := 100
  const MaxSearchLength: int := 100

  // ---------------------------------------------------------------------------
  // Query parameters
  // ---------------------------------------------------------------------------

  /** The three sortable columns. */
  datatype SortField = SortByCreatedAt | SortByPatientName | SortByFileName

  function ColumnName(f: SortField): string
  {
    match f
    case SortByCreatedAt => "created_at"
    case SortByPatientName => "patient_name"
    case SortByFileName => "file_name"
  }

  predicate IsSortColumn(s: string)
  {
    s == "created_at" || s == "patient_name" || s == "file_name"
  }

  function ParseSortField(s: string): (r: Option<SortField>)
    ensures r.Some? <==> IsSortColumn(s)
    ensures r.Some? ==> ColumnName(r.value) == s
  {
    if s == "created_at" then Some(SortByCreatedAt)
    else if s == "patient_name" then Some(SortByPatientName)
    else if s == "file_name" then Some(SortByFileName)
    else None
  }

  datatype SortOrder = Ascending | Descending

  function OrderName(o: SortOrder): string
  {
    match o
    case Ascending => "asc"
    case Descending => "desc"
  }

  predicate IsSortOrder(s: string)
  {
    s == "asc" || s == "desc"
  }

  function ParseSortOrder(s: string): (r: Option<SortOrder>)
    ensures r.Some? <==> IsSortOrder(s)
    ensures r.Some? ==> OrderName(r.value) == s
  {
    if s == "asc" then Some(Ascending)
    else if s == "desc" then Some(Descending)
    else None
  }

  /** The file-type filter whitelist, in lower case. */
  predicate IsFileType(s: string)
  {
    s == "pdf" || s == "doc" || s == "docx" || s == "txt"
  }

  /** The query string as the handler sees it. `page` and `limit` are the
      results of `parseInt` applied to the parameter, or to its default text
      ('1', '20') when the parameter is absent or empty; `None` stands for
      NaN. The other fields are `searchParams.get(...)`, `None` when absent. */
  datatype RawQuery = RawQuery(
    page: Option<int>,
    limit: Option<int>,
    sortBy: Option<string>,
    sortOrder: Option<string>,
    search: Option<string>,
    fileType: Option<string>,
    dateFrom: Option<string>,
    dateTo: Option<string>)

  /** The validated parameters: page and limit are always set, the rest only
      when the raw value passed its check. */
  datatype QueryParams = QueryParams(
    page: int,
    limit: int,
    sortBy: Option<SortField>,
    sortOrder: Option<SortOrder>,
    search: Option<string>,
    fileType: Option<string>,
    dateFrom: Option<string>,
    dateTo: Option<string>)

  predicate IsUnsafeSearchChar(c: char)
  {
    c == '<' || c == '>' || c == '\'' || c == '"'
  }

  /** `search.replace(/[<>'"]/g, '')`: deletes every angle bracket and
      quote. The result keeps every other character exactly as often as the
      input has it, and no unsafe character at all. */
  function StripUnsafe(s: string): (r: string)
    ensures |r| <= |s|
    ensures forall i :: 0 <= i < |r| ==> !IsUnsafeSearchChar(r[i])
    ensures forall c :: multiset(r)[c] == if IsUnsafeSearchChar(c) then 0 else multiset(s)[c]
  {
    if s == [] then []
    else
      var rest := StripUnsafe(s[1..]);
      assert s == [s[0]] + s[1..];
      if IsUnsafeSearchChar(s[0]) then rest else [s[0]] + rest
  }

  /** Stripping works character by character and keeps the order: it
      distributes over concatenation. */
  lemma {:induction false} StripUnsafeConcat(a: string, b: string)
    ensures StripUnsafe(a + b) == StripUnsafe(a) + StripUnsafe(b)
  {
    if a == [] {
      assert a + b == b;
    } else {
      assert (a + b)[1..] == a[1..] + b;
      StripUnsafeConcat(a[1..], b);
    }
  }

  /** A search text without unsafe characters is kept unchanged, so
      stripping twice is the same as stripping once. */
  lemma {:induction false} StripUnsafeKeepsSafe(s: string)
    requires forall i :: 0 <= i < |s| ==> !IsUnsafeSearchChar(s[i])
    ensures StripUnsafe(s) == s
  {
    if s != [] {
      StripUnsafeKeepsSafe(s[1..]);
    }
  }

  lemma StripUnsafeIdempotent(s: string)
    ensures StripUnsafe(StripUnsafe(s)) == StripUnsafe(s)
  {
    StripUnsafeKeepsSafe(StripUnsafe(s));
  }

  predicate IsUpperAscii(c: char)
  {
    'A' <= c <= 'Z'
  }

  /** `toLowerCase` on one character, for the ASCII letters. */
  function LowerChar(c: char): (d: char)
    ensures !IsUpperAscii(d)
    ensures IsUpperAscii(c) ==> d as int == c as int + ('a' as int - 'A' as int)
    ensures !IsUpperAscii(c) ==> d == c
  {
    if IsUpperAscii(c) then (c as int + 32) as char else c
  }

  /** `toLowerCase` on the ASCII letters: no upper-case letter remains, each
      one is replaced in place by its lower-case letter, and every other
      character is kept. */
  function LowerAscii(s: string): (r: string)
    ensures |r| == |s|
    ensures forall i :: 0 <= i < |r| ==> !IsUpperAscii(r[i])
    ensures forall i :: 0 <= i < |s| && IsUpperAscii(s[i]) ==>
      r[i] as int == s[i] as int + ('a' as int - 'A' as int)
    ensures forall i :: 0 <= i < |s| && !IsUpperAscii(s[i]) ==> r[i] == s[i]
  {
    seq(|s|, i requires 0 <= i < |s| => LowerChar(s[i]))
  }

  /** Lower-casing twice is the same as lower-casing once. */
  lemma LowerAsciiIdempotent(s: string)
    ensures LowerAscii(LowerAscii(s)) == LowerAscii(s)
  {
  }

  /** `validateQueryParams`. `parsesAsDate(d)` stands for
      `!isNaN(Date.parse(d))`. */
  function ValidateQueryParams(raw: RawQuery, parsesAsDate: string -> bool): (p: QueryParams)
    // page: kept when positive, otherwise 1
    ensures p.page >= 1
    ensures raw.page.Some? && raw.page.value > 0 ==> p.page == raw.page.value
    ensures !(raw.page.Some? && raw.page.value > 0) ==> p.page == DefaultPage
    // limit: kept when in 1..100, otherwise 20
    ensures 1 <= p.limit <= MaxLimit
    ensures raw.limit.Some? && 0 < raw.limit.value <= MaxLimit ==> p.limit == raw.limit.value
    ensures !(raw.limit.Some? && 0 < raw.limit.value <= MaxLimit) ==> p.limit == DefaultLimit
    // sort column and order: set only from their whitelists
    ensures p.sortBy.Some? <==>
      raw.sortBy.Some? && IsSortColumn(raw.sortBy.value)
    ensures p.sortBy.Some? ==> ColumnName(p.sortBy.value) == raw.sortBy.value
    ensures p.sortOrder.Some? <==> raw.sortOrder.Some? && IsSortOrder(raw.sortOrder.value)
    ensures p.sortOrder.Some? ==> OrderName(p.sortOrder.value) == raw.sortOrder.value
    // search: kept when non-empty and at most 100 characters, without unsafe characters
    ensures p.search.Some? <==> TruthyString(raw.search) && |raw.search.value| <= MaxSearchLength
    ensures p.search.Some? ==>
      && p.search.value == StripUnsafe(raw.search.value)
      && |p.search.value| <= |raw.search.value|
      && forall i :: 0 <= i < |p.search.value| ==> !IsUnsafeSearchChar(p.search.value[i])
    // file type: compared and stored in lower case
    ensures p.fileType.Some? <==>
      TruthyString(raw.fileType) && IsFileType(LowerAscii(raw.fileType.value))
    ensures p.fileType.Some? ==>
      IsFileType(p.fileType.value) && p.fileType.value == LowerAscii(raw.fileType.value)
    // dates: kept verbatim when non-empty and parseable
    ensures p.dateFrom.Some? <==> TruthyString(raw.dateFrom) && parsesAsDate(raw.dateFrom.value)
    ensures p.dateFrom.Some? ==> p.dateFrom == raw.dateFrom
    ensures p.dateTo.Some? <==> TruthyString(raw.dateTo) && parsesAsDate(raw.dateTo.value)
    ensures p.dateTo.Some? ==> p.dateTo == raw.dateTo
  {
    QueryParams(
      PageParam(raw.page), LimitParam(raw.limit),
      SortByParam(raw.sortBy), SortOrderParam(raw.sortOrder),
      SearchParam(raw.search), FileTypeParam(raw.fileType),
      DateParam(raw.dateFrom, parsesAsDate), DateParam(raw.dateTo, parsesAsDate))
  }

  function PageParam(page: Option<int>): int
  {
    if page.Some? && page.value > 0 then page.value else DefaultPage
  }

  function LimitParam(limit: Option<int>): int
  {
    if limit.Some? && 0 < limit.value <= MaxLimit then limit.value else DefaultLimit
  }

  function SortByParam(sortBy: Option<string>): Option<SortField>
  {
    if TruthyString(sortBy) then ParseSortField(sortBy.value) else None
  }

  function SortOrderParam(sortOrder: Option<string>): Option<SortOrder>
  {
    if TruthyString(sortOrder) then ParseSortOrder(sortOrder.value) else None
  }

  function SearchParam(search: Option<string>): Option<string>
  {
    if TruthyString(search) && |search.value| <= MaxSearchLength
    then Some(StripUnsafe(search.value)) else None
  }

  function FileTypeParam(fileType: Option<string>): Option<string>
  {
    if TruthyString(fileType) && IsFileType(LowerAscii(fileType.value))
    then Some(LowerAscii(fileType.value)) else None
  }

  function DateParam(date: Option<string>, parsesAsDate: string -> bool): Option<string>
  {
    if TruthyString(date) && parsesAsDate(date.value) then date else None
  }


  // ---------------------------------------------------------------------------
  // Rate limiting
  // ---------------------------------------------------------------------------

  /** One client's window: requests counted so far and the time (ms) up to
      which the window lasts. */
  datatype RateWindow = RateWindow(count: int, resetTime: int)

  /** Every window has counted between 1 and 100 requests. */
  ghost predicate WellFormed(entries: map<string, RateWindow>)
  {
    forall k :: k in entries ==> 1 <= entries[k].count <= MaxRequestsPerWindow
  }

  /** A window exists for `id` and still applies at `now` (also at
      `now == resetTime`). */
  predicate WindowOpen(entries: map<string, RateWindow>, id: string, now: int)
  {
    id in entries && now <= entries[id].resetTime
  }

  datatype Admission = Admission(allowed: bool, entries: map<string, RateWindow>)

  /** What `checkRateLimit(id)` at time `now` answers and leaves in the map. */
  function Admit(entries: map<string, RateWindow>, id: string, now: int): (r: Admission)
    ensures id in r.entries
    // no other client's entry changes
    ensures forall k :: k != id ==> (k in r.entries <==> k in entries)
    ensures forall k :: k != id && k in entries ==> r.entries[k] == entries[k]
    // an unseen client or an expired window: a new window with one request
    ensures !WindowOpen(entries, id, now) ==>
      r.allowed && r.entries[id] == RateWindow(1, now + RateLimitWindowMs)
    // a live window: the hundredth request is the last one admitted
    ensures WindowOpen(entries, id, now) ==>
      && (r.allowed <==> entries[id].count < MaxRequestsPerWindow)
      && r.entries[id].resetTime == entries[id].resetTime
      && r.entries[id].count == entries[id].count + (if r.allowed then 1 else 0)
    ensures WellFormed(entries) ==> WellFormed(r.entries)
  {
    if !WindowOpen(entries, id, now) then
      Admission(true, entries[id := RateWindow(1, now + RateLimitWindowMs)])
    else if entries[id].count >= MaxRequestsPerWindow then
      Admission(false, entries)
    else
      Admission(true, entries[id := entries[id].(count := entries[id].count + 1)])
  }

  datatype ReplayResult = ReplayResult(allowed: nat, entries: map<string, RateWindow>)

  /** The requests of one client at the given times, one after another:
      how many are admitted and what the map holds afterwards. */
  function Replay(entries: map<string, RateWindow>, id: string, times: seq<int>): ReplayResult
    decreases |times|
  {
    if times == [] then ReplayResult(0, entries)
    else
      var a := Admit(entries, id, times[0]);
      var rest := Replay(a.entries, id, times[1..]);
      ReplayResult((if a.allowed then 1 else 0) + rest.allowed, rest.entries)
  }

  function Min(a: int, b: int): int
  {
    if a <= b then a else b
  }

  /** Within a live window, exactly as many further requests are admitted as
      the window has room for, and the window keeps its reset time. */
  lemma {:induction false} LiveWindowBudget(entries: map<string, RateWindow>, id: string, times: seq<int>)
    requires WellFormed(entries)
    requires id in entries
    requires forall i :: 0 <= i < |times| ==> times[i] <= entries[id].resetTime
    ensures var r := Replay(entries, id, times);
      && r.allowed == Min(|times|, MaxRequestsPerWindow - entries[id].count)
      && id in r.entries
      && r.entries[id] == RateWindow(entries[id].count + r.allowed, entries[id].resetTime)
  {
    if times != [] {
      var a := Admit(entries, id, times[0]);
      assert WindowOpen(entries, id, times[0]);
      LiveWindowBudget(a.entries, id, times[1..]);
    }
  }

  /** A request that opens a new window, followed by requests up to that
      window's end: exactly min(n, 100) of the n requests are admitted, so
      never more than 100 in one window. */
  lemma AtMostMaxPerWindow(entries: map<string, RateWindow>, id: string, now: int, times: seq<int>)
    requires WellFormed(entries)
    requires !WindowOpen(entries, id, now)
    requires forall i :: 0 <= i < |times| ==> times[i] <= now + RateLimitWindowMs
    ensures Replay(entries, id, [now] + times).allowed == Min(1 + |times|, MaxRequestsPerWindow)
    ensures Replay(entries, id, [now] + times).allowed <= MaxRequestsPerWindow
  {
    var a := Admit(entries, id, now);
    assert ([now] + times)[1..] == times;
    LiveWindowBudget(a.entries, id, times);
  }

  /** Requests of one client never change another client's window. */
  lemma {:induction false} ReplayKeepsOthers(entries: map<string, RateWindow>, id: string, times: seq<int>, other: string)
    requires other != id
    ensures other in Replay(entries, id, times).entries <==> other in entries
    ensures other in entries ==> Replay(entries, id, times).entries[other] == entries[other]
    decreases |times|
  {
    if times != [] {
      ReplayKeepsOthers(Admit(entries, id, times[0]).entries, id, times[1..], other);
    }
  }

  // ---------------------------------------------------------------------------
  // Redaction
  // ---------------------------------------------------------------------------

  const Mask: string := "***"
  const IdPrefixLength: nat := 3
  const TextExcerptLength: nat := 200

  /** `sanitizeAnalysisRecord`. */
  function Sanitize(rec: AnalysisRecord): (r: AnalysisRecord)
    // patient name: first character and the mask
    ensures r.patientName.Some? <==> TruthyString(rec.patientName)
    ensures r.patientName.Some? ==>
      |r.patientName.value| == 1 + |Mask| && r.patientName.value[0] == rec.patientName.value[0]
      && r.patientName.value[1..] == Mask
    // date of birth: the mask alone
    ensures r.dateOfBirth == if TruthyString(rec.dateOfBirth) then Some(Mask) else None
    // patient id: at most three characters and the mask
    ensures r.patientId.Some? <==> TruthyString(rec.patientId)
    ensures r.patientId.Some? ==>
      var shown := |r.patientId.value| - |Mask|;
      && shown == (if |rec.patientId.value| < IdPrefixLength then |rec.patientId.value| else IdPrefixLength)
      && r.patientId.value == rec.patientId.value[..shown] + Mask
    // original text: at most 200 characters and an ellipsis
    ensures r.originalText.Some? <==> TruthyString(rec.originalText)
    ensures r.originalText.Some? ==>
      var shown := |r.originalText.value| - |Ellipsis|;
      && shown == (if |rec.originalText.value| < TextExcerptLength then |rec.originalText.value| else TextExcerptLength)
      && r.originalText.value == rec.originalText.value[..shown] + Ellipsis
    // everything else is copied
    ensures r.id == rec.id && r.insuranceProvider == rec.insuranceProvider
    ensures r.fileName == rec.fileName && r.fileType == rec.fileType
    ensures r.fileUrl == rec.fileUrl && r.fileSize == rec.fileSize
    ensures r.createdAt == rec.createdAt && r.updatedAt == rec.updatedAt
  {
    rec.(
      patientName := if TruthyString(rec.patientName) then Some([rec.patientName.value[0]] + Mask) else None,
      dateOfBirth := if TruthyString(rec.dateOfBirth) then Some(Mask) else None,
      patientId := if TruthyString(rec.patientId) then Some(Prefix(rec.patientId.value, IdPrefixLength) + Mask) else None,
      originalText :=
        if TruthyString(rec.originalText) then Some(Prefix(rec.originalText.value, TextExcerptLength) + Ellipsis) else None)
  }

  /** What a record shows of a masked field: whether it is set and its first
      `n` characters. */
  function Visible(s: Option<string>, n: nat): Option<string>
  {
    if TruthyString(s) then Some(Prefix(s.value, n)) else None
  }

  /** The redacted record depends on nothing but the first character of the
      name, the presence of the birth date, the first three characters of
      the identifier and the first 200 characters of the text (and the
      fields copied unchanged): two records that agree on these are
      indistinguishable after redaction. */
  lemma SanitizeRevealsOnlyPrefixes(a: AnalysisRecord, b: AnalysisRecord)
    requires Visible(a.patientName, 1) == Visible(b.patientName, 1)
    requires TruthyString(a.dateOfBirth) == TruthyString(b.dateOfBirth)
    requires Visible(a.patientId, IdPrefixLength) == Visible(b.patientId, IdPrefixLength)
    requires Visible(a.originalText, TextExcerptLength) == Visible(b.originalText, TextExcerptLength)
    requires a.id == b.id && a.insuranceProvider == b.insuranceProvider
    requires a.fileName == b.fileName && a.fileType == b.fileType
    requires a.fileUrl == b.fileUrl && a.fileSize == b.fileSize
    requires a.createdAt == b.createdAt && a.updatedAt == b.updatedAt
    ensures Sanitize(a) == Sanitize(b)
  {
    if TruthyString(a.patientName) {
      assert [a.patientName.value[0]] == Prefix(a.patientName.value, 1);
      assert [b.patientName.value[0]] == Prefix(b.patientName.value, 1);
    }
  }

  /** `(data || []).map(sanitizeAnalysisRecord)`. */
  function SanitizeAll(rows: Option<seq<AnalysisRecord>>): (r: seq<AnalysisRecord>)
    ensures rows.None? ==> r == []
    ensures rows.Some? ==> |r| == |rows.value| && forall i :: 0 <= i < |r| ==> r[i] == Sanitize(rows.value[i])
  {
    match rows
    case None => []
    case Some(rs) => seq(|rs|, i requires 0 <= i < |rs| => Sanitize(rs[i]))
  }

  // ---------------------------------------------------------------------------
  // Pagination
  // ---------------------------------------------------------------------------

  /** First row index (0-based) of a page. */
  function RangeStart(page: int, limit: int): int
  {
    (page - 1) * limit
  }

  /** Last row index of a page, inclusive. */
  function RangeEnd(page: int, limit: int): int
  {
    RangeStart(page, limit) + limit - 1
  }

  /** `count ? Math.ceil(count / limit) : 0`. */
  function TotalPages(count: Option<nat>, limit: int): (n: nat)
    requires limit >= 1
    ensures count.None? || count.value == 0 ==> n == 0
    ensures count.Some? && count.value > 0 ==>
      n >= 1 && (n - 1) * limit < count.value <= n * limit
  {
    if count.None? || count.value == 0 then 0
    else
      var c := count.value;
      var n := (c + limit - 1) / limit;
      CeilDivision(c, limit, n);
      n
  }

  lemma CeilDivision(c: nat, limit: int, n: int)
    requires c > 0 && limit >= 1 && n == (c + limit - 1) / limit
    ensures n >= 1 && (n - 1) * limit < c <= n * limit
  {
    var rem := (c + limit - 1) % limit;
    assert c + limit - 1 == n * limit + rem;
    assert (n - 1) * limit == n * limit - limit;
  }

  datatype Pagination = Pagination(
    page: int, limit: int, totalRecords: Option<nat>, totalPages: nat,
    hasNextPage: bool, hasPrevPage: bool)

  /** The pagination block of a successful response. */
  function PageInfo(page: int, limit: int, count: Option<nat>): (r: Pagination)
    requires page >= 1 && limit >= 1
    ensures r.page == page && r.limit == limit && r.totalRecords == count
    ensures r.totalPages == TotalPages(count, limit)
    ensures r.hasNextPage <==> page < r.totalPages
    ensures r.hasPrevPage <==> page > 1
  {
    var totalPages := TotalPages(count, limit);
    Pagination(page, limit, count, totalPages, page < totalPages, page > 1)
  }

  /** The inclusive range asked of the store spans exactly `limit` rows, and
      consecutive pages are adjacent. */
  lemma PageRangeSpansLimit(page: int, limit: int)
    ensures RangeEnd(page, limit) - RangeStart(page, limit) + 1 == limit
    ensures RangeStart(page + 1, limit) == RangeEnd(page, limit) + 1
  {
    assert page * limit == (page - 1) * limit + limit;
  }

  /** Reading pages 1 to `totalPages` one after another yields every one of
      the `count` rows exactly once: each row lies on one page in that range,
      and on no other page. */
  lemma RowOnExactlyOnePage(row: nat, limit: int, count: nat)
    requires limit >= 1 && row < count
    ensures var p := row / limit + 1;
      && 1 <= p <= TotalPages(Some(count), limit)
      && RangeStart(p, limit) <= row <= RangeEnd(p, limit)
    ensures forall q :: RangeStart(q, limit) <= row <= RangeEnd(q, limit) ==> q == row / limit + 1
  {
    RowOnItsPage(row, limit);
    RowPageWithinTotal(row, limit, count);
    RowOnNoOtherPage(row, limit);
  }

  lemma RowOnItsPage(row: nat, limit: int)
    requires limit >= 1
    ensures row / limit >= 0
    ensures RangeStart(row / limit + 1, limit) == (row / limit) * limit
    ensures RangeStart(row / limit + 1, limit) <= row <= RangeEnd(row / limit + 1, limit)
  {
    assert row == (row / limit) * limit + row % limit;
  }

  lemma RowPageWithinTotal(row: nat, limit: int, count: nat)
    requires limit >= 1 && row < count
    ensures row / limit + 1 <= TotalPages(Some(count), limit)
  {
    var p := row / limit + 1;
    var n := TotalPages(Some(count), limit);
    RowOnItsPage(row, limit);
    if p > n {
      MultiplyMonotone(n, p - 1, limit);
    }
  }

  lemma RowOnNoOtherPage(row: nat, limit: int)
    requires limit >= 1
    ensures forall q :: RangeStart(q, limit) <= row <= RangeEnd(q, limit) ==> q == row / limit + 1
  {
    forall q | RangeStart(q, limit) <= row <= RangeEnd(q, limit)
      ensures q == row / limit + 1
    {
      RowOnPageNumber(row, limit, q);
    }
  }

  lemma RowOnPageNumber(row: nat, limit: int, q: int)
    requires limit >= 1 && RangeStart(q, limit) <= row <= RangeEnd(q, limit)
    ensures q == row / limit + 1
  {
    var p := row / limit + 1;
    RowOnItsPage(row, limit);
    if q < p {
      MultiplyMonotone(q, p - 1, limit);
    } else if q > p {
      MultiplyMonotone(p, q - 1, limit);
    }
  }

  lemma MultiplyMonotone(a: int, b: int, limit: int)
    requires a <= b && limit >= 1
    ensures a * limit <= b * limit
  {
    assert b * limit - a * limit == (b - a) * limit;
  }

  // ---------------------------------------------------------------------------
  // The GET handler
  // ---------------------------------------------------------------------------

  /** `x-forwarded-for || x-real-ip || 'unknown'`. */
  function ClientIdentifier(forwardedFor: Option<string>, realIp: Option<string>): (id: string)
    ensures TruthyString(forwardedFor) ==> id == forwardedFor.value
    ensures !TruthyString(forwardedFor) && TruthyString(realIp) ==> id == realIp.value
    ensures !TruthyString(forwardedFor) && !TruthyString(realIp) ==> id == "unknown"
    ensures id != ""
  {
    if TruthyString(forwardedFor) then forwardedFor.value
    else if TruthyString(realIp) then realIp.value
    else "unknown"
  }

  /** The query sent to the store: optional filters, the ordering and the
      inclusive row range. */
  datatype QueryPlan = QueryPlan(
    searchFilter: Option<string>,
    fileTypeFilter: Option<string>,
    createdFrom: Option<string>,
    createdTo: Option<string>,
    orderBy: SortField,
    ascending: bool,
    rangeFrom: int,
    rangeTo: int)

  /** `if (x)` on an optional string: the string only when it is non-empty. */
  function NonEmpty(s: Option<string>): (r: Option<string>)
    ensures r.Some? <==> TruthyString(s)
    ensures r.Some? ==> r == s
  {
    if TruthyString(s) then s else None
  }

  function PlanQuery(p: QueryParams): (q: QueryPlan)
    requires p.page >= 1 && p.limit >= 1
    // a filter is applied only for a non-empty value; an empty search
    // (everything stripped) adds none
    ensures q.searchFilter == NonEmpty(p.search) && q.fileTypeFilter == NonEmpty(p.fileType)
    ensures q.createdFrom == NonEmpty(p.dateFrom) && q.createdTo == NonEmpty(p.dateTo)
    // newest first unless asked otherwise
    ensures q.orderBy == if p.sortBy.Some? then p.sortBy.value else SortByCreatedAt
    ensures q.ascending <==> p.sortOrder == Some(Ascending)
    ensures q.rangeFrom == (p.page - 1) * p.limit
    ensures q.rangeTo - q.rangeFrom + 1 == p.limit
  {
    PageRangeSpansLimit(p.page, p.limit);
    QueryPlan(
      NonEmpty(p.search),
      NonEmpty(p.fileType),
      NonEmpty(p.dateFrom),
      NonEmpty(p.dateTo),
      if p.sortBy.Some? then p.sortBy.value else SortByCreatedAt,
      (if p.sortOrder.Some? then p.sortOrder.value else Descending) == Ascending,
      RangeStart(p.page, p.limit),
      RangeEnd(p.page, p.limit))
  }

  /** What the store answers: an error, or the rows of the range and the
      total number of matching rows (either may be null). */
  datatype DbOutcome = DbError | DbRows(data: Option<seq<AnalysisRecord>>, count: Option<nat>)

  datatype HistoryResponse =
    | ServiceUnavailable
    | TooManyRequests(retryAfterSeconds: int)
    | FetchFailed
    | HistoryPage(data: seq<AnalysisRecord>, pagination: Pagination)
  {
    function Status(): int
    {
      match this
      case ServiceUnavailable => 503
      case TooManyRequests(_) => 429
      case FetchFailed => 500
      case HistoryPage(_, _) => 200
    }
  }

  /** The module-level rate-limit map and the GET handler that uses it. */
  class HistoryEndpoint {
    var rateLimits: map<string, RateWindow>

    ghost predicate Valid()
      reads this
    {
      WellFormed(rateLimits)
    }

    constructor ()
      ensures Valid() && rateLimits == map[]
    {
      rateLimits := map[];
    }

    /** `checkRateLimit(identifier)`, with the clock reading passed in. */
    method CheckRateLimit(identifier: string, now: int) returns (allowed: bool)
      requires Valid()
      modifies this
      ensures Valid()
      ensures allowed == Admit(old(rateLimits), identifier, now).allowed
      ensures rateLimits == Admit(old(rateLimits), identifier, now).entries
    {
      var userLimit := if identifier in rateLimits then Some(rateLimits[identifier]) else None;
      if userLimit.None? || now > userLimit.value.resetTime {
        rateLimits := rateLimits[identifier := RateWindow(1, now + RateLimitWindowMs)];
        return true;
      }
      if userLimit.value.count >= MaxRequestsPerWindow {
        return false;
      }
      rateLimits := rateLimits[identifier := userLimit.value.(count := userLimit.value.count + 1)];
      return true;
    }

    /** `GET`: configuration check, rate limit, validation, the query (its
        outcome given by `db`), redaction and pagination. */
    method Get(configured: bool, forwardedFor: Option<string>, realIp: Option<string>,
               raw: RawQuery, parsesAsDate: string -> bool, now: int,
               db: QueryPlan -> DbOutcome)
      returns (resp: HistoryResponse)
      requires Valid()
      modifies this
      ensures Valid()
      // unconfigured: 503, and the request is not counted
      ensures !configured ==> resp == ServiceUnavailable && rateLimits == old(rateLimits)
      ensures configured ==>
        var id := ClientIdentifier(forwardedFor, realIp);
        var admission := Admit(old(rateLimits), id, now);
        && rateLimits == admission.entries
        && (!admission.allowed ==> resp == TooManyRequests(RateLimitWindowMs / 1000))
        && (admission.allowed ==>
              var params := ValidateQueryParams(raw, parsesAsDate);
              var outcome := db(PlanQuery(params));
              && (outcome.DbError? ==> resp == FetchFailed)
              && (outcome.DbRows? ==>
                    resp == HistoryPage(SanitizeAll(outcome.data),
                                        PageInfo(params.page, params.limit, outcome.count))))
    {
      if !configured {
        return ServiceUnavailable;
      }
      var clientIp := ClientIdentifier(forwardedFor, realIp);
      var allowed := CheckRateLimit(clientIp, now);
      if !allowed {
        return TooManyRequests(RateLimitWindowMs / 1000);
      }
      var params := ValidateQueryParams(raw, parsesAsDate);
      var outcome := db(PlanQuery(params));
      if outcome.DbError? {
        return FetchFailed;
      }
      var sanitizedData := SanitizeAll(outcome.data);
      var pagination := PageInfo(params.page, params.limit, outcome.count);
      resp := HistoryPage(sanitizedData, pagination);
    }
  }
}
