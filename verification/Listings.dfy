/** The two keyset listings of the head: attestations with filters, and one volunteer's assignments. */
module Listings {
  import opened Keyset
  import opened Results

  // ---- attestations -------------------------------------------------------------------

  datatype Attested = Attested(leaf: nat, volunteerKey: seq<nat>)

  datatype ListFilters = ListFilters(
    leaf: Option<nat>, volunteerKey: seq<nat>, from: Option<string>, upTo: Option<string>)

  /** A filter on the time: absent, a parsed bound, or text that does not parse. */
  function Bound(text: Option<string>, parse: string -> Option<int>): Result<Option<int>, ()> {
    match text
    case None => Ok(None)
    case Some(t) => (match parse(t) case None => Err(()) case Some(at) => Ok(Some(at)))
  }

  predicate Passes(r: Row<Attested>, f: ListFilters, from: Option<int>, upTo: Option<int>) {
    && (f.leaf.Some? ==> r.data.leaf == f.leaf.value)
    && (f.volunteerKey != [] ==> r.data.volunteerKey == f.volunteerKey)
    && (from.Some? ==> r.key.at >= from.value)
    && (upTo.Some? ==> r.key.at <= upTo.value)
  }

  function Passing(f: ListFilters, from: Option<int>, upTo: Option<int>): Row<Attested> -> bool {
    (r: Row<Attested>) => Passes(r, f, from, upTo)
  }

  function Attestations(
    c: Codec, parse: string -> Option<int>, table: seq<Row<Attested>>, f: ListFilters, req: Request)
    : Result<Page<Attested>, Error>
  {
    var from, upTo := Bound(f.from, parse), Bound(f.upTo, parse);
    if from.Err? then Err(InvalidFrom)
    else if upTo.Err? then Err(InvalidTo)
    else ListPage(c, table, Passing(f, from.value, upTo.value), req)
  }

  /** Reads one page: the query asks for one row more than fits, rows are appended as scanned, the extra one is cut. */
  method List(c: Codec, parse: string -> Option<int>, table: seq<Row<Attested>>, f: ListFilters, req: Request)
    returns (response: Result<Page<Attested>, Error>)
    ensures response == Attestations(c, parse, table, f, req)
  {
    hide Select, Passing;
    var pageSize := ClampPageSize(req.pageSize);
    var from, upTo := None, None;
    if f.from.Some? {
      from := parse(f.from.value);
      if from.None? { return Err(InvalidFrom); }
    }
    if f.upTo.Some? {
      upTo := parse(f.upTo.value);
      if upTo.None? { return Err(InvalidTo); }
    }
    var after := None;
    if req.cursor != "" {
      after := c.decode(req.cursor);
      if after.None? { return Err(InvalidCursor); }
    }
    var page := Scan(c, Fetch(table, Passing(f, from, upTo), after, pageSize + 1), pageSize);
    return Ok(page);
  }

  // ---- assignments --------------------------------------------------------------------

  datatype Assigned = Assigned(volunteer: Option<nat>, workUnit: nat, outcome: Option<string>)

  /** `volunteer_id = $1`: a row whose volunteer is NULL matches nobody. */
  function AssignedTo(volunteer: nat): Row<Assigned> -> bool {
    (r: Row<Assigned>) => r.data.volunteer == Some(volunteer)
  }

  method ListByVolunteer(c: Codec, table: seq<Row<Assigned>>, volunteer: nat, req: Request)
    returns (response: Result<Page<Assigned>, Error>)
    ensures response == ListPage(c, table, AssignedTo(volunteer), req)
  {
    var pageSize := ClampPageSize(req.pageSize);
    var after := None;
    if req.cursor != "" {
      after := c.decode(req.cursor);
      if after.None? { return Err(InvalidCursor); }
    }
    var page := Scan(c, Fetch(table, AssignedTo(volunteer), after, pageSize + 1), pageSize);
    return Ok(page);
  }

  /** What both listings do with a query's rows. */
  method Scan<D>(c: Codec, result: seq<Row<D>>, pageSize: nat) returns (page: Page<D>)
    requires pageSize >= 1 && |result| <= pageSize + 1
    ensures page.hasMore == (|result| == pageSize + 1)
    ensures page.hasMore ==> page.rows == result[..pageSize] && page.nextCursor == c.encode(result[pageSize - 1].key)
    ensures !page.hasMore ==> page.rows == result && page.nextCursor == ""
  {
    var rows: seq<Row<D>> := [];
    while |rows| < |result|
      invariant |rows| <= |result| && rows == result[..|rows|]
    {
      rows := rows + [result[|rows|]];
    }
    page := Page(rows, "", false);
    if |rows| > pageSize {
      rows := rows[..pageSize];
      var last := rows[pageSize - 1];
      page := Page(rows, c.encode(last.key), true);
    }
  }

  /** A request is refused exactly for text that does not parse, the first of `from`, `to` and cursor named. */
  lemma RefusedExactlyWhen(
    c: Codec, parse: string -> Option<int>, table: seq<Row<Attested>>, f: ListFilters, req: Request)
    ensures var r := Attestations(c, parse, table, f, req);
            var badFrom := f.from.Some? && parse(f.from.value).None?;
            var badTo := f.upTo.Some? && parse(f.upTo.value).None?;
            var badCursor := req.cursor != "" && c.decode(req.cursor).None?;
            && (r == Err(InvalidFrom) <==> badFrom)
            && (r == Err(InvalidTo) <==> !badFrom && badTo)
            && (r == Err(InvalidCursor) <==> !badFrom && !badTo && badCursor)
            && (r.Ok? <==> !badFrom && !badTo && !badCursor)
  {
    hide PageAfter;
  }

  /** Older, or of the same time with a smaller id. */
  ghost predicate Below(a: Key, b: Key) { a.at < b.at || (a.at == b.at && a.id < b.id) }

  /** The time bound a filter asks for, once it parses. */
  function Limit(text: Option<string>, parse: string -> Option<int>): Option<int> {
    if text.Some? then parse(text.value) else None
  }

  /**
   * An accepted request shows only rows that pass every filter and are past the cursor, and leaves out
   * such a row only when the page says there are more and the row is below the last one shown.
   */
  lemma ShowsExactlyWhatPasses(
    c: Codec, parse: string -> Option<int>, table: seq<Row<Attested>>, f: ListFilters, req: Request, r: Row<Attested>)
    requires Distinct(table) && Attestations(c, parse, table, f, req).Ok?
    ensures var p := Attestations(c, parse, table, f, req).value;
            var after := if req.cursor == "" then None else c.decode(req.cursor);
            var from, upTo := Limit(f.from, parse), Limit(f.upTo, parse);
            var wanted :=
              && r in table
              && (f.leaf.Some? ==> r.data.leaf == f.leaf.value)
              && (f.volunteerKey != [] ==> r.data.volunteerKey == f.volunteerKey)
              && (from.Some? ==> from.value <= r.key.at) && (upTo.Some? ==> r.key.at <= upTo.value)
              && (after.Some? ==> Below(r.key, after.value));
            && (r in p.rows ==> wanted)
            && (wanted && r !in p.rows ==> p.hasMore && p.rows != [] && Below(r.key, p.rows[|p.rows| - 1].key))
  {
    hide PageAfter;
    var want := Passing(f, Limit(f.from, parse), Limit(f.upTo, parse));
    var after := if req.cursor == "" then None else c.decode(req.cursor);
    var size := ClampPageSize(req.pageSize);
    PageMeans(c, table, want, after, size);
    if r in table && want(r) && IsPast(r.key, after) && r !in PageAfter(c, table, want, after, size).rows {
      LeftForLater(c, table, want, after, size, r);
    }
  }

  /** One volunteer's listing shows that volunteer's assignments, nobody else's, and skips none above the last shown. */
  lemma ShowsOwnAssignments(c: Codec, table: seq<Row<Assigned>>, volunteer: nat, req: Request, r: Row<Assigned>)
    requires Distinct(table) && ListPage(c, table, AssignedTo(volunteer), req).Ok?
    ensures var p := ListPage(c, table, AssignedTo(volunteer), req).value;
            var after := if req.cursor == "" then None else c.decode(req.cursor);
            var wanted :=
              r in table && r.data.volunteer == Some(volunteer) && (after.Some? ==> Below(r.key, after.value));
            && (r in p.rows ==> wanted)
            && (wanted && r !in p.rows ==> p.hasMore && p.rows != [] && Below(r.key, p.rows[|p.rows| - 1].key))
  {
    hide PageAfter;
    var want := AssignedTo(volunteer);
    var after := if req.cursor == "" then None else c.decode(req.cursor);
    var size := ClampPageSize(req.pageSize);
    PageMeans(c, table, want, after, size);
    if r in table && want(r) && IsPast(r.key, after) && r !in PageAfter(c, table, want, after, size).rows {
      LeftForLater(c, table, want, after, size, r);
    }
  }
}
