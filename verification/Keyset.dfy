/** Keyset paging: a listing by (time, id), newest first, each page starting below the last row of the one before. */
module Keyset {
  import opened Results

  const ID_SPACE := 0x1_0000_0000_0000_0000_0000_0000_0000_0000

  /** A row's identifier as a number, in the order the database compares its bytes. */
  type RowId = n: nat | n < ID_SPACE

  /** `at` is a time in microseconds, as any number that grows with it. */
  datatype Key = Key(at: int, id: RowId)

  /** SQL's row comparison `(a.at, a.id) < (b.at, b.id)`. */
  predicate Less(a: Key, b: Key) { a.at < b.at || (a.at == b.at && a.id < b.id) }

  datatype Row<+D> = Row(key: Key, data: D)

  /** The primary key: no two rows share an id. */
  ghost predicate Distinct<D>(table: seq<Row<D>>) {
    forall i, j :: 0 <= i < j < |table| ==> table[i].key.id != table[j].key.id
  }

  ghost predicate Descends<D>(rows: seq<Row<D>>) {
    forall i, j :: 0 <= i < j < |rows| ==> Less(rows[j].key, rows[i].key)
  }

  // ---- SELECT … WHERE … ORDER BY at DESC, id DESC LIMIT n ------------------------------

  function Insert<D>(r: Row<D>, rows: seq<Row<D>>): seq<Row<D>> {
    if rows == [] || Less(rows[0].key, r.key) then [r] + rows else [rows[0]] + Insert(r, rows[1..])
  }

  function Select<D>(table: seq<Row<D>>, want: Row<D> -> bool): seq<Row<D>> {
    if table == [] then []
    else
      var rest := Select(table[1..], want);
      if want(table[0]) then Insert(table[0], rest) else rest
  }

  predicate IsPast(k: Key, after: Option<Key>) { after.Some? ==> Less(k, after.value) }

  function Past<D>(want: Row<D> -> bool, after: Option<Key>): Row<D> -> bool {
    (r: Row<D>) => want(r) && IsPast(r.key, after)
  }

  function Fetch<D>(table: seq<Row<D>>, want: Row<D> -> bool, after: Option<Key>, limit: nat): seq<Row<D>> {
    var all := Select(table, Past(want, after));
    if |all| <= limit then all else all[..limit]
  }

  lemma {:induction false} InsertMembers<D>(r: Row<D>, rows: seq<Row<D>>, x: Row<D>)
    ensures x in Insert(r, rows) <==> x == r || x in rows
    ensures |Insert(r, rows)| == |rows| + 1
  {
    if rows != [] && !Less(rows[0].key, r.key) {
      InsertMembers(r, rows[1..], x);
      assert rows == [rows[0]] + rows[1..];
    }
  }

  lemma {:induction false} InsertDescends<D>(r: Row<D>, rows: seq<Row<D>>)
    requires Descends(rows) && forall x :: x in rows ==> x.key.id != r.key.id
    ensures Descends(Insert(r, rows))
  {
    if rows != [] && !Less(rows[0].key, r.key) {
      InsertDescends(r, rows[1..]);
      var tail := Insert(r, rows[1..]);
      forall i | 0 <= i < |tail| ensures Less(tail[i].key, rows[0].key) {
        InsertMembers(r, rows[1..], tail[i]);
        assert rows[0] in rows;
      }
    }
  }

  lemma {:induction false} SelectMembers<D>(table: seq<Row<D>>, want: Row<D> -> bool, x: Row<D>)
    ensures x in Select(table, want) <==> x in table && want(x)
  {
    if table != [] {
      assert table == [table[0]] + table[1..];
      SelectMembers(table[1..], want, x);
      InsertMembers(table[0], Select(table[1..], want), x);
    }
  }

  lemma {:induction false} SelectDescends<D>(table: seq<Row<D>>, want: Row<D> -> bool)
    requires Distinct(table)
    ensures Descends(Select(table, want))
  {
    if table != [] {
      SelectDescends(table[1..], want);
      if want(table[0]) {
        var rest := Select(table[1..], want);
        forall x | x in rest ensures x.key.id != table[0].key.id {
          SelectMembers(table[1..], want, x);
          var i :| 0 <= i < |table| - 1 && table[1..][i] == x;
          assert table[i + 1] == x;
        }
        InsertDescends(table[0], rest);
      }
    }
  }

  /** A strictly descending list is determined by its members. */
  lemma {:induction false} SameMembersSameList<D>(a: seq<Row<D>>, b: seq<Row<D>>)
    requires Descends(a) && Descends(b) && forall x :: x in a <==> x in b
    ensures a == b
    decreases |a|
  {
    if a == [] {
      assert forall i :: 0 <= i < |b| ==> b[i] in b;
    } else {
      assert a[0] in a && a[0] in b;
      assert b[0] in b && b[0] in a;
      assert a[0] == b[0];
      forall x ensures x in a[1..] <==> x in b[1..] {
        assert x in a <==> x == a[0] || x in a[1..];
        assert x in b <==> x == b[0] || x in b[1..];
      }
      SameMembersSameList(a[1..], b[1..]);
      assert a == [a[0]] + a[1..] && b == [b[0]] + b[1..];
    }
  }

  // ---- one page -----------------------------------------------------------------------

  const DEFAULT_PAGE_SIZE := 50
  const MAX_PAGE_SIZE := 200

  datatype Request = Request(cursor: string, pageSize: int)

  datatype Page<+D> = Page(rows: seq<Row<D>>, nextCursor: string, hasMore: bool)

  datatype Error = InvalidFrom | InvalidTo | InvalidCursor

  datatype Codec = Codec(encode: Key -> string, decode: string -> Option<Key>)

  /** What the cursor codec promises: a cursor is never empty, and decodes to the key it was made from. */
  ghost predicate RoundTrips(c: Codec) {
    forall k :: c.encode(k) != "" && c.decode(c.encode(k)) == Some(k)
  }

  function ClampPageSize(size: int): (n: nat)
    ensures 1 <= n <= MAX_PAGE_SIZE
  {
    if size <= 0 then DEFAULT_PAGE_SIZE else if size > MAX_PAGE_SIZE then MAX_PAGE_SIZE else size
  }

  function PageAfter<D>(c: Codec, table: seq<Row<D>>, want: Row<D> -> bool, after: Option<Key>, size: nat): Page<D>
    requires size >= 1
  {
    var got := Fetch(table, want, after, size + 1);
    if |got| > size then Page(got[..size], c.encode(got[size - 1].key), true) else Page(got, "", false)
  }

  function ListPage<D>(c: Codec, table: seq<Row<D>>, want: Row<D> -> bool, req: Request): Result<Page<D>, Error> {
    var size := ClampPageSize(req.pageSize);
    if req.cursor == "" then Ok(PageAfter(c, table, want, None, size))
    else
      match c.decode(req.cursor)
      case None => Err(InvalidCursor)
      case Some(k) => Ok(PageAfter(c, table, want, Some(k), size))
  }

  ghost predicate Wanted<D(!new)>(table: seq<Row<D>>, want: Row<D> -> bool, k: Key) {
    exists r :: r in table && want(r) && r.key == k
  }

  ghost predicate Listed<D>(rows: seq<Row<D>>, k: Key) { exists i :: 0 <= i < |rows| && rows[i].key == k }

  /** Every row a page is cut from is wanted and past the cursor, in descending order. */
  lemma SelectMeans<D(!new)>(table: seq<Row<D>>, want: Row<D> -> bool, after: Option<Key>)
    requires Distinct(table)
    ensures var all := Select(table, Past(want, after));
            Descends(all) && forall r :: r in all <==> r in table && want(r) && IsPast(r.key, after)
  {
    hide Select;
    var all := Select(table, Past(want, after));
    SelectDescends(table, Past(want, after));
    forall r ensures r in all <==> r in table && want(r) && IsPast(r.key, after) {
      SelectMembers(table, Past(want, after), r);
    }
  }

  /** A page said without sorting or limits: descending wanted rows past the cursor, full when more remain. */
  lemma PageMeans<D(!new)>(c: Codec, table: seq<Row<D>>, want: Row<D> -> bool, after: Option<Key>, size: nat)
    requires Distinct(table) && size >= 1
    ensures var p := PageAfter(c, table, want, after, size);
            && Descends(p.rows) && |p.rows| <= size
            && (forall r :: r in p.rows ==> r in table && want(r) && IsPast(r.key, after))
            && (p.hasMore ==> |p.rows| == size && p.nextCursor == c.encode(p.rows[size - 1].key))
  {
    hide Select, Less, IsPast;
    SelectMeans(table, want, after);
    var all, p := Select(table, Past(want, after)), PageAfter(c, table, want, after, size);
    assert p.rows == if |all| > size then all[..size] else all;
    forall r | r in p.rows ensures r in all {
      var i :| 0 <= i < |p.rows| && p.rows[i] == r;
      assert all[i] == r;
    }
  }

  /** The rows a page leaves out are all below its last row. */
  lemma LeftForLater<D(!new)>(
    c: Codec, table: seq<Row<D>>, want: Row<D> -> bool, after: Option<Key>, size: nat, r: Row<D>)
    requires Distinct(table) && size >= 1
    requires r in table && want(r) && IsPast(r.key, after)
    requires r !in PageAfter(c, table, want, after, size).rows
    ensures var p := PageAfter(c, table, want, after, size);
            p.hasMore && |p.rows| == size && Less(r.key, p.rows[size - 1].key)
  {
    hide Select, Less, IsPast;
    SelectMeans(table, want, after);
    var all, p := Select(table, Past(want, after)), PageAfter(c, table, want, after, size);
    assert p.rows == if |all| > size then all[..size] else all;
    var i :| 0 <= i < |all| && all[i] == r;
    assert forall j :: 0 <= j < |p.rows| ==> p.rows[j] == all[j] && p.rows[j] in p.rows;
  }

  /** A page says there are more exactly when some wanted row is past all of its rows. */
  lemma HasMoreMeans<D(!new)>(c: Codec, table: seq<Row<D>>, want: Row<D> -> bool, after: Option<Key>, size: nat)
    requires Distinct(table) && size >= 1
    ensures var p := PageAfter(c, table, want, after, size);
            p.hasMore <==>
            exists r :: r in table && want(r) && IsPast(r.key, after) && forall x :: x in p.rows ==> Less(r.key, x.key)
  {
    hide Select, Less, IsPast;
    SelectMeans(table, want, after);
    var all, p := Select(table, Past(want, after)), PageAfter(c, table, want, after, size);
    if p.hasMore {
      assert all[size] in all;
      forall x | x in p.rows ensures Less(all[size].key, x.key) {
        var i :| 0 <= i < size && p.rows[i] == x;
        assert all[i] == x;
      }
    } else {
      assert p.rows == all;
      forall r | r in all ensures exists x :: x in p.rows && !Less(r.key, x.key) {
        NotBelowItself(r.key);
        assert r in p.rows;
      }
    }
  }

  lemma NotBelowItself(k: Key)
    ensures !Less(k, k)
  {
  }

  /**
   * A page of a request, on the fields: newest first and among equal times the greatest id first, all strictly
   * below the cursor, 50 rows unless another number up to 200 is asked for, and a cursor for the last row
   * exactly when the page is full and there are more.
   */
  lemma PageExactly<D(!new)>(
    c: Codec, table: seq<Row<D>>, want: Row<D> -> bool, req: Request, i: nat, j: nat)
    requires Distinct(table) && ListPage(c, table, want, req).Ok?
    requires i < j < |ListPage(c, table, want, req).value.rows|
    ensures var p := ListPage(c, table, want, req).value; var a, b := p.rows[i].key, p.rows[j].key;
      && (a.at > b.at || (a.at == b.at && a.id > b.id))
      && (req.cursor != "" ==>
            var k := c.decode(req.cursor);
            k.Some? && (a.at < k.value.at || (a.at == k.value.at && a.id < k.value.id)))
  {
    hide PageAfter;
    var after := if req.cursor == "" then None else c.decode(req.cursor);
    PageMeans(c, table, want, after, ClampPageSize(req.pageSize));
    var p := ListPage(c, table, want, req).value;
    assert p.rows[i] in p.rows;
  }

  lemma PageSizeExactly<D(!new)>(c: Codec, table: seq<Row<D>>, want: Row<D> -> bool, req: Request)
    requires Distinct(table) && ListPage(c, table, want, req).Ok?
    ensures var p := ListPage(c, table, want, req).value;
      var size := if req.pageSize <= 0 then 50 else if req.pageSize > 200 then 200 else req.pageSize;
      && |p.rows| <= size
      && (p.hasMore ==> |p.rows| == size && p.nextCursor == c.encode(p.rows[size - 1].key))
      && (!p.hasMore ==> p.nextCursor == "")
  {
    hide Select;
  }

  // ---- following cursors --------------------------------------------------------------

  /** The pages got by following cursors, the i-th fetch reading the table as it was then. */
  function Walk<D>(c: Codec, tables: seq<seq<Row<D>>>, want: Row<D> -> bool, req: Request): (pages: seq<Page<D>>)
    ensures |pages| <= |tables|
    decreases |tables|
  {
    if tables == [] then []
    else
      match ListPage(c, tables[0], want, req)
      case Err(_) => []
      case Ok(p) =>
        [p] + if p.hasMore then Walk(c, tables[1..], want, Request(p.nextCursor, req.pageSize)) else []
  }

  function AllRows<D>(pages: seq<Page<D>>): seq<Row<D>> {
    if pages == [] then [] else pages[0].rows + AllRows(pages[1..])
  }

  ghost predicate Finished<D>(pages: seq<Page<D>>) { pages != [] && !pages[|pages| - 1].hasMore }

  ghost predicate Resolves(c: Codec, cursor: string, after: Option<Key>) {
    if cursor == "" then after == None else c.decode(cursor) == after && after.Some?
  }

  lemma LessTransitive(a: Key, b: Key, c: Key)
    requires Less(a, b) && Less(b, c)
    ensures Less(a, c)
  {
  }

  lemma StillPast(k: Key, last: Key, after: Option<Key>)
    requires Less(k, last) && IsPast(last, after)
    ensures IsPast(k, after)
  {
  }

  /** A page followed by rows strictly below its last row is one strictly descending list. */
  lemma JoinDescends<D>(a: seq<Row<D>>, b: seq<Row<D>>)
    requires Descends(a) && Descends(b)
    requires a != [] && forall x :: x in b ==> Less(x.key, a[|a| - 1].key)
    ensures Descends(a + b)
  {
    var s := a + b;
    forall i, j | 0 <= i < j < |s| ensures Less(s[j].key, s[i].key) {
      if i < |a| <= j {
        assert s[j] in b;
        if i < |a| - 1 { LessTransitive(s[j].key, a[|a| - 1].key, a[i].key); }
      }
    }
  }

  /** The first step of a walk: the page, and the walk that follows it from its last row. */
  lemma FirstStep<D(!new)>(c: Codec, tables: seq<seq<Row<D>>>, want: Row<D> -> bool, req: Request, after: Option<Key>)
    returns (p: Page<D>, next: Request, below: Option<Key>)
    requires RoundTrips(c) && Resolves(c, req.cursor, after) && tables != [] && Distinct(tables[0])
    ensures p == PageAfter(c, tables[0], want, after, ClampPageSize(req.pageSize))
    ensures next == Request(p.nextCursor, req.pageSize)
    ensures Walk(c, tables, want, req) == [p] + if p.hasMore then Walk(c, tables[1..], want, next) else []
    ensures p.hasMore ==> p.rows != [] && below == Some(p.rows[|p.rows| - 1].key) && Resolves(c, next.cursor, below)
    ensures p.hasMore ==> p.rows[|p.rows| - 1] in p.rows
  {
    hide PageAfter, Less, IsPast, Descends, Distinct, ClampPageSize;
    p := PageAfter(c, tables[0], want, after, ClampPageSize(req.pageSize));
    next := Request(p.nextCursor, req.pageSize);
    below := if p.hasMore && p.rows != [] then Some(p.rows[|p.rows| - 1].key) else None;
    PageMeans(c, tables[0], want, after, ClampPageSize(req.pageSize));
  }

  /**
   * Whatever is inserted, updated or deleted between fetches, the rows come out in strictly
   * descending order, so no key comes twice.
   */
  lemma {:induction false} WalkDescends<D(!new)>(
    c: Codec, tables: seq<seq<Row<D>>>, want: Row<D> -> bool, req: Request, after: Option<Key>)
    requires RoundTrips(c) && Resolves(c, req.cursor, after)
    requires forall i :: 0 <= i < |tables| ==> Distinct(tables[i])
    ensures Descends(AllRows(Walk(c, tables, want, req)))
    ensures forall r :: r in AllRows(Walk(c, tables, want, req)) ==> IsPast(r.key, after)
    decreases |tables|
  {
    hide PageAfter, ListPage, Less, IsPast, Walk, RoundTrips;
    if tables == [] {
      assert Walk(c, tables, want, req) == [];
    } else {
      var p, next, below := FirstStep(c, tables, want, req, after);
      var pages := Walk(c, tables, want, req);
      PageMeans(c, tables[0], want, after, ClampPageSize(req.pageSize));
      if p.hasMore {
        var later := Walk(c, tables[1..], want, next);
        WalkDescends(c, tables[1..], want, next, below);
        assert pages[1..] == later;
        var last := p.rows[|p.rows| - 1];
        forall r | r in AllRows(later) ensures Less(r.key, last.key) && IsPast(r.key, after) {
          BelowMeansLess(r.key, last.key);
          StillPast(r.key, last.key, after);
        }
        JoinDescends(p.rows, AllRows(later));
      } else {
        assert pages == [p] && AllRows(pages) == p.rows + AllRows([]);
      }
    }
  }

  /** Each row comes as its own fetch's table had it. */
  lemma {:induction false} WalkShowsTables<D(!new)>(
    c: Codec, tables: seq<seq<Row<D>>>, want: Row<D> -> bool, req: Request, after: Option<Key>, i: nat, r: Row<D>)
    requires RoundTrips(c) && Resolves(c, req.cursor, after)
    requires forall i :: 0 <= i < |tables| ==> Distinct(tables[i])
    requires i < |Walk(c, tables, want, req)| && r in Walk(c, tables, want, req)[i].rows
    ensures r in tables[i] && want(r)
    decreases |tables|
  {
    hide PageAfter, ListPage, Less, IsPast, Walk, RoundTrips;
    assert tables != [];
    var p, next, below := FirstStep(c, tables, want, req, after);
    PageMeans(c, tables[0], want, after, ClampPageSize(req.pageSize));
    if i > 0 { WalkShowsTables(c, tables[1..], want, next, below, i - 1, r); }
  }

  lemma BelowMeansLess(k: Key, last: Key)
    ensures IsPast(k, Some(last)) <==> Less(k, last)
  {
  }

  /** A finished walk listed every key that was there, and wanted, at every fetch. */
  lemma {:induction false} WalkComplete<D(!new)>(
    c: Codec, tables: seq<seq<Row<D>>>, want: Row<D> -> bool, req: Request, after: Option<Key>, k: Key)
    requires RoundTrips(c) && Resolves(c, req.cursor, after) && IsPast(k, after)
    requires forall i :: 0 <= i < |tables| ==> Distinct(tables[i])
    requires Finished(Walk(c, tables, want, req))
    requires forall i :: 0 <= i < |Walk(c, tables, want, req)| ==> Wanted(tables[i], want, k)
    ensures Listed(AllRows(Walk(c, tables, want, req)), k)
    decreases |tables|
  {
    hide PageAfter, ListPage, Less, IsPast, Walk, RoundTrips;
    assert tables != [];
    var p, next, below := FirstStep(c, tables, want, req, after);
    var pages := Walk(c, tables, want, req);
    assert Wanted(tables[0], want, k);
    var r :| r in tables[0] && want(r) && r.key == k;
    if r in p.rows {
      var i :| 0 <= i < |p.rows| && p.rows[i] == r;
      assert AllRows(pages)[i].key == k;
    } else {
      LeftForLater(c, tables[0], want, after, ClampPageSize(req.pageSize), r);
      var later := Walk(c, tables[1..], want, next);
      assert pages[1..] == later && pages == [p] + later;
      BelowMeansLess(k, p.rows[|p.rows| - 1].key);
      forall i | 0 <= i < |later| ensures Wanted(tables[1..][i], want, k) {
        assert tables[1..][i] == tables[i + 1];
      }
      WalkComplete(c, tables[1..], want, next, below, k);
      var i :| 0 <= i < |AllRows(later)| && AllRows(later)[i].key == k;
      assert AllRows(pages)[|p.rows| + i].key == k;
    }
  }

  // ---- a table that stays as it is ----------------------------------------------------

  ghost predicate Fixed<D>(tables: seq<seq<Row<D>>>, table: seq<Row<D>>) {
    forall i :: 0 <= i < |tables| ==> tables[i] == table
  }

  /** What is past a page's last row is what the page left of the listing. */
  lemma RestOfListing<D(!new)>(table: seq<Row<D>>, want: Row<D> -> bool, after: Option<Key>, n: nat)
    requires Distinct(table) && 1 <= n <= |Select(table, Past(want, after))|
    ensures var all := Select(table, Past(want, after));
            Select(table, Past(want, Some(all[n - 1].key))) == all[n..]
  {
    hide Select, IsPast;
    var all := Select(table, Past(want, after));
    var last := all[n - 1];
    var rest := Select(table, Past(want, Some(last.key)));
    SelectDescends(table, Past(want, after));
    SelectDescends(table, Past(want, Some(last.key)));
    forall x ensures x in rest <==> x in all[n..] {
      SelectMembers(table, Past(want, after), x);
      SelectMembers(table, Past(want, Some(last.key)), x);
      SelectMembers(table, Past(want, after), last);
      BelowMeansLess(x.key, last.key);
      if x in rest {
        StillPast(x.key, last.key, after);
        var i :| 0 <= i < |all| && all[i] == x;
        assert i >= n by {
          if i < n - 1 { LessTransitive(x.key, last.key, x.key); NotBelowItself(x.key); }
          if i == n - 1 { NotBelowItself(x.key); }
        }
        assert x == all[n..][i - n];
      }
    }
    SameMembersSameList(rest, all[n..]);
  }

  lemma OnePage<D>(c: Codec, table: seq<Row<D>>, want: Row<D> -> bool, after: Option<Key>, size: nat)
    requires size >= 1
    ensures var p, all := PageAfter(c, table, want, after, size), Select(table, Past(want, after));
            p.hasMore == (|all| > size) && p.rows == if |all| > size then all[..size] else all
  {
    hide Select;
  }

  /** How many pages of `size` hold `n` rows: one even when there are none. */
  ghost predicate Fills(pages: nat, n: nat, size: nat) {
    pages * size >= n && (pages == 1 || (pages > 1 && (pages - 1) * size < n))
  }

  lemma OnePageFills(n: nat, size: nat)
    requires n <= size
    ensures Fills(1, n, size)
  {
  }

  lemma FillsMore(pages: nat, n: nat, size: nat)
    requires n > size && Fills(pages, n - size, size)
    ensures Fills(pages + 1, n, size)
  {
    assert (pages + 1) * size == pages * size + size;
    assert pages > 1 ==> pages * size == (pages - 1) * size + size;
  }

  lemma OneTableLess(tables: nat, n: nat, size: nat)
    requires tables >= 1 && tables * size >= n > size
    ensures tables > 1 && (tables - 1) * size >= n - size
  {
    assert tables * size == (tables - 1) * size + size;
  }

  /**
   * On a table that does not change the walk ends, after as many pages as the listing fills,
   * and returns the listing itself.
   */
  lemma {:induction false} WalkIsListing<D(!new)>(
    c: Codec, tables: seq<seq<Row<D>>>, table: seq<Row<D>>, want: Row<D> -> bool, req: Request, after: Option<Key>)
    requires RoundTrips(c) && Resolves(c, req.cursor, after)
    requires Distinct(table) && Fixed(tables, table)
    requires |tables| * ClampPageSize(req.pageSize) >= |Select(table, Past(want, after))| && tables != []
    ensures Finished(Walk(c, tables, want, req))
    ensures AllRows(Walk(c, tables, want, req)) == Select(table, Past(want, after))
    ensures Fills(|Walk(c, tables, want, req)|, |Select(table, Past(want, after))|, ClampPageSize(req.pageSize))
    decreases |tables|
  {
    hide Select, ListPage, PageAfter, Less, IsPast, Walk, ClampPageSize, RoundTrips;
    hide Fills, Distinct, Past, Resolves, Finished;
    var size := ClampPageSize(req.pageSize);
    var all := Select(table, Past(want, after));
    assert tables[0] == table;
    var p, next, below := FirstStep(c, tables, want, req, after);
    OnePage(c, table, want, after, size);
    if p.hasMore {
      RestOfListing(table, want, after, size);
      OneTableLess(|tables|, |all|, size);
      FixedTail(tables, table);
      assert tables[1..] != [];
      WalkIsListing(c, tables[1..], table, want, next, below);
      var later := Walk(c, tables[1..], want, next);
      JoinPages(p, later);
      FillsMore(|later|, |all|, size);
    } else {
      LonePage(p);
      OnePageFills(|all|, size);
    }
  }

  lemma JoinPages<D>(p: Page<D>, later: seq<Page<D>>)
    ensures AllRows([p] + later) == p.rows + AllRows(later)
    ensures Finished(later) ==> Finished([p] + later)
  {
    assert ([p] + later)[1..] == later;
  }

  lemma LonePage<D>(p: Page<D>)
    requires !p.hasMore
    ensures [p] + [] == [p] && AllRows([p]) == p.rows && Finished([p])
  {
    JoinPages(p, []);
    assert [p] + [] == [p] && p.rows + AllRows([]) == p.rows;
  }

  lemma FixedTail<D>(tables: seq<seq<Row<D>>>, table: seq<Row<D>>)
    requires Fixed(tables, table) && tables != []
    ensures Fixed(tables[1..], table)
  {
  }
}
