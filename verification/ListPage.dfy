/** Keyset paging: pages fetched with `limit + 1` rows, continued after the last row of the page before. */
module ListPage {
  import opened Text

  const DEFAULT_LIST_LIMIT: nat := 100
  const DEFAULT_MAX_LIST_LIMIT: nat := 1000

  function EffectiveLimit(limit: Option<nat>): nat {
    var n := if limit.Some? then limit.value else DEFAULT_LIST_LIMIT;
    if n < DEFAULT_MAX_LIST_LIMIT then n else DEFAULT_MAX_LIST_LIMIT
  }

  method SplitListPage<T, C>(rows: seq<T>, limit: nat, cursor: T -> C) returns (page: seq<T>, next: Option<C>)
    ensures page == PageOf(rows, limit) && next == CursorOf(rows, limit, cursor)
  {
    page := rows;
    if |page| > limit {
      page := page[..limit];
      next := if page == [] then None else Some(cursor(Last(page)));
    } else {
      next := None;
    }
  }

  function PageOf<T>(rows: seq<T>, limit: nat): seq<T> {
    if |rows| > limit then rows[..limit] else rows
  }

  /** The extra row only says that there is more; the cursor names the last row of the page. */
  function CursorOf<T, C>(rows: seq<T>, limit: nat, cursor: T -> C): Option<C> {
    if |rows| > limit && limit > 0 then Some(cursor(rows[limit - 1])) else None
  }

  // ---- Fetching

  /** What a listing is sorted by: the column, and how the database compares it. */
  datatype Order<!T, !K> = Order(key: T -> K, less: (K, K) -> bool)

  ghost predicate IsStrictTotal<K(!new)>(less: (K, K) -> bool) {
    && (forall a :: !less(a, a))
    && (forall a, b, c :: less(a, b) && less(b, c) ==> less(a, c))
    && (forall a, b :: less(a, b) || a == b || less(b, a))
  }

  predicate IsAscending<T, K>(order: Order<T, K>, rows: seq<T>) {
    forall i, j | 0 <= i < j < |rows| :: order.less(order.key(rows[i]), order.key(rows[j]))
  }

  predicate IsAfter<T, K>(order: Order<T, K>, cursor: Option<K>, row: T) {
    cursor.None? || order.less(cursor.value, order.key(row))
  }

  /** The rows of an ordered table beyond the cursor. */
  function Beyond<T, K>(order: Order<T, K>, table: seq<T>, cursor: Option<K>): seq<T> {
    if table == [] then []
    else if IsAfter(order, cursor, table[0]) then table
    else Beyond(order, table[1..], cursor)
  }

  function Fetched<T, K>(order: Order<T, K>, table: seq<T>, cursor: Option<K>, limit: nat): seq<T> {
    var rows := Beyond(order, table, cursor);
    if |rows| > limit + 1 then rows[..limit + 1] else rows
  }

  lemma {:induction false} BeyondIsAscending<T, K>(order: Order<T, K>, table: seq<T>, cursor: Option<K>)
    requires IsAscending(order, table)
    ensures IsAscending(order, Beyond(order, table, cursor))
  {
    if table != [] && !IsAfter(order, cursor, table[0]) {
      BeyondIsAscending(order, table[1..], cursor);
    }
  }

  /** For an ordered table, skipping up to the cursor is filtering by it. */
  lemma {:induction false} BeyondIsFilter<T, K(!new)>(order: Order<T, K>, table: seq<T>, cursor: Option<K>, x: T)
    requires IsStrictTotal(order.less) && IsAscending(order, table)
    ensures x in Beyond(order, table, cursor) <==> x in table && IsAfter(order, cursor, x)
  {
    if table != [] {
      if IsAfter(order, cursor, table[0]) {
        if x in table {
          var i :| 0 <= i < |table| && table[i] == x;
          assert i > 0 ==> order.less(order.key(table[0]), order.key(x));
        }
      } else {
        BeyondIsFilter(order, table[1..], cursor, x);
        assert x in table <==> x == table[0] || x in table[1..];
      }
    }
  }

  lemma PageOfFetched<T, K>(order: Order<T, K>, table: seq<T>, cursor: Option<K>, limit: nat)
    ensures var rows := Beyond(order, table, cursor);
            && PageOf(Fetched(order, table, cursor, limit), limit) == PageOf(rows, limit)
            && CursorOf(Fetched(order, table, cursor, limit), limit, order.key) == CursorOf(rows, limit, order.key)
  {
    var rows := Beyond(order, table, cursor);
    if |rows| > limit + 1 {
      assert rows[..limit + 1][..limit] == rows[..limit];
    }
  }

  // ---- Following the cursor while the table changes

  datatype Listing<T> = Listing(rows: seq<T>, complete: bool)

  /** One fetch per table: what the table holds when that page is asked for. */
  function Follow<T, K>(order: Order<T, K>, tables: seq<seq<T>>, cursor: Option<K>, limit: nat): Listing<T> {
    if tables == [] then Listing([], false)
    else
      var rows := Fetched(order, tables[0], cursor, limit);
      var page, next := PageOf(rows, limit), CursorOf(rows, limit, order.key);
      if next.None? then Listing(page, true)
      else
        var rest := Follow(order, tables[1..], next, limit);
        Listing(page + rest.rows, rest.complete)
  }

  ghost predicate AreAfter<T, K>(order: Order<T, K>, cursor: Option<K>, rows: seq<T>) {
    forall i | 0 <= i < |rows| :: IsAfter(order, cursor, rows[i])
  }

  /** The page up to its last row, then rows beyond that row. */
  lemma JoinAscending<T, K(!new)>(order: Order<T, K>, page: seq<T>, rest: seq<T>)
    requires IsStrictTotal(order.less) && page != []
    requires IsAscending(order, page) && IsAscending(order, rest)
    requires AreAfter(order, Some(order.key(Last(page))), rest)
    ensures IsAscending(order, page + rest)
  {
    var last := order.key(Last(page));
    forall i, j | 0 <= i < |page| && 0 <= j < |rest|
      ensures order.less(order.key(page[i]), order.key(rest[j]))
    {
      assert IsAfter(order, Some(last), rest[j]);
      assert i < |page| - 1 ==> order.less(order.key(page[i]), last);
    }
  }

  lemma JoinAfter<T, K(!new)>(order: Order<T, K>, cursor: Option<K>, page: seq<T>, rest: seq<T>)
    requires IsStrictTotal(order.less) && page != []
    requires AreAfter(order, cursor, page) && AreAfter(order, Some(order.key(Last(page))), rest)
    ensures AreAfter(order, cursor, page + rest)
  {
    assert IsAfter(order, cursor, page[|page| - 1]);
    forall j | 0 <= j < |rest|
      ensures IsAfter(order, cursor, rest[j])
    {
      assert IsAfter(order, Some(order.key(Last(page))), rest[j]);
    }
  }

  /** Whatever happens to the table between pages, rows come in order and none comes twice. */
  lemma {:induction false} FollowIsAscending<T, K(!new)>(order: Order<T, K>, tables: seq<seq<T>>, cursor: Option<K>,
                                                         limit: nat)
    requires IsStrictTotal(order.less)
    requires forall i | 0 <= i < |tables| :: IsAscending(order, tables[i])
    ensures IsAscending(order, Follow(order, tables, cursor, limit).rows)
    ensures AreAfter(order, cursor, Follow(order, tables, cursor, limit).rows)
    decreases |tables|
  {
    if tables != [] {
      var rows := Beyond(order, tables[0], cursor);
      PageOfFetched(order, tables[0], cursor, limit);
      var page, next := PageOf(rows, limit), CursorOf(rows, limit, order.key);
      PageIsAscending(order, tables[0], cursor, limit);
      if next.Some? {
        var rest := Follow(order, tables[1..], next, limit).rows;
        FollowIsAscending(order, tables[1..], next, limit);
        JoinAscending(order, page, rest);
        JoinAfter(order, cursor, page, rest);
      }
    }
  }

  lemma PageIsAscending<T, K(!new)>(order: Order<T, K>, table: seq<T>, cursor: Option<K>, limit: nat)
    requires IsStrictTotal(order.less) && IsAscending(order, table)
    ensures var page := PageOf(Beyond(order, table, cursor), limit);
            IsAscending(order, page) && AreAfter(order, cursor, page)
  {
    var rows := Beyond(order, table, cursor);
    BeyondIsAscending(order, table, cursor);
    forall i | 0 <= i < |rows|
      ensures IsAfter(order, cursor, rows[i])
    {
      BeyondIsFilter(order, table, cursor, rows[i]);
    }
  }

  /** A row that stays in the table for the whole listing is delivered. */
  lemma {:induction false} FollowDeliversStableRows<T, K(!new)>(order: Order<T, K>, tables: seq<seq<T>>,
                                                                cursor: Option<K>, limit: nat, x: T)
    requires IsStrictTotal(order.less) && limit >= 1
    requires forall i | 0 <= i < |tables| :: IsAscending(order, tables[i]) && x in tables[i]
    requires IsAfter(order, cursor, x) && Follow(order, tables, cursor, limit).complete
    ensures x in Follow(order, tables, cursor, limit).rows
    decreases |tables|
  {
    var rows := Beyond(order, tables[0], cursor);
    BeyondIsAscending(order, tables[0], cursor);
    BeyondIsFilter(order, tables[0], cursor, x);
    PageOfFetched(order, tables[0], cursor, limit);
    var page, next := PageOf(rows, limit), CursorOf(rows, limit, order.key);
    var k :| 0 <= k < |rows| && rows[k] == x;
    if next.Some? {
      if k < limit {
        assert page[k] == x;
      } else {
        FollowDeliversStableRows(order, tables[1..], next, limit, x);
      }
    }
  }

  // ---- A table that does not change

  function Repeat<T>(table: T, n: nat): (tables: seq<T>)
    ensures |tables| == n && forall i | 0 <= i < n :: tables[i] == table
  {
    seq(n, _ => table)
  }

  lemma {:induction false} BeyondNext<T, K(!new)>(order: Order<T, K>, table: seq<T>, cursor: Option<K>, limit: nat)
    requires IsStrictTotal(order.less) && IsAscending(order, table)
    requires 0 < limit < |Beyond(order, table, cursor)|
    ensures var rows := Beyond(order, table, cursor);
            Beyond(order, table, Some(order.key(rows[limit - 1]))) == rows[limit..]
    decreases |table|
  {
    var rows := Beyond(order, table, cursor);
    if IsAfter(order, cursor, table[0]) {
      SkipRows(order, table, limit);
    } else {
      BeyondNext(order, table[1..], cursor, limit);
      var last := rows[limit - 1];
      BeyondIsFilter(order, table[1..], cursor, last);
      assert last in table[1..];
      assert order.less(order.key(table[0]), order.key(last));
    }
  }

  lemma {:induction false} SkipRows<T, K(!new)>(order: Order<T, K>, table: seq<T>, n: nat)
    requires IsStrictTotal(order.less) && IsAscending(order, table) && 0 < n < |table|
    ensures Beyond(order, table, Some(order.key(table[n - 1]))) == table[n..]
    decreases n
  {
    var cursor := Some(order.key(table[n - 1]));
    assert !IsAfter(order, cursor, table[0]);
    if n > 1 {
      SkipRows(order, table[1..], n - 1);
      assert table[1..][n - 1..] == table[n..];
    } else {
      assert IsAfter(order, cursor, table[1]);
    }
  }

  /** Pages of an unchanged table join to exactly the rows beyond the cursor, within as many fetches as rows. */
  lemma {:induction false} FollowCoversTable<T, K(!new)>(order: Order<T, K>, table: seq<T>, cursor: Option<K>,
                                                         limit: nat, n: nat)
    requires IsStrictTotal(order.less) && IsAscending(order, table) && limit >= 1
    requires n >= |Beyond(order, table, cursor)| + 1
    ensures Follow(order, Repeat(table, n), cursor, limit) == Listing(Beyond(order, table, cursor), true)
    decreases n
  {
    var tables, rows := Repeat(table, n), Beyond(order, table, cursor);
    PageOfFetched(order, table, cursor, limit);
    if |rows| > limit {
      BeyondNext(order, table, cursor, limit);
      assert tables[1..] == Repeat(table, n - 1);
      FollowCoversTable(order, table, Some(order.key(rows[limit - 1])), limit, n - 1);
      assert rows == rows[..limit] + rows[limit..];
    }
  }

  /** Listing to the end yields the whole table exactly when the limit is not an explicit zero, or there is nothing. */
  lemma ListingIsWholeIff<T, K(!new)>(order: Order<T, K>, table: seq<T>, limit: Option<nat>)
    requires IsStrictTotal(order.less) && IsAscending(order, table)
    ensures Follow(order, Repeat(table, |table| + 1), None, EffectiveLimit(limit)) == Listing(table, true) <==>
            limit != Some(0) || table == []
  {
    assert Beyond(order, table, None) == table;
    if EffectiveLimit(limit) >= 1 {
      FollowCoversTable(order, table, None, EffectiveLimit(limit), |table| + 1);
    } else {
      PageOfFetched(order, table, None, 0);
    }
  }

  /** The first page: all rows, or 100 of them, or as many as asked for, but never more than 1000. */
  lemma FirstPageSize<T, K>(order: Order<T, K>, table: seq<T>, limit: Option<nat>)
    ensures var size := |PageOf(Fetched(order, table, None, EffectiveLimit(limit)), EffectiveLimit(limit))|;
            var asked := if limit.None? then 100 else limit.value;
            && size <= |table| && size <= asked && size <= 1000
            && (size == |table| || size == asked || size == 1000)
  {
    PageOfFetched(order, table, None, EffectiveLimit(limit));
    assert Beyond(order, table, None) == table;
  }
}
