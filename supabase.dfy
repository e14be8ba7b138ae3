/**
 * The deduplicating store of trend items (src/trend_sieve/storage/supabase.py).
 * The remote `trend_items` table is a map keyed by (source, source id); each
 * row holds the item's mutable fields and the first and last time it was
 * seen. The wall clock is an integer count of seconds passed in by the caller.
 */
module Supabase {
  import opened Basics
  import opened Models
  import opened Seqs

  /** One row of the table: the item's stored fields and its two timestamps. */
  datatype Row = Row(item: TrendItem, firstSeenAt: int, lastSeenAt: int)

  type Table = map<Key, Row>

  /** Every row is filed under the key of the item it holds. */
  ghost predicate WellKeyed(t: Table) {
    forall k | k in t :: KeyOf(t[k].item) == k
  }

  /** The keys of a batch of items. */
  function KeysOf(items: seq<TrendItem>): set<Key> {
    set x | x in items :: KeyOf(x)
  }

  lemma KeysOfAppend(a: seq<TrendItem>, b: seq<TrendItem>)
    ensures KeysOf(a + b) == KeysOf(a) + KeysOf(b)
  {
    forall k | k in KeysOf(a + b) ensures k in KeysOf(a) + KeysOf(b) {
      var x :| x in a + b && KeyOf(x) == k;
    }
    forall k | k in KeysOf(a) + KeysOf(b) ensures k in KeysOf(a + b) {
      if k in KeysOf(a) {
        var x :| x in a && KeyOf(x) == k;
        assert x in a + b;
      } else {
        var x :| x in b && KeyOf(x) == k;
        assert x in a + b;
      }
    }
  }

  /**
   * One step of the upsert loop on the table: the item's row is written with
   * `lastSeenAt` set to the batch time, keeping `firstSeenAt` of an existing
   * row and setting it to the batch time for a new one.
   */
  function Upsert1(t: Table, item: TrendItem, now: int): (r: Table)
    ensures r.Keys == t.Keys + {KeyOf(item)}
    ensures r[KeyOf(item)].item == item && r[KeyOf(item)].lastSeenAt == now
    ensures KeyOf(item) in t ==> r[KeyOf(item)].firstSeenAt == t[KeyOf(item)].firstSeenAt
    ensures KeyOf(item) !in t ==> r[KeyOf(item)].firstSeenAt == now
    ensures forall k | k in t && k != KeyOf(item) :: r[k] == t[k]
  {
    var k := KeyOf(item);
    t[k := Row(item, if k in t then t[k].firstSeenAt else now, now)]
  }

  /** The table after a whole batch: the items upserted one after the other, in batch order. */
  function Upserted(t: Table, items: seq<TrendItem>, now: int): (r: Table)
    ensures r.Keys == t.Keys + KeysOf(items)
  {
    if items == [] then t
    else
      var init := items[..|items| - 1];
      var last := items[|items| - 1];
      KeysOfAppend(init, [last]);
      assert init + [last] == items;
      Upsert1(Upserted(t, init, now), last, now)
  }

  /** Rows of keys outside the batch are left exactly as they were; no row is deleted. */
  lemma {:induction false} UpsertedUntouched(t: Table, items: seq<TrendItem>, now: int)
    ensures t.Keys <= Upserted(t, items, now).Keys
    ensures forall k | k in t && k !in KeysOf(items) :: Upserted(t, items, now)[k] == t[k]
  {
    if items != [] {
      var init := items[..|items| - 1];
      var last := items[|items| - 1];
      assert init + [last] == items;
      KeysOfAppend(init, [last]);
      UpsertedUntouched(t, init, now);
    }
  }

  /**
   * The timestamps after a batch: a row that existed keeps its first-seen
   * time, a created row was first seen at `now`, and every batch key was last
   * seen at `now`.
   */
  lemma {:induction false} UpsertedTimes(t: Table, items: seq<TrendItem>, now: int)
    ensures forall k | k in t :: Upserted(t, items, now)[k].firstSeenAt == t[k].firstSeenAt
    ensures forall k | k in Upserted(t, items, now) && k !in t :: Upserted(t, items, now)[k].firstSeenAt == now
    ensures forall k | k in KeysOf(items) :: Upserted(t, items, now)[k].lastSeenAt == now
  {
    if items != [] {
      var init := items[..|items| - 1];
      var last := items[|items| - 1];
      assert init + [last] == items;
      KeysOfAppend(init, [last]);
      UpsertedTimes(t, init, now);
    }
  }

  /** Every row stays filed under the key of the item it holds. */
  lemma {:induction false} UpsertedWellKeyed(t: Table, items: seq<TrendItem>, now: int)
    requires WellKeyed(t)
    ensures WellKeyed(Upserted(t, items, now))
  {
    if items != [] {
      UpsertedWellKeyed(t, items[..|items| - 1], now);
    }
  }

  /**
   * The items of a batch reported as new when the table already holds the
   * keys `seen`: those whose key was absent when they were processed, that is
   * neither in `seen` nor carried by an earlier item of the batch. They come
   * in batch order, each key at most once, and they cover every key of the
   * batch that was not seen.
   */
  function Novel(seen: set<Key>, items: seq<TrendItem>): (r: seq<TrendItem>)
    ensures |r| <= |items|
    ensures forall x | x in r :: x in items && KeyOf(x) !in seen
    ensures KeysOf(r) == KeysOf(items) - seen
    ensures KeysOf(items) <= seen ==> r == []
  {
    if items == [] then []
    else
      var init := items[..|items| - 1];
      var last := items[|items| - 1];
      var isNew := KeyOf(last) !in seen && KeyOf(last) !in KeysOf(init);
      var rest := Novel(seen, init);
      KeysOfAppend(init, [last]);
      SplitLast(items);
      assert KeysOf([last]) == {KeyOf(last)};
      var r := rest + (if isNew then [last] else []);
      KeysOfAppend(rest, if isNew then [last] else []);
      assert forall x | x in rest :: x in init;
      r
  }

  /** No key is reported new twice, however often it occurs in the batch. */
  lemma {:induction false} NovelDistinctKeys(seen: set<Key>, items: seq<TrendItem>)
    ensures var r := Novel(seen, items);
      forall i, j | 0 <= i < j < |r| :: KeyOf(r[i]) != KeyOf(r[j])
  {
    if items != [] {
      var init := items[..|items| - 1];
      var last := items[|items| - 1];
      NovelDistinctKeys(seen, init);
      SplitLast(items);
      NovelSnoc(seen, init, last);
      if KeyOf(last) !in seen && KeyOf(last) !in KeysOf(init) {
        DistinctSnoc(Novel(seen, init), last);
      }
    }
  }


  /** Appending an item whose key is not yet present keeps the keys distinct. */
  lemma DistinctSnoc(rest: seq<TrendItem>, x: TrendItem)
    requires forall i, j | 0 <= i < j < |rest| :: KeyOf(rest[i]) != KeyOf(rest[j])
    requires KeyOf(x) !in KeysOf(rest)
    ensures forall i, j | 0 <= i < j < |rest + [x]| :: KeyOf((rest + [x])[i]) != KeyOf((rest + [x])[j])
  {
    forall i, j | 0 <= i < j < |rest + [x]|
      ensures KeyOf((rest + [x])[i]) != KeyOf((rest + [x])[j])
    {
      assert (rest + [x])[i] == rest[i] && rest[i] in rest;
    }
  }

  /** Upserting two batches one after the other is upserting their concatenation. */
  lemma {:induction false} UpsertedAppend(t: Table, a: seq<TrendItem>, b: seq<TrendItem>, now: int)
    ensures Upserted(t, a + b, now) == Upserted(Upserted(t, a, now), b, now)
    decreases |b|
  {
    if b == [] {
      assert a + b == a;
    } else {
      var init := b[..|b| - 1];
      assert (a + b)[..|a + b| - 1] == a + init;
      assert (a + b)[|a + b| - 1] == b[|b| - 1];
      UpsertedAppend(t, a, init, now);
    }
  }

  /**
   * Novelty of a concatenation: the new items of the first part, then the new
   * items of the second part measured against what the first part added.
   */
  lemma {:induction false} NovelAppend(seen: set<Key>, a: seq<TrendItem>, b: seq<TrendItem>)
    ensures Novel(seen, a + b) == Novel(seen, a) + Novel(seen + KeysOf(a), b)
    decreases |b|
  {
    if b == [] {
      assert a + b == a;
    } else {
      var init := b[..|b| - 1];
      var last := b[|b| - 1];
      assert a + b == (a + init) + [last];
      assert b == init + [last];
      var front := Novel(seen, a);
      var middle := Novel(seen + KeysOf(a), init);
      NovelAppend(seen, a, init);
      NewKeyShift(seen, a, init, KeyOf(last));
      var tail := if KeyOf(last) !in seen + KeysOf(a) && KeyOf(last) !in KeysOf(init) then [last] else [];
      calc {
        Novel(seen, a + b);
        { NovelSnoc(seen, a + init, last); }
        Novel(seen, a + init) + tail;
        front + middle + tail;
        { ConcatAssoc(front, middle, tail); }
        front + (middle + tail);
        { NovelSnoc(seen + KeysOf(a), init, last); }
        front + Novel(seen + KeysOf(a), b);
      }
    }
  }


  /** A key is new after `a + init` against `seen` exactly when it is new after `init` against `seen` and `a`'s keys. */
  lemma NewKeyShift(seen: set<Key>, a: seq<TrendItem>, init: seq<TrendItem>, k: Key)
    ensures (k !in seen && k !in KeysOf(a + init)) == (k !in seen + KeysOf(a) && k !in KeysOf(init))
  {
    KeysOfAppend(a, init);
  }


  /** Upserting one more item is upserting it into the table the earlier items produced. */
  lemma UpsertedSnoc(t: Table, items: seq<TrendItem>, x: TrendItem, now: int)
    ensures Upserted(t, items + [x], now) == Upsert1(Upserted(t, items, now), x, now)
  {
    assert (items + [x])[..|items|] == items;
  }

  lemma Upsert1WellKeyed(t: Table, x: TrendItem, now: int)
    requires WellKeyed(t)
    ensures WellKeyed(Upsert1(t, x, now))
  {
  }

  /** One more item is new exactly when its key is neither seen nor carried by an earlier item. */
  lemma NovelSnoc(seen: set<Key>, items: seq<TrendItem>, x: TrendItem)
    ensures Novel(seen, items + [x])
         == Novel(seen, items) + (if KeyOf(x) !in seen && KeyOf(x) !in KeysOf(items) then [x] else [])
  {
    assert (items + [x])[..|items|] == items;
  }

  /** The position of the last item of the batch with key `k`, or -1 when there is none. */
  function LastIndexOf(items: seq<TrendItem>, k: Key): (i: int)
    ensures -1 <= i < |items|
    ensures i >= 0 ==> KeyOf(items[i]) == k
    ensures forall j | i < j < |items| :: KeyOf(items[j]) != k
  {
    if items == [] then -1
    else if KeyOf(items[|items| - 1]) == k then |items| - 1
    else LastIndexOf(items[..|items| - 1], k)
  }

  /**
   * The row of a batch key after the upsert holds the last item of the batch
   * with that key: later items overwrite earlier ones.
   */
  lemma {:induction false} UpsertedHoldsLastOccurrence(t: Table, items: seq<TrendItem>, now: int, k: Key)
    requires k in KeysOf(items)
    ensures LastIndexOf(items, k) >= 0
    ensures Upserted(t, items, now)[k].item == items[LastIndexOf(items, k)]
  {
    var init := items[..|items| - 1];
    var last := items[|items| - 1];
    assert init + [last] == items;
    KeysOfAppend(init, [last]);
    if KeyOf(last) != k {
      assert k in KeysOf(init);
      UpsertedHoldsLastOccurrence(t, init, now, k);
    }
  }

  /**
   * A second upsert of the same batch reports nothing new, keeps every key and
   * every first-seen time, and only moves the last-seen times forward.
   */
  lemma SecondUpsertIsQuiet(t: Table, items: seq<TrendItem>, now1: int, now2: int)
    ensures var t1 := Upserted(t, items, now1);
      && Novel(t1.Keys, items) == []
      && Upserted(t1, items, now2).Keys == t1.Keys
      && forall k | k in t1 :: Upserted(t1, items, now2)[k].firstSeenAt == t1[k].firstSeenAt
  {
    UpsertedTimes(Upserted(t, items, now1), items, now2);
  }

  /** Rows whose first-seen time is at or after `since`, as a set of keys. */
  function RecentKeys(t: Table, since: int): (r: set<Key>)
    ensures r <= t.Keys
    ensures forall k | k in t :: k in r <==> t[k].firstSeenAt >= since
  {
    set k | k in t && t[k].firstSeenAt >= since
  }

  /** The keys of a sequence of rows. */
  function RowKeys(rows: seq<Row>): set<Key> {
    set r | r in rows :: KeyOf(r.item)
  }

  /** A nonempty set of keys of a table has a row first seen no earlier than any other. */
  lemma NewestExists(t: Table, keys: set<Key>)
    requires keys != {} && keys <= t.Keys
    ensures exists k | k in keys :: forall k2 | k2 in keys :: t[k2].firstSeenAt <= t[k].firstSeenAt
  {
    var k :| k in keys;
    if keys != {k} {
      NewestExists(t, keys - {k});
      var m :| m in keys - {k} && forall k2 | k2 in keys - {k} :: t[k2].firstSeenAt <= t[m].firstSeenAt;
      if t[k].firstSeenAt <= t[m].firstSeenAt {
        assert forall k2 | k2 in keys :: t[k2].firstSeenAt <= t[m].firstSeenAt;
      } else {
        assert forall k2 | k2 in keys :: t[k2].firstSeenAt <= t[k].firstSeenAt;
      }
    }
  }

  /**
   * A partial answer to the recent-rows query: `rows` are table rows taken
   * newest first with distinct keys, `remaining` are the recent keys not yet
   * taken, and none of them is newer than a row already taken.
   */
  ghost predicate Selection(t: Table, recent: set<Key>, rows: seq<Row>, remaining: set<Key>) {
    && remaining <= recent <= t.Keys
    && SelectionKeys(recent, rows, remaining)
    && SelectionRows(t, rows, remaining)
  }

  /** The keys taken and the keys remaining partition the recent keys. */
  ghost predicate SelectionKeys(recent: set<Key>, rows: seq<Row>, remaining: set<Key>) {
    && RowKeys(rows) !! remaining && RowKeys(rows) + remaining == recent
    && |rows| + |remaining| == |recent|
  }

  /** The rows taken are table rows with distinct keys, newest first, none older than a remaining one. */
  ghost predicate SelectionRows(t: Table, rows: seq<Row>, remaining: set<Key>)
    requires remaining <= t.Keys
  {
    && (forall r | r in rows :: KeyOf(r.item) in t && t[KeyOf(r.item)] == r)
    && (forall i, j | 0 <= i < j < |rows| :: rows[i].firstSeenAt >= rows[j].firstSeenAt)
    && (forall i, j | 0 <= i < j < |rows| :: KeyOf(rows[i].item) != KeyOf(rows[j].item))
    && (forall k, r | k in remaining && r in rows :: t[k].firstSeenAt <= r.firstSeenAt)
  }

  /** Taking the newest remaining row extends a partial answer. */
  lemma SelectionStep(t: Table, recent: set<Key>, rows: seq<Row>, remaining: set<Key>, k: Key)
    requires WellKeyed(t) && Selection(t, recent, rows, remaining)
    requires k in remaining && forall k2 | k2 in remaining :: t[k2].firstSeenAt <= t[k].firstSeenAt
    ensures Selection(t, recent, rows + [t[k]], remaining - {k})
  {
    assert KeyOf(t[k].item) == k;
    KeysAfterStep(rows, remaining, recent, t[k]);
    RowsAfterStep(t, rows, remaining, k);
  }

  lemma RowsAfterStep(t: Table, rows: seq<Row>, remaining: set<Key>, k: Key)
    requires WellKeyed(t) && remaining <= t.Keys && RowKeys(rows) !! remaining
    requires SelectionRows(t, rows, remaining)
    requires k in remaining && forall k2 | k2 in remaining :: t[k2].firstSeenAt <= t[k].firstSeenAt
    ensures SelectionRows(t, rows + [t[k]], remaining - {k})
  {
    var row := t[k];
    DistinctAfterStep(rows, remaining, row);
    SortedAfterStep(t, rows, remaining, k);
    NewestAfterStep(t, rows, remaining, k);
    forall r | r in rows + [row]
      ensures KeyOf(r.item) in t && t[KeyOf(r.item)] == r
    {
      if r != row {
        assert r in rows;
      }
    }
  }

  lemma KeysAfterStep(rows: seq<Row>, remaining: set<Key>, recent: set<Key>, row: Row)
    requires RowKeys(rows) !! remaining && RowKeys(rows) + remaining == recent
    requires |rows| + |remaining| == |recent|
    requires KeyOf(row.item) in remaining
    ensures SelectionKeys(recent, rows + [row], remaining - {KeyOf(row.item)})
  {
    assert RowKeys(rows + [row]) == RowKeys(rows) + {KeyOf(row.item)} by {
      forall x | x in rows + [row] ensures x in rows || x == row {}
    }
  }

  lemma NewestAfterStep(t: Table, rows: seq<Row>, remaining: set<Key>, k: Key)
    requires k in remaining && remaining <= t.Keys
    requires forall k2 | k2 in remaining :: t[k2].firstSeenAt <= t[k].firstSeenAt
    requires forall k', r | k' in remaining && r in rows :: t[k'].firstSeenAt <= r.firstSeenAt
    ensures forall k', r | k' in remaining - {k} && r in rows + [t[k]] :: t[k'].firstSeenAt <= r.firstSeenAt
  {
    forall k', r | k' in remaining - {k} && r in rows + [t[k]] ensures t[k'].firstSeenAt <= r.firstSeenAt {
      if r != t[k] {
        assert r in rows;
      }
    }
  }

  lemma DistinctAfterStep(rows: seq<Row>, remaining: set<Key>, row: Row)
    requires RowKeys(rows) !! remaining && KeyOf(row.item) in remaining
    requires forall i, j | 0 <= i < j < |rows| :: KeyOf(rows[i].item) != KeyOf(rows[j].item)
    ensures forall i, j | 0 <= i < j < |rows + [row]| :: KeyOf((rows + [row])[i].item) != KeyOf((rows + [row])[j].item)
  {
    forall i, j | 0 <= i < j < |rows + [row]| ensures KeyOf((rows + [row])[i].item) != KeyOf((rows + [row])[j].item) {
      if j == |rows| {
        assert (rows + [row])[i] == rows[i];
        assert KeyOf(rows[i].item) in RowKeys(rows);
      } else {
        assert (rows + [row])[i] == rows[i] && (rows + [row])[j] == rows[j];
      }
    }
  }

  lemma SortedAfterStep(t: Table, rows: seq<Row>, remaining: set<Key>, k: Key)
    requires k in remaining && remaining <= t.Keys
    requires forall k', r | k' in remaining && r in rows :: t[k'].firstSeenAt <= r.firstSeenAt
    requires forall i, j | 0 <= i < j < |rows| :: rows[i].firstSeenAt >= rows[j].firstSeenAt
    ensures forall i, j | 0 <= i < j < |rows + [t[k]]| :: (rows + [t[k]])[i].firstSeenAt >= (rows + [t[k]])[j].firstSeenAt
  {
    forall i, j | 0 <= i < j < |rows + [t[k]]| ensures (rows + [t[k]])[i].firstSeenAt >= (rows + [t[k]])[j].firstSeenAt {
      if j == |rows| {
        assert (rows + [t[k]])[i] == rows[i] && rows[i] in rows;
      } else {
        assert (rows + [t[k]])[i] == rows[i] && (rows + [t[k]])[j] == rows[j];
      }
    }
  }

  class SupabaseStorage {
    /** Whether a client was created: both the project URL and the key were given and non-empty. */
    const configured: bool
    /** The remote table. */
    var table: Table

    ghost predicate Valid()
      reads this
    {
      WellKeyed(table)
    }

    constructor (url: Option<string>, key: Option<string>, table0: Table)
      requires WellKeyed(table0)
      ensures configured <==> url.Some? && url.value != "" && key.Some? && key.value != ""
      ensures table == table0
      ensures Valid()
    {
      configured := url.Some? && url.value != "" && key.Some? && key.value != "";
      table := table0;
    }

    /**
     * `upsert_items`: without a client or with no items nothing happens and
     * nothing is new; otherwise each item in turn is updated in place when its
     * key has a row and inserted otherwise, and the inserted items are returned.
     */
    method UpsertItems(items: seq<TrendItem>, now: int) returns (newItems: seq<TrendItem>)
      requires Valid()
      modifies this
      ensures Valid()
      ensures !configured || items == [] ==> newItems == [] && table == old(table)
      ensures configured ==> newItems == Novel(old(table).Keys, items)
      ensures configured ==> table == Upserted(old(table), items, now)
    {
      if !configured || items == [] {
        return [];
      }
      newItems := [];
      for i := 0 to |items|
        invariant table == Upserted(old(table), items[..i], now)
        invariant newItems == Novel(old(table).Keys, items[..i])
        invariant WellKeyed(table)
      {
        var item := items[i];
        TakeOneMore(items, i);
        NovelSnoc(old(table).Keys, items[..i], item);
        UpsertedSnoc(old(table), items[..i], item, now);
        Upsert1WellKeyed(table, item, now);
        ghost var before := table;
        var k := Key(item.source, item.sourceId);
        if k in table {
          table := table[k := Row(item, table[k].firstSeenAt, now)];
        } else {
          table := table[k := Row(item, now, now)];
          newItems := newItems + [item];
        }
        assert table == Upsert1(before, item, now);
      }
      assert items[..|items|] == items;
    }

    /**
     * `get_recent_items`: the rows first seen within the last `days` days,
     * newest first, at most `limit` of them. The rows returned are the newest
     * ones: any recent row left out is no newer than every row returned.
     * Rows with equal first-seen times may come in either order.
     */
    method GetRecentItems(days: int, limit: nat, now: int) returns (rows: seq<Row>)
      requires Valid()
      ensures !configured ==> rows == []
      ensures |rows| <= limit
      ensures forall r | r in rows :: KeyOf(r.item) in table && table[KeyOf(r.item)] == r
      ensures forall r | r in rows :: r.firstSeenAt >= now - days * 86400
      ensures forall i, j | 0 <= i < j < |rows| :: rows[i].firstSeenAt >= rows[j].firstSeenAt
      ensures forall i, j | 0 <= i < j < |rows| :: KeyOf(rows[i].item) != KeyOf(rows[j].item)
      ensures configured ==>
        var recent := RecentKeys(table, now - days * 86400);
        && |rows| == (if limit < |recent| then limit else |recent|)
        && forall k, r | k in recent && k !in RowKeys(rows) && r in rows :: table[k].firstSeenAt <= r.firstSeenAt
    {
      if !configured {
        return [];
      }
      var since := now - days * 86400;
      var recent := RecentKeys(table, since);
      var remaining := recent;
      rows := [];
      while |rows| < limit && remaining != {}
        invariant Selection(table, recent, rows, remaining)
        invariant |rows| <= limit
        decreases |remaining|
      {
        NewestExists(table, remaining);
        var k :| k in remaining && forall k2 | k2 in remaining :: table[k2].firstSeenAt <= table[k].firstSeenAt;
        SelectionStep(table, recent, rows, remaining, k);
        rows := rows + [table[k]];
        remaining := remaining - {k};
      }
    }
  }
}
