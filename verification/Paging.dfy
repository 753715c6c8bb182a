/** Keyset paging of the conversation list while conversations keep moving up. */
module Paging {
  import opened Prelude

  /** The recency order: `updated_at`, then id. */
  datatype Key = Key(updated: int, id: nat)

  predicate Below(a: Key, b: Key) {
    a.updated < b.updated || (a.updated == b.updated && a.id < b.id)
  }

  /** One conversation row: its activity time, and whether the list shows it at all. */
  datatype Row = Row(updated: int, visible: bool)

  type Table = map<nat, Row>

  function Keys(db: Table): set<Key> {
    set id | id in db && db[id].visible :: Key(db[id].updated, id)
  }

  predicate IsGreatest(keys: set<Key>, k: Key) {
    k in keys && forall x | x in keys && x != k :: Below(x, k)
  }

  lemma {:induction false} GreatestExists(keys: set<Key>)
    requires keys != {}
    ensures exists k :: IsGreatest(keys, k)
    decreases |keys|
  {
    var x :| x in keys;
    if keys == {x} {
      assert IsGreatest(keys, x);
    } else {
      GreatestExists(keys - {x});
      var k :| IsGreatest(keys - {x}, k);
      if Below(x, k) {
        assert IsGreatest(keys, k);
      } else {
        assert forall y | y in keys && y != x :: y == k || Below(y, k);
        assert IsGreatest(keys, x);
      }
    }
  }

  function Greatest(keys: set<Key>): (k: Key)
    requires keys != {}
    ensures IsGreatest(keys, k)
  {
    GreatestExists(keys);
    var k :| k in keys && IsGreatest(keys, k);
    k
  }

  /** `ORDER BY updated_at DESC, id DESC` */
  function Descending(keys: set<Key>): seq<Key>
    decreases |keys|
  {
    if keys == {} then [] else [Greatest(keys)] + Descending(keys - {Greatest(keys)})
  }

  ghost predicate IsDescending(r: seq<Key>, keys: set<Key>) {
    Elements(r) == keys && Distinct(r) && forall i, j | 0 <= i < j < |r| :: Below(r[j], r[i])
  }

  /** It lists the set, each key once, greatest first. */
  lemma {:induction false} DescendingLists(keys: set<Key>)
    ensures IsDescending(Descending(keys), keys)
    decreases |keys|
  {
    if keys != {} {
      var k := Greatest(keys);
      var rest := Descending(keys - {k});
      DescendingLists(keys - {k});
      assert forall i | 0 <= i < |rest| :: rest[i] in Elements(rest);
      assert Elements([k] + rest) == {k} + Elements(rest);
    }
  }

  function Beyond(keys: set<Key>, cursor: Option<Key>): set<Key> {
    set k | k in keys && (cursor.None? || Below(k, cursor.value))
  }

  function Take<T>(s: seq<T>, n: nat): seq<T> {
    if |s| <= n then s else s[..n]
  }

  datatype Page = Page(items: seq<Key>, next: Option<Key>)

  /** One row more than the page is fetched, and tells whether there is a next page. */
  function PageOf(selected: seq<Key>, limit: nat): Page
    requires 1 <= limit
  {
    var rows := Take(selected, limit + 1);
    var items := Take(rows, limit);
    Page(items, if limit < |rows| then Some(items[|items| - 1]) else None)
  }

  lemma {:induction false} PageShape(selected: seq<Key>, limit: nat)
    requires 1 <= limit
    ensures PageOf(selected, limit) ==
              if limit < |selected| then Page(selected[..limit], Some(selected[limit - 1])) else Page(selected, None)
  {
    if limit < |selected| {
      assert selected[..limit + 1][..limit] == selected[..limit];
    }
  }

  /** `list_conversations` */
  function ListConversations(db: Table, cursor: Option<Key>, limit: nat): Page
    requires 1 <= limit
  {
    PageOf(Descending(Beyond(Keys(db), cursor)), limit)
  }

  // ---- Walking the list ----

  /** Between two reads anything may happen except that a conversation moves down. */
  predicate Evolves(before: Table, after: Table) {
    forall id | id in before :: id in after && before[id].updated <= after[id].updated
  }

  /** One request of the walk: the table it found, the limit and cursor it sent, and the page it got. */
  datatype Read = Read(db: Table, limit: nat, cursor: Option<Key>, page: Page)

  /** A walk may change its limit; it starts without a cursor and follows each page's cursor while there is one. */
  predicate Walk(trail: seq<Read>)
  {
    && (forall t | 0 <= t < |trail| ::
          && 1 <= trail[t].limit && trail[t].page == ListConversations(trail[t].db, trail[t].cursor, trail[t].limit)
          && (t == 0 ==> trail[t].cursor.None?))
    && (forall t | 0 <= t < |trail| - 1 ::
          && Evolves(trail[t].db, trail[t + 1].db)
          && trail[t].page.next.Some? && trail[t + 1].cursor == trail[t].page.next)
  }

  /** What a page says about the listed conversations beyond the cursor. */
  predicate Covers(r: Read) {
    && (forall i | 0 <= i < |r.page.items| :: r.page.items[i] in Beyond(Keys(r.db), r.cursor))
    && Distinct(r.page.items)
    && match r.page.next
       case Some(next) =>
         && next in Beyond(Keys(r.db), r.cursor)
         && (forall k | k in r.page.items :: !Below(k, next))
         && (forall k | k in Beyond(Keys(r.db), r.cursor) :: k in r.page.items || Below(k, next))
       case None => forall k | k in Beyond(Keys(r.db), r.cursor) :: k in r.page.items
  }

  lemma {:induction false} PageCovers(db: Table, cursor: Option<Key>, limit: nat)
    requires 1 <= limit
    ensures Covers(Read(db, limit, cursor, ListConversations(db, cursor, limit)))
  {
    var keys := Beyond(Keys(db), cursor);
    PageShape(Descending(keys), limit);
    DescendingLists(keys);
    SortedPageCovers(db, cursor, Descending(keys), limit);
  }

  lemma {:induction false} SortedPageCovers(db: Table, cursor: Option<Key>, sorted: seq<Key>, limit: nat)
    requires 1 <= limit && IsDescending(sorted, Beyond(Keys(db), cursor))
    ensures Covers(Read(db, limit, cursor,
                        if limit < |sorted|
                        then Page(sorted[..limit], Some(sorted[limit - 1]))
                        else Page(sorted, None)))
  {
    assert forall i | 0 <= i < |sorted| :: sorted[i] in Elements(sorted);
    if limit < |sorted| {
      forall k | k in Elements(sorted) ensures k in sorted[..limit] || Below(k, sorted[limit - 1]) {
        var i :| 0 <= i < |sorted| && sorted[i] == k;
        if i < limit { assert sorted[..limit][i] == k; }
      }
    }
  }

  /** The part of `Walk` the properties need: what each page covers, and how reads follow one another. */
  predicate Trail(trail: seq<Read>) {
    && (forall t | 0 <= t < |trail| :: Covers(trail[t]) && (t == 0 ==> trail[t].cursor.None?))
    && (forall t | 0 <= t < |trail| - 1 ::
          && Evolves(trail[t].db, trail[t + 1].db)
          && trail[t].page.next.Some? && trail[t + 1].cursor == trail[t].page.next)
  }

  lemma {:induction false} WalkIsTrail(trail: seq<Read>)
    requires Walk(trail)
    ensures Trail(trail)
  {
    forall t | 0 <= t < |trail| ensures Covers(trail[t]) {
      PageCovers(trail[t].db, trail[t].cursor, trail[t].limit);
    }
  }

  /** Later cursors lie below earlier ones. */
  lemma {:induction false} CursorsDescend(trail: seq<Read>, t: nat, u: nat)
    requires Trail(trail) && t < u < |trail|
    ensures trail[u].cursor.Some? && trail[t].page.next.Some?
    ensures trail[u].cursor == trail[t].page.next || Below(trail[u].cursor.value, trail[t].page.next.value)
    decreases u
  {
    var v := u - 1;
    assert trail[v + 1].cursor == trail[v].page.next;
    if t < v {
      CursorsDescend(trail, t, v);
      assert trail[v].page.next.value in Beyond(Keys(trail[v].db), trail[v].cursor);
    }
  }

  lemma {:induction false} OnlyUpwards(trail: seq<Read>, t: nat, u: nat, id: nat)
    requires Trail(trail) && t <= u < |trail| && id in trail[t].db
    ensures id in trail[u].db && trail[t].db[id].updated <= trail[u].db[id].updated
    decreases u
  {
    if t < u {
      OnlyUpwards(trail, t, u - 1, id);
      assert Evolves(trail[u - 1].db, trail[u - 1 + 1].db);
    }
  }

  /**
   No conversation is returned twice, whatever moves up, appears, disappears or comes back between the
   reads.
   */
  lemma {:induction false} NoConversationTwice(trail: seq<Read>, t: nat, i: nat, u: nat, j: nat)
    requires Walk(trail) && t <= u < |trail|
    requires i < |trail[t].page.items| && j < |trail[u].page.items| && (t, i) != (u, j)
    ensures trail[t].page.items[i].id != trail[u].page.items[j].id
  {
    WalkIsTrail(trail);
    DifferentIds(trail, t, i, u, j);
  }

  lemma {:induction false} DifferentIds(trail: seq<Read>, t: nat, i: nat, u: nat, j: nat)
    requires Trail(trail) && t <= u < |trail|
    requires i < |trail[t].page.items| && j < |trail[u].page.items| && (t, i) != (u, j)
    ensures trail[t].page.items[i].id != trail[u].page.items[j].id
  {
    var a, b := trail[t].page.items[i], trail[u].page.items[j];
    assert Covers(trail[t]) && Covers(trail[u]);
    assert a in trail[t].page.items && b in trail[u].page.items;
    assert a in Keys(trail[t].db) && b in Beyond(Keys(trail[u].db), trail[u].cursor);
    if t < u {
      CursorsDescend(trail, t, u);
      OnlyUpwards(trail, t, u, a.id);
    }
  }

  /** A conversation nobody touches stays ahead of the cursor until it is returned. */
  lemma {:induction false} UntouchedIsPending(trail: seq<Read>, k: Key, t: nat)
    requires Trail(trail) && t < |trail| && forall u | 0 <= u < |trail| :: k in Keys(trail[u].db)
    ensures (exists u | 0 <= u < t :: k in trail[u].page.items) || k in Beyond(Keys(trail[t].db), trail[t].cursor)
  {
    if t > 0 {
      UntouchedIsPending(trail, k, t - 1);
      assert Covers(trail[t - 1]) && trail[t - 1 + 1].cursor == trail[t - 1].page.next;
      if u :| 0 <= u < t - 1 && k in trail[u].page.items {
        assert u < t;
      }
    }
  }

  /** A completed walk returns every conversation that stayed listed and untouched. */
  lemma {:induction false} UntouchedIsReturned(trail: seq<Read>, k: Key)
    requires trail != [] && Walk(trail) && trail[|trail| - 1].page.next.None?
    requires forall u | 0 <= u < |trail| :: k in Keys(trail[u].db)
    ensures exists t | 0 <= t < |trail| :: k in trail[t].page.items
  {
    WalkIsTrail(trail);
    LastReadReturnsTheRest(trail, k);
  }

  lemma {:induction false} LastReadReturnsTheRest(trail: seq<Read>, k: Key)
    requires Trail(trail) && trail != [] && trail[|trail| - 1].page.next.None?
    requires forall u | 0 <= u < |trail| :: k in Keys(trail[u].db)
    ensures exists t | 0 <= t < |trail| :: k in trail[t].page.items
  {
    UntouchedIsPending(trail, k, |trail| - 1);
    assert Covers(trail[|trail| - 1]);
  }

  // ---- A list that does not move ----

  /** Dropping the first `n` keys of a descending list leaves the list of the keys below the last one dropped. */
  lemma {:induction false} DescendingTail(keys: set<Key>, n: nat)
    requires 0 < n <= |Descending(keys)|
    ensures Descending(keys)[n..] == Descending(Beyond(keys, Some(Descending(keys)[n - 1])))
    decreases n
  {
    var k := Greatest(keys);
    var rest := Descending(keys - {k});
    if n == 1 {
      assert Beyond(keys, Some(k)) == keys - {k};
    } else {
      DescendingTail(keys - {k}, n - 1);
      RestIsBelow(keys, n - 2);
      assert Descending(keys)[n - 1] == rest[n - 2];
    }
  }

  lemma {:induction false} RestIsBelow(keys: set<Key>, i: nat)
    requires keys != {} && i < |Descending(keys - {Greatest(keys)})|
    ensures var k := Greatest(keys); var x := Descending(keys - {k})[i];
            x in keys && Beyond(keys, Some(x)) == Beyond(keys - {k}, Some(x))
  {
    var k := Greatest(keys);
    DescendingLists(keys - {k});
    assert Descending(keys - {k})[i] in Elements(Descending(keys - {k}));
  }

  /** One page and what lies beyond its cursor make up what lay beyond the one before. */
  lemma {:induction false} PageAndRest(db: Table, cursor: Option<Key>, limit: nat)
    requires 1 <= limit
    ensures var p := ListConversations(db, cursor, limit);
            var all := Descending(Beyond(Keys(db), cursor));
            all == if p.next.Some? then p.items + Descending(Beyond(Keys(db), p.next)) else p.items
  {
    var keys := Beyond(Keys(db), cursor);
    var sorted := Descending(keys);
    PageShape(sorted, limit);
    if limit < |sorted| {
      DescendingTail(keys, limit);
      DescendingLists(keys);
      assert sorted[limit - 1] in Elements(sorted);
      BeyondTwice(Keys(db), cursor, sorted[limit - 1]);
      assert sorted == sorted[..limit] + sorted[limit..];
    }
  }

  lemma {:induction false} BeyondTwice(keys: set<Key>, cursor: Option<Key>, k: Key)
    requires k in Beyond(keys, cursor)
    ensures Beyond(Beyond(keys, cursor), Some(k)) == Beyond(keys, Some(k))
  {
  }

  /** The pages from read `t` on, put together. */
  function Returned(trail: seq<Read>, t: nat): seq<Key>
    requires t <= |trail|
    decreases |trail| - t
  {
    if t == |trail| then [] else trail[t].page.items + Returned(trail, t + 1)
  }

  predicate TakesPage(r: Read, keys: set<Key>) {
    Descending(Beyond(keys, r.cursor)) ==
      if r.page.next.Some? then r.page.items + Descending(Beyond(keys, r.page.next)) else r.page.items
  }

  /** Each read takes a page off what lay beyond its cursor, and hands on the rest. */
  predicate TakesPages(trail: seq<Read>, keys: set<Key>) {
    && (forall t | 0 <= t < |trail| :: TakesPage(trail[t], keys))
    && forall t | 0 <= t < |trail| - 1 :: trail[t].page.next.Some? && trail[t + 1].cursor == trail[t].page.next
  }

  lemma {:induction false} PagesConcatenate(trail: seq<Read>, keys: set<Key>, t: nat)
    requires TakesPages(trail, keys) && t < |trail| && trail[|trail| - 1].page.next.None?
    ensures Returned(trail, t) == Descending(Beyond(keys, trail[t].cursor))
    decreases |trail| - t
  {
    assert TakesPage(trail[t], keys);
    if t + 1 < |trail| {
      PagesConcatenate(trail, keys, t + 1);
      assert trail[t].page.next.Some? && trail[t + 1].cursor == trail[t].page.next;
    } else {
      assert Returned(trail, t + 1) == [];
    }
  }

  /** On a static list a completed walk returns the whole list, in order. */
  lemma {:induction false} StaticWalkReturnsTheList(trail: seq<Read>, db: Table)
    requires trail != [] && Walk(trail) && trail[|trail| - 1].page.next.None?
    requires forall u | 0 <= u < |trail| :: trail[u].db == db
    ensures Returned(trail, 0) == Descending(Keys(db))
  {
    forall t | 0 <= t < |trail| ensures TakesPage(trail[t], Keys(db)) {
      PageAndRest(db, trail[t].cursor, trail[t].limit);
    }
    assert TakesPages(trail, Keys(db));
    PagesConcatenate(trail, Keys(db), 0);
    assert Beyond(Keys(db), None) == Keys(db);
  }

  // ---- What a reader sees ----

  /**
   A page shows conversations as they are: none that is archived, newest first and by id among equals, all
   below the cursor, and at most as many as asked for; a next cursor is that of the last one of a full page.
   */
  lemma {:induction false} PageIsNewestFirst(db: Table, cursor: Option<Key>, limit: nat, i: nat, j: nat)
    requires 1 <= limit && i <= j < |ListConversations(db, cursor, limit).items|
    ensures var p := ListConversations(db, cursor, limit); var a, b := p.items[i], p.items[j];
            && a.id in db && db[a.id].visible && db[a.id].updated == a.updated
            && (i < j ==> b.updated < a.updated || (b.updated == a.updated && b.id < a.id))
            && (cursor.Some? ==>
                  a.updated < cursor.value.updated || (a.updated == cursor.value.updated && a.id < cursor.value.id))
            && |p.items| <= limit
            && (p.next.Some? ==> |p.items| == limit && p.next.value == p.items[limit - 1])
  {
    var keys := Beyond(Keys(db), cursor);
    PageShape(Descending(keys), limit);
    DescendingLists(keys);
    assert Descending(keys)[i] in Elements(Descending(keys));
  }

  /** Row by row: a conversation that stays visible and untouched is on one of the pages of a completed walk. */
  lemma {:induction false} UntouchedConversationIsReturned(trail: seq<Read>, id: nat, updated: int)
    returns (t: nat, i: nat)
    requires trail != [] && Walk(trail) && trail[|trail| - 1].page.next.None?
    requires forall u | 0 <= u < |trail| ::
               id in trail[u].db && trail[u].db[id].visible && trail[u].db[id].updated == updated
    ensures t < |trail| && i < |trail[t].page.items| && trail[t].page.items[i].id == id
  {
    var k := Key(updated, id);
    UntouchedIsReturned(trail, k);
    t :| t < |trail| && k in trail[t].page.items;
    i :| i < |trail[t].page.items| && trail[t].page.items[i] == k;
  }
}
