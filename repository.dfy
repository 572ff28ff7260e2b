/** The `items` table and its repository: `save`, `findById`, `deleteById`
    and `findAll` inherited from `JpaRepository`, and the eight declared queries.
    The table is a value (`Table`); the queries and the specifications of the
    updates are functions of it, and `ItemStore` is the mutable repository
    whose methods are proved against those specifications. */
module Repository {
  import opened Base
  import opened Entity
  import opened Text

  /** The table: rows keyed by id, the identity counter that hands out the
      next id, and a logical clock standing for the wall clock that stamps
      `createdAt` and `updatedAt`. */
  datatype Table = Table(rows: map<int, Item>, nextId: int, clock: nat)

  /** A fresh database: no rows, identity starting at 1. */
  const EMPTY: Table := Table(map[], 1, 0)

  /** Each row carries its own key as `id`. */
  ghost predicate WellKeyed(rows: map<int, Item>) {
    forall k | k in rows :: rows[k].id == Some(k)
  }

  /** Both stamps set, creation no later than the last update. */
  ghost predicate Stamped(it: Item) {
    it.createdAt.Some? && it.updatedAt.Some? && it.createdAt.value <= it.updatedAt.value
  }

  /** The table invariant: ids are below the identity counter (so an id is
      never handed out twice), every row satisfies the column constraints and
      is stamped, and no stamp lies in the future of the clock. */
  ghost predicate Inv(t: Table) {
    && t.nextId >= 1
    && WellKeyed(t.rows)
    && (forall k | k in t.rows :: 1 <= k < t.nextId)
    && (forall k | k in t.rows :: Storable(t.rows[k]) && Stamped(t.rows[k]))
    && (forall k | k in t.rows :: t.rows[k].updatedAt.value <= t.clock)
  }

  lemma EmptyInv()
    ensures Inv(EMPTY)
  {
  }

  // ---------------------------------------------------------------------------
  // Point operations

  /** The row with key `id`, if any: `findById` on a table value. */
  function Lookup(t: Table, id: int): (r: Option<Item>)
    ensures r.Some? <==> id in t.rows
    ensures r.Some? ==> r.value == t.rows[id]
    ensures Inv(t) && r.Some? ==> r.value.id == Some(id) && r.value.name.Some? && r.value.room.Some?
  {
    if id in t.rows then Some(t.rows[id]) else None
  }

  /** `save`. An item without id is inserted under the next identity value and
      stamped `createdAt = updatedAt = now`; an item with an id replaces that
      row, keeps the row's `createdAt` and is stamped `updatedAt = now`. A row
      the column constraints refuse, or an id with no row, leaves the table
      as it was. Every successful save advances the clock. */
  function SaveSpec(t: Table, item: Item): (r: (Table, Result<Item>))
    ensures r.1.Failure? ==> r.0 == t
    ensures r.1 == Failure(NotFound) <==> item.id.Some? && item.id.value !in t.rows
    ensures item.id.None? || item.id.value in t.rows ==> (r.1.Success? <==> Storable(item))
    ensures r.1.Success? ==>
      && SameExcept(item, r.1.value, {Id, CreatedAt, UpdatedAt})
      && r.0.clock == t.clock + 1
      && r.1.value.updatedAt == Some(r.0.clock)
    ensures r.1.Success? && item.id.None? ==>
      && r.1.value.id == Some(t.nextId)
      && r.1.value.createdAt == r.1.value.updatedAt
      && r.0.rows == t.rows[t.nextId := r.1.value]
      && r.0.nextId == t.nextId + 1
    ensures r.1.Success? && item.id.Some? ==>
      && r.1.value.id == item.id
      && r.1.value.createdAt == t.rows[item.id.value].createdAt
      && r.0.rows == t.rows[item.id.value := r.1.value]
      && r.0.nextId == t.nextId
    ensures Inv(t) && r.1.Success? && item.id.None? ==> r.1.value.id.value !in t.rows
    ensures Inv(t) ==> Inv(r.0)
  {
    var now := t.clock + 1;
    match item.id
    case None =>
      var saved := item.(id := Some(t.nextId), createdAt := Some(now), updatedAt := Some(now));
      if Storable(saved) then (Table(t.rows[t.nextId := saved], t.nextId + 1, now), Success(saved))
      else (t, Failure(ConstraintViolation))
    case Some(k) =>
      if k !in t.rows then (t, Failure(NotFound))
      else
        var saved := item.(createdAt := t.rows[k].createdAt, updatedAt := Some(now));
        if Storable(saved) then (Table(t.rows[k := saved], t.nextId, now), Success(saved))
        else (t, Failure(ConstraintViolation))
  }

  /** `deleteById`: removes the row if there is one, does nothing otherwise. */
  function DeleteSpec(t: Table, id: int): (r: Table)
    ensures Lookup(r, id).None?
    ensures forall k | k != id :: Lookup(r, k) == Lookup(t, k)
    ensures r.nextId == t.nextId && r.clock == t.clock
    ensures Inv(t) ==> Inv(r)
  {
    Table(t.rows - {id}, t.nextId, t.clock)
  }

  /** Every persisted row has a name and a room (possibly empty), a
      description of at most 1000 and an images list of at most 2000
      characters, and was created no later than it was last updated. */
  lemma PersistedRow(t: Table, k: int)
    requires Inv(t) && k in t.rows
    ensures t.rows[k].id == Some(k)
    ensures t.rows[k].name.Some? && t.rows[k].room.Some?
    ensures t.rows[k].description.Some? ==> |t.rows[k].description.value| <= DESCRIPTION_LENGTH
    ensures t.rows[k].images.Some? ==> |t.rows[k].images.value| <= IMAGES_LENGTH
    ensures t.rows[k].createdAt.value <= t.rows[k].updatedAt.value
  {
  }

  /** An id, once deleted, is not handed out again by the next insert. */
  lemma IdNeverReused(t: Table, id: int, item: Item)
    requires Inv(t) && id in t.rows && item.id.None?
    ensures
      var r := SaveSpec(DeleteSpec(t, id), item);
      r.1.Success? ==> r.1.value.id != Some(id) && Lookup(r.0, id).None?
  {
  }

  // ---------------------------------------------------------------------------
  // Reading the table as a list

  predicate IsLeast(k: int, ks: set<int>) {
    k in ks && forall j | j in ks :: k <= j
  }

  lemma {:induction false} LeastExists(ks: set<int>)
    requires ks != {}
    ensures exists k :: IsLeast(k, ks)
  {
    if forall x :: x !in ks {
      assert false;
    }
    var x :| x in ks;
    var rest := ks - {x};
    if exists y :: y in rest {
      LeastExists(rest);
      var m :| IsLeast(m, rest);
      var least := if x < m then x else m;
      forall j | j in ks ensures least <= j {
        assert j == x || j in rest;
      }
      assert IsLeast(least, ks);
    } else {
      forall j | j in ks ensures x <= j {
        assert j == x || j in rest;
      }
      assert IsLeast(x, ks);
    }
  }

  /** The least key of a non-empty key set. */
  function LeastKey(ks: set<int>): (k: int)
    requires ks != {}
    ensures IsLeast(k, ks)
  {
    LeastExists(ks);
    var k :| IsLeast(k, ks);
    k
  }

  /** `x` is the row under some key of `m`. */
  ghost predicate InTable(m: map<int, Item>, x: Item) {
    exists k | k in m :: m[k] == x
  }

  /** The rows in ascending id order, the order the primary key gives them. */
  function Rows(m: map<int, Item>): (r: seq<Item>)
    ensures |r| == |m|
    ensures forall x :: x in r <==> InTable(m, x)
    ensures WellKeyed(m) ==> Distinct(r)
    decreases |m|
  {
    if |m| == 0 then []
    else
      assert m.Keys != {} by {
        assert |m.Keys| == |m|;
      }
      var k := LeastKey(m.Keys);
      var rest := m - {k};
      assert rest.Keys == m.Keys - {k};
      assert forall x :: InTable(m, x) <==> x == m[k] || InTable(rest, x) by {
        forall x | InTable(m, x) ensures x == m[k] || InTable(rest, x) {
          var k' :| k' in m && m[k'] == x;
          assert k' == k || rest[k'] == x;
        }
        forall x | InTable(rest, x) ensures InTable(m, x) {
          var k' :| k' in rest && rest[k'] == x;
          assert m[k'] == x;
        }
      }
      var tail := Rows(rest);
      assert WellKeyed(m) ==> forall y | InTable(rest, y) :: y.id != Some(k) by {
        forall y | WellKeyed(m) && InTable(rest, y) ensures y.id != Some(k) {
          var k' :| k' in rest && rest[k'] == y;
          assert m[k'] == y;
        }
      }
      [m[k]] + tail
  }

  /** Every pair in order: the key of the earlier is at least that of the later. */
  ghost predicate NonIncreasing(s: seq<Item>, key: Item -> int) {
    forall i, j | 0 <= i < j < |s| :: key(s[i]) >= key(s[j])
  }

  /** The sort key of `ORDER BY updatedAt DESC` (a stored row is always stamped). */
  function ByUpdatedAt(it: Item): int {
    match it.updatedAt
    case Some(stamp) => stamp
    case None => -1
  }

  /** The sort key of `ORDER BY viewCount DESC`. */
  function ByViewCount(it: Item): int {
    it.viewCount as int
  }

  /** Newest first: non-increasing `updatedAt`. */
  ghost predicate NewestFirst(s: seq<Item>) {
    NonIncreasing(s, ByUpdatedAt)
  }

  /** A first element whose key bounds every later key keeps a list non-increasing. */
  lemma ConsNonIncreasing(a: Item, s: seq<Item>, key: Item -> int)
    requires NonIncreasing(s, key)
    requires forall y | y in s :: key(a) >= key(y)
    ensures NonIncreasing([a] + s, key)
  {
    forall i, j | 0 <= i < j < |[a] + s| ensures key(([a] + s)[i]) >= key(([a] + s)[j]) {
      assert ([a] + s)[j] == s[j - 1];
      if i > 0 {
        assert ([a] + s)[i] == s[i - 1];
      }
    }
  }

  /** The head of a non-increasing list bounds every element. */
  lemma HeadBounds(s: seq<Item>, key: Item -> int)
    requires |s| > 0 && NonIncreasing(s, key)
    ensures forall y | y in s :: key(s[0]) >= key(y)
  {
    forall y | y in s ensures key(s[0]) >= key(y) {
      var j :| 0 <= j < |s| && s[j] == y;
      assert j == 0 || key(s[0]) >= key(s[j]);
    }
  }

  /** A bound on the elements of `s` and on `x` bounds every element of a
      list holding exactly those elements. */
  lemma BoundsCarry(r: seq<Item>, s: seq<Item>, x: Item, b: int, key: Item -> int)
    requires multiset(r) == multiset(s) + multiset{x}
    requires b >= key(x) && forall y | y in s :: b >= key(y)
    ensures forall y | y in r :: b >= key(y)
  {
    forall y | y in r ensures b >= key(y) {
      assert y in multiset(r);
      assert y == x || y in multiset(s);
    }
  }

  /** Dropping the head keeps a list non-increasing. */
  lemma TailNonIncreasing(s: seq<Item>, key: Item -> int)
    requires |s| > 0 && NonIncreasing(s, key)
    ensures NonIncreasing(s[1..], key)
  {
    forall i, j | 0 <= i < j < |s[1..]| ensures key(s[1..][i]) >= key(s[1..][j]) {
      assert s[1..][i] == s[i + 1] && s[1..][j] == s[j + 1];
    }
  }

  /** Keeping the head in front of the insertion into the tail is sorted and
      holds the right elements. */
  lemma InsertBehind(x: Item, s: seq<Item>, rest: seq<Item>, key: Item -> int)
    requires |s| > 0 && NonIncreasing(s, key) && key(x) < key(s[0])
    requires NonIncreasing(rest, key) && multiset(rest) == multiset(s[1..]) + multiset{x}
    ensures NonIncreasing([s[0]] + rest, key)
    ensures multiset([s[0]] + rest) == multiset(s) + multiset{x}
  {
    HeadBounds(s, key);
    assert forall y | y in s[1..] :: y in s;
    BoundsCarry(rest, s[1..], x, key(s[0]), key);
    ConsNonIncreasing(s[0], rest, key);
    assert s == [s[0]] + s[1..];
  }

  /** Inserts `x` in front of the first element whose key is not above its own. */
  function InsertDesc(x: Item, s: seq<Item>, key: Item -> int): (r: seq<Item>)
    requires NonIncreasing(s, key)
    ensures NonIncreasing(r, key)
    ensures |r| == |s| + 1
    ensures multiset(r) == multiset(s) + multiset{x}
  {
    if |s| == 0 then
      [x]
    else if key(x) >= key(s[0]) then
      HeadBounds(s, key);
      ConsNonIncreasing(x, s, key);
      [x] + s
    else
      TailNonIncreasing(s, key);
      var rest := InsertDesc(x, s[1..], key);
      InsertBehind(x, s, rest, key);
      [s[0]] + rest
  }

  lemma {:induction false} DistinctCounts<T>(s: seq<T>)
    requires Distinct(s)
    ensures forall y | y in s :: multiset(s)[y] == 1
  {
    if |s| > 0 {
      var t := s[1..];
      assert s == [s[0]] + t;
      assert Distinct(t) by {
        forall i, j | 0 <= i < j < |t| ensures t[i] != t[j] {
          assert s[i + 1] == t[i] && s[j + 1] == t[j];
        }
      }
      DistinctCounts(t);
      forall y | y in s ensures multiset(s)[y] == 1 {
        assert multiset(s)[y] == multiset(t)[y] + (if y == s[0] then 1 else 0);
      }
    }
  }

  lemma CountsDistinct<T>(s: seq<T>)
    requires forall y | y in s :: multiset(s)[y] == 1
    ensures Distinct(s)
  {
    forall i, j | 0 <= i < j < |s| ensures s[i] != s[j] {
      assert s == s[..j] + s[j..];
      assert s[i] in s[..j] && s[j] in s[j..];
      assert multiset(s)[s[j]] == multiset(s[..j])[s[j]] + multiset(s[j..])[s[j]];
    }
  }

  lemma PermutationKeepsDistinct<T>(a: seq<T>, b: seq<T>)
    requires multiset(a) == multiset(b) && Distinct(a)
    ensures Distinct(b)
  {
    DistinctCounts(a);
    assert forall y | y in b :: y in multiset(a);
    CountsDistinct(b);
  }

  /** Stable insertion sort by descending key. */
  function SortDesc(s: seq<Item>, key: Item -> int): (r: seq<Item>)
    ensures NonIncreasing(r, key)
    ensures |r| == |s|
    ensures multiset(r) == multiset(s)
  {
    if |s| == 0 then []
    else
      assert s == [s[0]] + s[1..];
      InsertDesc(s[0], SortDesc(s[1..], key), key)
  }

  /** The elements satisfying `p`, in their order. */
  function Filter(s: seq<Item>, p: Item -> bool): (r: seq<Item>)
    ensures forall y :: y in r <==> y in s && p(y)
    ensures Distinct(s) ==> Distinct(r)
  {
    if |s| == 0 then []
    else
      assert s == [s[0]] + s[1..];
      (if p(s[0]) then [s[0]] else []) + Filter(s[1..], p)
  }

  /** The rows satisfying `p`, newest first: the shape of every
      `find...OrderByUpdatedAtDesc` query. */
  function Matching(t: Table, p: Item -> bool): (r: seq<Item>)
    requires WellKeyed(t.rows)
    ensures forall x :: x in r <==> InTable(t.rows, x) && p(x)
    ensures Distinct(r)
    ensures NewestFirst(r)
  {
    var matching := Filter(Rows(t.rows), p);
    var r := SortDesc(matching, ByUpdatedAt);
    PermutationKeepsDistinct(matching, r);
    assert forall x :: x in r <==> x in multiset(matching);
    r
  }

  // ---------------------------------------------------------------------------
  // The declared queries

  /** `findAll`: every row once, in id order. */
  function FindAll(t: Table): (r: seq<Item>)
    requires WellKeyed(t.rows)
    ensures |r| == |t.rows|
    ensures forall x :: x in r <==> InTable(t.rows, x)
    ensures Distinct(r)
  {
    Rows(t.rows)
  }

  /** `findByRoomOrderByUpdatedAtDesc`. */
  function FindByRoom(t: Table, room: string): (r: seq<Item>)
    requires WellKeyed(t.rows)
    ensures forall x :: x in r <==> InTable(t.rows, x) && x.room == Some(room)
    ensures Distinct(r) && NewestFirst(r)
  {
    Matching(t, (it: Item) => it.room == Some(room))
  }

  /** `findByCategoryOrderByUpdatedAtDesc`; a null category matches rows whose
      category is null (a derived query turns `= null` into `IS NULL`). */
  function FindByCategory(t: Table, category: Option<string>): (r: seq<Item>)
    requires WellKeyed(t.rows)
    ensures forall x :: x in r <==> InTable(t.rows, x) && x.category == category
    ensures Distinct(r) && NewestFirst(r)
  {
    Matching(t, (it: Item) => it.category == category)
  }

  /** `findByRoomAndFurnitureOrderByUpdatedAtDesc`; null furniture as in FindByCategory. */
  function FindByRoomAndFurniture(t: Table, room: string, furniture: Option<string>): (r: seq<Item>)
    requires WellKeyed(t.rows)
    ensures forall x :: x in r <==> InTable(t.rows, x) && x.room == Some(room) && x.furniture == furniture
    ensures Distinct(r) && NewestFirst(r)
  {
    Matching(t, (it: Item) => it.room == Some(room) && it.furniture == furniture)
  }

  /** The keyword has none of `LIKE`'s special characters (the wildcards `%`
      and `_`, and the escape `\`), so `LIKE %k%` is plain containment. */
  predicate NoWildcards(keyword: string) {
    '%' !in keyword && '_' !in keyword && '\\' !in keyword
  }

  /** `name LIKE %k% OR description LIKE %k%`; a null column matches nothing. */
  predicate MatchesKeyword(it: Item, keyword: string) {
    || (it.name.Some? && Contains(it.name.value, keyword))
    || (it.description.Some? && Contains(it.description.value, keyword))
  }

  /** `searchByKeyword`. */
  function SearchByKeyword(t: Table, keyword: string): (r: seq<Item>)
    requires WellKeyed(t.rows)
    requires NoWildcards(keyword)
    ensures forall x :: x in r <==>
      && InTable(t.rows, x)
      && ((x.name.Some? && Occurs(x.name.value, keyword)) ||
          (x.description.Some? && Occurs(x.description.value, keyword)))
    ensures Distinct(r) && NewestFirst(r)
  {
    Matching(t, (it: Item) => MatchesKeyword(it, keyword))
  }

  /** `findByFavoriteTrueOrderByUpdatedAtDesc`. */
  function FindFavorites(t: Table): (r: seq<Item>)
    requires WellKeyed(t.rows)
    ensures forall x :: x in r <==> InTable(t.rows, x) && x.favorite
    ensures Distinct(r) && NewestFirst(r)
  {
    Matching(t, (it: Item) => it.favorite)
  }

  /** The non-null values `f` gives on the elements of `s`. */
  function Project(s: seq<Item>, f: Item -> Option<string>): (r: seq<string>)
    ensures forall v :: v in r <==> exists i | 0 <= i < |s| :: f(s[i]) == Some(v)
  {
    if |s| == 0 then []
    else
      var rest := Project(s[1..], f);
      assert forall v :: (exists i | 0 <= i < |s| - 1 :: f(s[1..][i]) == Some(v))
                     <==> (exists i | 1 <= i < |s| :: f(s[i]) == Some(v)) by {
        forall v | exists i | 1 <= i < |s| :: f(s[i]) == Some(v)
          ensures exists i | 0 <= i < |s| - 1 :: f(s[1..][i]) == Some(v)
        {
          var i :| 1 <= i < |s| && f(s[i]) == Some(v);
          assert f(s[1..][i - 1]) == Some(v);
        }
      }
      (match f(s[0]) case Some(v) => [v] case None => []) + rest
  }

  /** The non-null values `f` gives on the rows, each once, ascending. */
  function DistinctValues(t: Table, f: Item -> Option<string>): (r: seq<string>)
    ensures StrictlyAscending(r) && Distinct(r)
    ensures forall v :: v in r <==> exists k | k in t.rows :: f(t.rows[k]) == Some(v)
  {
    var rows := Rows(t.rows);
    var r := SortedDistinct(Project(rows, f));
    AscendingIsDistinct(r);
    assert forall v :: v in r <==> exists k | k in t.rows :: f(t.rows[k]) == Some(v) by {
      forall v | v in r ensures exists k | k in t.rows :: f(t.rows[k]) == Some(v) {
        var i :| 0 <= i < |rows| && f(rows[i]) == Some(v);
        assert InTable(t.rows, rows[i]);
        var k :| k in t.rows && t.rows[k] == rows[i];
      }
      forall v | exists k | k in t.rows :: f(t.rows[k]) == Some(v) ensures v in r {
        var k :| k in t.rows && f(t.rows[k]) == Some(v);
        assert InTable(t.rows, t.rows[k]);
        var i :| 0 <= i < |rows| && rows[i] == t.rows[k];
      }
    }
    r
  }

  /** `findAllRooms`: every room in the table exactly once, ascending. */
  function FindAllRooms(t: Table): (r: seq<string>)
    ensures StrictlyAscending(r) && Distinct(r)
    ensures forall v :: v in r <==> exists k | k in t.rows :: t.rows[k].room == Some(v)
  {
    DistinctValues(t, (it: Item) => it.room)
  }

  /** `findFurnitureByRoom`: the non-null furniture values of the rows in
      `room`, each once, ascending; the empty string is a value like any other. */
  function FindFurnitureByRoom(t: Table, room: string): (r: seq<string>)
    ensures StrictlyAscending(r) && Distinct(r)
    ensures forall v :: v in r <==>
      exists k | k in t.rows :: t.rows[k].room == Some(room) && t.rows[k].furniture == Some(v)
  {
    DistinctValues(t, (it: Item) => if it.room == Some(room) then it.furniture else None)
  }

  /** The `5` of `findTop5ByOrderByViewCountDesc`. */
  const POPULAR_LIMIT: nat := 5

  lemma PrefixDominates(s: seq<Item>, n: nat, key: Item -> int)
    requires NonIncreasing(s, key) && n <= |s|
    ensures forall x, y | x in s && x !in s[..n] && y in s[..n] :: key(x) <= key(y)
  {
    forall x, y | x in s && x !in s[..n] && y in s[..n] ensures key(x) <= key(y) {
      var j :| 0 <= j < |s| && s[j] == x;
      var i :| 0 <= i < n && s[..n][i] == y;
    }
  }

  /** The first `n` of a non-increasing, duplicate-free permutation of `rows`. */
  lemma TopOfSorted(rows: seq<Item>, sorted: seq<Item>, n: nat, key: Item -> int)
    requires multiset(sorted) == multiset(rows) && Distinct(rows)
    requires NonIncreasing(sorted, key) && n <= |sorted|
    ensures Distinct(sorted[..n]) && NonIncreasing(sorted[..n], key)
    ensures forall x | x in sorted[..n] :: x in rows
    ensures forall x, y | x in rows && x !in sorted[..n] && y in sorted[..n] :: key(x) <= key(y)
  {
    PermutationKeepsDistinct(rows, sorted);
    assert forall x :: x in sorted <==> x in multiset(rows);
    assert forall x | x in sorted[..n] :: x in sorted;
    PrefixDominates(sorted, n, key);
  }

  /** `findTop5ByOrderByViewCountDesc`: as many rows as there are, up to five,
      most viewed first, and no row left out was viewed more often than a row
      returned. Ties go to the lower id. */
  function FindTop5ByViewCount(t: Table): (r: seq<Item>)
    requires WellKeyed(t.rows)
    ensures |r| == if |t.rows| < POPULAR_LIMIT then |t.rows| else POPULAR_LIMIT
    ensures forall x | x in r :: InTable(t.rows, x)
    ensures Distinct(r) && NonIncreasing(r, ByViewCount)
    ensures forall x, y | InTable(t.rows, x) && x !in r && y in r :: x.viewCount <= y.viewCount
  {
    var rows := Rows(t.rows);
    var sorted := SortDesc(rows, ByViewCount);
    var n := if |sorted| < POPULAR_LIMIT then |sorted| else POPULAR_LIMIT;
    TopOfSorted(rows, sorted, n, ByViewCount);
    var top := sorted[..n];
    assert forall x | x in top :: InTable(t.rows, x);
    assert forall x, y | InTable(t.rows, x) && x !in top && y in top :: x.viewCount <= y.viewCount by {
      forall x, y | InTable(t.rows, x) && x !in top && y in top ensures x.viewCount <= y.viewCount {
        assert x in rows;
        assert ByViewCount(x) <= ByViewCount(y);
      }
    }
    top
  }

  // ---------------------------------------------------------------------------
  // The repository object

  /** The repository: the table held in place. */
  class ItemStore {
    var rows: map<int, Item>
    var nextId: int
    var clock: nat

    /** The table this object holds. */
    function State(): Table
      reads this
    {
      Table(rows, nextId, clock)
    }

    ghost predicate Valid()
      reads this
    {
      Inv(State())
    }

    constructor ()
      ensures Valid() && State() == EMPTY
    {
      rows, nextId, clock := map[], 1, 0;
    }

    function FindById(id: int): (r: Option<Item>)
      reads this
      ensures r == Lookup(State(), id)
    {
      if id in rows then Some(rows[id]) else None
    }

    method Save(item: Item) returns (r: Result<Item>)
      requires Valid()
      modifies this
      ensures Valid()
      ensures (State(), r) == SaveSpec(old(State()), item)
    {
      var now := clock + 1;
      if item.id.None? {
        var saved := item.SetId(Some(nextId)).SetCreatedAt(Some(now)).SetUpdatedAt(Some(now));
        if !Storable(saved) {
          return Failure(ConstraintViolation);
        }
        rows := rows[nextId := saved];
        nextId := nextId + 1;
        clock := now;
        r := Success(saved);
      } else {
        var k := item.id.value;
        if k !in rows {
          return Failure(NotFound);
        }
        var saved := item.SetCreatedAt(rows[k].createdAt).SetUpdatedAt(Some(now));
        if !Storable(saved) {
          return Failure(ConstraintViolation);
        }
        rows := rows[k := saved];
        clock := now;
        r := Success(saved);
      }
    }

    method DeleteById(id: int)
      requires Valid()
      modifies this
      ensures Valid()
      ensures State() == DeleteSpec(old(State()), id)
    {
      if id in rows {
        rows := rows - {id};
      }
    }
  }
}
