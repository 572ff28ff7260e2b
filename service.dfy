/** The catalog service: image references, create/update/delete, the
    favourite flag, the view counter, the read pass-throughs and the stats.
    Each state-changing operation has a specification over `Table`
    (`...Spec`) and an `ItemService` method that performs the source's own
    steps on the repository object (load, setters and save, where the source
    has them). */
module Service {
  import opened Base
  import opened Entity
  import opened Text
  import opened Repository

  // ---------------------------------------------------------------------------
  // Image references

  /** An uploaded file as the service sees it: only its original file name
      (which a multipart upload may leave null). The content is written to
      disk by an effect outside this model. */
  datatype Upload = Upload(originalFilename: Option<string>)

  /** The public prefix of every stored image. */
  const UPLOAD_PREFIX: string := "/uploads/"

  /** Java's string concatenation writes a null reference as "null". */
  function NameText(name: Option<string>): string {
    match name
    case Some(s) => s
    case None => "null"
  }

  /** The reference of one stored file: prefix, random token, `_`, original name. */
  function ImageRef(token: string, file: Upload): string {
    UPLOAD_PREFIX + token + "_" + NameText(file.originalFilename)
  }

  /** The references of the uploaded files, in upload order; `tokens[i]` is
      the random token drawn for file `i`. */
  function ImageRefs(files: seq<Upload>, tokens: seq<string>): (refs: seq<string>)
    requires |tokens| == |files|
    ensures |refs| == |files|
    ensures forall i | 0 <= i < |files| :: refs[i] == ImageRef(tokens[i], files[i])
  {
    seq(|files|, i requires 0 <= i < |files| => ImageRef(tokens[i], files[i]))
  }

  /** What the builder holds after the first `i` of the references: those
      references joined, followed by a comma while more are to come. */
  ghost function Built(refs: seq<string>, i: nat): string
    requires i <= |refs|
  {
    if i == 0 then ""
    else if i < |refs| then JoinCommas(refs[..i]) + ","
    else JoinCommas(refs)
  }

  /** One round of the builder loop appends the next reference and, unless it
      was the last, a comma. */
  lemma BuiltStep(refs: seq<string>, i: nat)
    requires i < |refs|
    ensures Built(refs, i + 1) == Built(refs, i) + refs[i] + (if i < |refs| - 1 then "," else "")
  {
    assert refs[..i] + [refs[i]] == refs[..i + 1];
    assert refs[..|refs|] == refs;
    if i > 0 {
      JoinAppend(refs[..i], refs[i]);
    }
  }

  /** `saveImages`: appends each reference and, between references, a comma. */
  method SaveImages(files: seq<Upload>, tokens: seq<string>) returns (paths: string)
    requires |tokens| == |files|
    ensures paths == JoinCommas(ImageRefs(files, tokens))
  {
    ghost var refs := ImageRefs(files, tokens);
    paths := "";
    var i := 0;
    while i < |files|
      invariant 0 <= i <= |files|
      invariant paths == Built(refs, i)
    {
      var filename := tokens[i] + "_" + NameText(files[i].originalFilename);
      BuiltStep(refs, i);
      assert UPLOAD_PREFIX + filename == refs[i];
      paths := paths + UPLOAD_PREFIX + filename;
      if i < |files| - 1 {
        paths := paths + ",";
      }
      i := i + 1;
    }
  }

  /** A reference list holds no comma when no token and no file name does. */
  lemma RefsHaveNoComma(files: seq<Upload>, tokens: seq<string>)
    requires |tokens| == |files|
    requires forall i | 0 <= i < |files| :: ',' !in tokens[i] && ',' !in NameText(files[i].originalFilename)
    ensures forall p | p in ImageRefs(files, tokens) :: ',' !in p
  {
    var refs := ImageRefs(files, tokens);
    forall p | p in refs ensures ',' !in p {
      var i :| 0 <= i < |refs| && refs[i] == p;
      var name := NameText(files[i].originalFilename);
      assert p == UPLOAD_PREFIX + tokens[i] + "_" + name;
      assert ',' !in UPLOAD_PREFIX;
      forall c | c in p ensures c != ',' {
        var j :| 0 <= j < |p| && p[j] == c;
        if j < |UPLOAD_PREFIX| {
          assert c == UPLOAD_PREFIX[j];
        } else if j < |UPLOAD_PREFIX| + |tokens[i]| {
          assert c == tokens[i][j - |UPLOAD_PREFIX|];
        } else if j == |UPLOAD_PREFIX| + |tokens[i]| {
          assert c == '_';
        } else {
          assert c == name[j - |UPLOAD_PREFIX| - |tokens[i]| - 1];
        }
      }
    }
  }

  /** The `images` column written for n >= 1 files splits back, at its commas,
      into exactly the n references in upload order, as long as no token and
      no original file name contains a comma. */
  lemma ImagesSplitBack(files: seq<Upload>, tokens: seq<string>)
    requires |tokens| == |files| >= 1
    requires forall i | 0 <= i < |files| :: ',' !in tokens[i] && ',' !in NameText(files[i].originalFilename)
    ensures SplitCommas(JoinCommas(ImageRefs(files, tokens))) == ImageRefs(files, tokens)
  {
    RefsHaveNoComma(files, tokens);
    SplitJoin(ImageRefs(files, tokens));
  }

  /** `images != null && !images.isEmpty()`. */
  predicate HasFiles(images: Option<seq<Upload>>) {
    images.Some? && |images.value| > 0
  }

  /** The `images` value after an upload: the joined references when files
      arrived, the item's own value otherwise. */
  function WithUploads(item: Item, images: Option<seq<Upload>>, tokens: seq<string>): (r: Item)
    requires images.Some? ==> |tokens| == |images.value|
    ensures SameExcept(item, r, {Images})
    ensures HasFiles(images) ==> r.images == Some(JoinCommas(ImageRefs(images.value, tokens)))
    ensures !HasFiles(images) ==> r == item
  {
    if HasFiles(images) then item.SetImages(Some(JoinCommas(ImageRefs(images.value, tokens))))
    else item
  }

  // ---------------------------------------------------------------------------
  // Specifications of the state-changing operations

  /** `createItem`: sets `images` from the uploads, if any, then saves. */
  function CreateItemSpec(t: Table, item: Item, images: Option<seq<Upload>>, tokens: seq<string>): (r: (Table, Result<Item>))
    requires images.Some? ==> |tokens| == |images.value|
    ensures r.1.Failure? ==> r.0 == t
    ensures item.id.None? ==> (r.1.Success? <==> Storable(WithUploads(item, images, tokens)))
    ensures r.1.Success? ==>
      && SameExcept(item, r.1.value, {Id, Images, CreatedAt, UpdatedAt})
      && r.1.value.images == (if HasFiles(images) then Some(JoinCommas(ImageRefs(images.value, tokens))) else item.images)
    ensures r.1.Success? ==> r.0.clock == t.clock + 1 && r.1.value.updatedAt == Some(r.0.clock)
    ensures r.1.Success? && item.id.None? ==>
      && r.1.value.id == Some(t.nextId)
      && r.1.value.createdAt == r.1.value.updatedAt
      && r.0.rows == t.rows[t.nextId := r.1.value]
      && r.0.nextId == t.nextId + 1
    ensures item.id.None? && r.1.Failure? ==> r.1.error == ConstraintViolation
    ensures r.1.Success? && item.id.Some? ==>
      && item.id.value in t.rows
      && r.1.value.id == item.id
      && r.0.rows == t.rows[item.id.value := r.1.value]
    ensures Inv(t) ==> Inv(r.0)
  {
    SaveSpec(t, WithUploads(item, images, tokens))
  }

  /** The seven fields `updateItem` copies from the submitted item, nulls included. */
  function CopyDetails(existing: Item, draft: Item): (r: Item)
    ensures r.name == draft.name && r.description == draft.description && r.room == draft.room
    ensures r.furniture == draft.furniture && r.location == draft.location
    ensures r.category == draft.category && r.tags == draft.tags
    ensures SameExcept(existing, r, {Name, Description, Room, Furniture, Location, Category, Tags})
  {
    existing.SetName(draft.name).SetDescription(draft.description).SetRoom(draft.room)
      .SetFurniture(draft.furniture).SetLocation(draft.location).SetCategory(draft.category)
      .SetTags(draft.tags)
  }

  /** `updateItem`: loads the row, overwrites seven fields from `draft`,
      replaces `images` only when files arrive, and saves. */
  function UpdateItemSpec(t: Table, id: int, draft: Item, images: Option<seq<Upload>>, tokens: seq<string>): (r: (Table, Result<Item>))
    requires images.Some? ==> |tokens| == |images.value|
    ensures id !in t.rows ==> r == (t, Failure(NotFound))
    ensures r.1.Failure? ==> r.0 == t
    ensures Inv(t) && id in t.rows && r.1.Failure? ==> r.1.error == ConstraintViolation
    ensures Inv(t) && id in t.rows ==>
      (r.1.Success? <==> Storable(WithUploads(CopyDetails(t.rows[id], draft), images, tokens)))
    ensures Inv(t) && r.1.Success? ==>
      && id in t.rows
      && r.0.rows == t.rows[id := r.1.value]
      && r.0.nextId == t.nextId
      && r.0.clock == t.clock + 1
    ensures Inv(t) && r.1.Success? ==>
      var before := t.rows[id];
      var after := r.1.value;
      && after.name == draft.name && after.description == draft.description
      && after.room == draft.room && after.furniture == draft.furniture
      && after.location == draft.location && after.category == draft.category
      && after.tags == draft.tags
      && after.id == before.id && after.favorite == before.favorite
      && after.viewCount == before.viewCount && after.createdAt == before.createdAt
      && after.images == (if HasFiles(images) then Some(JoinCommas(ImageRefs(images.value, tokens))) else before.images)
      && after.updatedAt == Some(r.0.clock)
    ensures Inv(t) ==> Inv(r.0)
  {
    match Lookup(t, id)
    case None => (t, Failure(NotFound))
    case Some(existing) => SaveSpec(t, WithUploads(CopyDetails(existing, draft), images, tokens))
  }

  /** `toggleFavorite`: loads the row, sets `favorite`, saves. */
  function ToggleFavoriteSpec(t: Table, id: int, favorite: bool): (r: (Table, Result<Item>))
    ensures id !in t.rows ==> r == (t, Failure(NotFound))
    ensures r.1.Failure? ==> r.0 == t
    ensures Inv(t) && id in t.rows ==>
      && r.1.Success?
      && r.1.value.favorite == favorite
      && SameExcept(t.rows[id], r.1.value, {Favorite, UpdatedAt})
      && r.1.value.updatedAt == Some(r.0.clock)
      && r.0.rows == t.rows[id := r.1.value]
      && r.0.nextId == t.nextId && r.0.clock == t.clock + 1
    ensures Inv(t) ==> Inv(r.0)
  {
    match Lookup(t, id)
    case None => (t, Failure(NotFound))
    case Some(existing) => SaveSpec(t, existing.SetFavorite(favorite))
  }

  /** `incrementViewCount`: loads the row, adds one to `viewCount` in Java
      `int` arithmetic, saves. */
  function IncrementViewCountSpec(t: Table, id: int): (r: (Table, Outcome))
    ensures id !in t.rows ==> r == (t, Fail(NotFound))
    ensures r.1.Fail? ==> r.0 == t
    ensures Inv(t) && id in t.rows ==>
      && r.1 == Pass
      && id in r.0.rows
      && r.0.rows == t.rows[id := r.0.rows[id]]
      && r.0.rows[id].viewCount == Inc32(t.rows[id].viewCount)
      && SameExcept(t.rows[id], r.0.rows[id], {ViewCount, UpdatedAt})
      && r.0.rows[id].updatedAt == Some(r.0.clock)
      && r.0.nextId == t.nextId && r.0.clock == t.clock + 1
    ensures Inv(t) && id in t.rows && t.rows[id].viewCount as int < INT32_MAX ==>
      r.0.rows[id].viewCount as int == t.rows[id].viewCount as int + 1
    ensures Inv(t) ==> Inv(r.0)
  {
    match Lookup(t, id)
    case None => (t, Fail(NotFound))
    case Some(existing) =>
      var saved := SaveSpec(t, existing.SetViewCount(Inc32(existing.viewCount)));
      (saved.0, if saved.1.Success? then Pass else Fail(saved.1.error))
  }

  // ---------------------------------------------------------------------------
  // Reads

  /** `getItem`. */
  function GetItem(t: Table, id: int): (r: Result<Item>)
    ensures r.Success? <==> id in t.rows
    ensures r.Success? ==> r.value == t.rows[id]
    ensures r.Failure? ==> r.error == NotFound
  {
    match Lookup(t, id)
    case Some(item) => Success(item)
    case None => Failure(NotFound)
  }

  /** `getAllItems`. */
  function GetAllItems(t: Table): (r: seq<Item>)
    requires WellKeyed(t.rows)
    ensures |r| == |t.rows| && Distinct(r)
    ensures forall x :: x in r <==> InTable(t.rows, x)
  {
    FindAll(t)
  }

  /** `getItemsByRoom`. */
  function GetItemsByRoom(t: Table, room: string): (r: seq<Item>)
    requires WellKeyed(t.rows)
    ensures forall x :: x in r <==> InTable(t.rows, x) && x.room == Some(room)
    ensures Distinct(r) && NewestFirst(r)
  {
    FindByRoom(t, room)
  }

  /** `searchItems`. */
  function SearchItems(t: Table, keyword: string): (r: seq<Item>)
    requires WellKeyed(t.rows)
    requires NoWildcards(keyword)
    ensures forall x :: x in r <==>
      && InTable(t.rows, x)
      && ((x.name.Some? && Occurs(x.name.value, keyword)) ||
          (x.description.Some? && Occurs(x.description.value, keyword)))
    ensures Distinct(r) && NewestFirst(r)
  {
    SearchByKeyword(t, keyword)
  }

  /** `getAllRooms`. */
  function GetAllRooms(t: Table): (r: seq<string>)
    ensures StrictlyAscending(r) && Distinct(r)
    ensures forall v :: v in r <==> exists k | k in t.rows :: t.rows[k].room == Some(v)
  {
    FindAllRooms(t)
  }

  /** `getFurnitureByRoom`. */
  function GetFurnitureByRoom(t: Table, room: string): (r: seq<string>)
    ensures StrictlyAscending(r) && Distinct(r)
    ensures forall v :: v in r <==>
      exists k | k in t.rows :: t.rows[k].room == Some(room) && t.rows[k].furniture == Some(v)
  {
    FindFurnitureByRoom(t, room)
  }

  /** `getFavoriteItems`. */
  function GetFavoriteItems(t: Table): (r: seq<Item>)
    requires WellKeyed(t.rows)
    ensures forall x :: x in r <==> InTable(t.rows, x) && x.favorite
    ensures Distinct(r) && NewestFirst(r)
  {
    FindFavorites(t)
  }

  /** `getPopularItems`. */
  function GetPopularItems(t: Table): (r: seq<Item>)
    requires WellKeyed(t.rows)
    ensures |r| <= POPULAR_LIMIT && |r| == if |t.rows| < POPULAR_LIMIT then |t.rows| else POPULAR_LIMIT
    ensures forall x | x in r :: InTable(t.rows, x)
    ensures Distinct(r) && NonIncreasing(r, ByViewCount)
    ensures forall x, y | InTable(t.rows, x) && x !in r && y in r :: x.viewCount <= y.viewCount
  {
    FindTop5ByViewCount(t)
  }

  /** The statistics the web layer reports: the number of items and the room list. */
  datatype Stats = Stats(totalItems: int, rooms: seq<string>)

  /** `getStats`: the size of `getAllItems()` paired with `getAllRooms()`. */
  function GetStats(t: Table): (s: Stats)
    requires WellKeyed(t.rows)
    ensures s.totalItems == |t.rows|
    ensures StrictlyAscending(s.rooms)
    ensures forall v :: v in s.rooms <==> exists k | k in t.rows :: t.rows[k].room == Some(v)
  {
    Stats(|GetAllItems(t)|, GetAllRooms(t))
  }

  // ---------------------------------------------------------------------------
  // Properties across operations

  /** After `deleteItem(id)`, `getItem(id)` fails with NotFound, and every
      other id reads as before. */
  lemma DeleteThenGet(t: Table, id: int)
    ensures GetItem(DeleteSpec(t, id), id) == Failure(NotFound)
    ensures forall k | k != id :: GetItem(DeleteSpec(t, id), k) == GetItem(t, k)
  {
  }

  /** The item the web form submits: a new Item with the seven form fields set. */
  function FormItem(name: Option<string>, description: Option<string>, room: Option<string>,
                    furniture: Option<string>, location: Option<string>, category: Option<string>,
                    tags: Option<string>): (r: Item)
    ensures r.id.None? && !r.favorite && r.viewCount == 0 && r.images.None?
    ensures r.name == name && r.description == description && r.room == room
    ensures r.furniture == furniture && r.location == location
    ensures r.category == category && r.tags == tags
  {
    NewItem().SetName(name).SetDescription(description).SetRoom(room).SetFurniture(furniture)
      .SetLocation(location).SetCategory(category).SetTags(tags)
  }

  /** Creating an item from the form and fetching it by the id it was given
      returns the submitted fields, not a favourite, viewed zero times,
      created and updated at the same moment. Without files `images` stays
      null. */
  lemma CreateThenGet(t: Table, name: string, description: Option<string>, room: string,
                      furniture: Option<string>, location: Option<string>, category: Option<string>,
                      tags: Option<string>, images: Option<seq<Upload>>, tokens: seq<string>)
    requires Inv(t)
    requires images.Some? ==> |tokens| == |images.value|
    requires Storable(WithUploads(FormItem(Some(name), description, Some(room), furniture, location, category, tags), images, tokens))
    ensures
      var draft := FormItem(Some(name), description, Some(room), furniture, location, category, tags);
      var (t', r) := CreateItemSpec(t, draft, images, tokens);
      && r.Success?
      && r.value.id == Some(t.nextId)
      && GetItem(t', t.nextId) == Success(r.value)
      && r.value.name == Some(name) && r.value.description == description
      && r.value.room == Some(room) && r.value.furniture == furniture
      && r.value.location == location && r.value.category == category && r.value.tags == tags
      && !r.value.favorite && r.value.viewCount == 0
      && r.value.createdAt == r.value.updatedAt
      && (!HasFiles(images) ==> r.value.images.None?)
  {
    var draft := FormItem(Some(name), description, Some(room), furniture, location, category, tags);
    var (t', r) := CreateItemSpec(t, draft, images, tokens);
    assert draft.Get(Favorite) == r.value.Get(Favorite);
    assert draft.Get(ViewCount) == r.value.Get(ViewCount);
  }

  /** In a newest-first list, an element updated later than every other
      element comes first. */
  lemma NewestIsHead(list: seq<Item>, item: Item)
    requires NewestFirst(list) && item in list
    requires forall y | y in list :: y == item || ByUpdatedAt(y) < ByUpdatedAt(item)
    ensures list[0] == item
  {
    var j :| 0 <= j < |list| && list[j] == item;
    assert j == 0 || ByUpdatedAt(list[0]) >= ByUpdatedAt(list[j]);
  }

  /** A favourite row updated later than every other row heads the
      favourites list. */
  lemma LatestFavoriteHeads(t: Table, id: int)
    requires WellKeyed(t.rows) && id in t.rows && t.rows[id].favorite
    requires forall k | k in t.rows && k != id :: ByUpdatedAt(t.rows[k]) < ByUpdatedAt(t.rows[id])
    ensures GetFavoriteItems(t)[0] == t.rows[id]
  {
    var item := t.rows[id];
    var list := GetFavoriteItems(t);
    assert InTable(t.rows, item);
    forall y | y in list ensures y == item || ByUpdatedAt(y) < ByUpdatedAt(item) {
      var k :| k in t.rows && t.rows[k] == y;
    }
    NewestIsHead(list, item);
  }

  /** Marking an item favourite puts it at the head of the favourites list
      (it is now the most recently updated row); unmarking it removes it. */
  lemma ToggleThenFavorites(t: Table, id: int, favorite: bool)
    requires Inv(t) && id in t.rows
    ensures
      var (t', r) := ToggleFavoriteSpec(t, id, favorite);
      && r.Success?
      && (r.value in GetFavoriteItems(t') <==> favorite)
      && (favorite ==> GetFavoriteItems(t')[0] == r.value)
  {
    var (t', r) := ToggleFavoriteSpec(t, id, favorite);
    assert t'.rows[id] == r.value;
    assert InTable(t'.rows, r.value);
    if favorite {
      forall k | k in t'.rows && k != id ensures ByUpdatedAt(t'.rows[k]) < ByUpdatedAt(t'.rows[id]) {
        assert t'.rows[k] == t.rows[k];
      }
      LatestFavoriteHeads(t', id);
    }
  }

  /** The table after `n` calls of `incrementViewCount(id)`. */
  function ViewedTimes(t: Table, id: int, n: nat): Table {
    if n == 0 then t else IncrementViewCountSpec(ViewedTimes(t, id, n - 1), id).0
  }

  /** `n` views, one after another, raise the count by exactly `n` while it
      stays within `Integer` range, touch no other row and no other field of
      this row besides `updatedAt`. */
  lemma {:induction false} RepeatedViews(t: Table, id: int, n: nat)
    requires Inv(t) && id in t.rows
    requires t.rows[id].viewCount as int + n <= INT32_MAX
    ensures
      var t' := ViewedTimes(t, id, n);
      && Inv(t')
      && id in t'.rows
      && t'.rows[id].viewCount as int == t.rows[id].viewCount as int + n
      && SameExcept(t.rows[id], t'.rows[id], {ViewCount, UpdatedAt})
      && t'.rows.Keys == t.rows.Keys
      && (forall k | k in t.rows && k != id :: t'.rows[k] == t.rows[k])
  {
    if n > 0 {
      RepeatedViews(t, id, n - 1);
      var mid := ViewedTimes(t, id, n - 1);
      var t' := ViewedTimes(t, id, n);
      assert t' == IncrementViewCountSpec(mid, id).0;
      forall f: Field | f !in {ViewCount, UpdatedAt}
        ensures t.rows[id].Get(f) == t'.rows[id].Get(f)
      {
        assert t.rows[id].Get(f) == mid.rows[id].Get(f);
      }
    }
  }

  // ---------------------------------------------------------------------------
  // The service object

  /** The service over one repository. */
  class ItemService {
    const store: ItemStore

    constructor (store: ItemStore)
      ensures this.store == store
    {
      this.store := store;
    }

    ghost predicate Valid()
      reads this, store
    {
      store.Valid()
    }

    method CreateItem(item: Item, images: Option<seq<Upload>>, tokens: seq<string>) returns (r: Result<Item>)
      requires Valid()
      requires images.Some? ==> |tokens| == |images.value|
      modifies store
      ensures Valid()
      ensures (store.State(), r) == CreateItemSpec(old(store.State()), item, images, tokens)
    {
      var draft := item;
      if images.Some? && |images.value| > 0 {
        var paths := SaveImages(images.value, tokens);
        draft := draft.SetImages(Some(paths));
      }
      r := store.Save(draft);
    }

    method UpdateItem(id: int, item: Item, images: Option<seq<Upload>>, tokens: seq<string>) returns (r: Result<Item>)
      requires Valid()
      requires images.Some? ==> |tokens| == |images.value|
      modifies store
      ensures Valid()
      ensures (store.State(), r) == UpdateItemSpec(old(store.State()), id, item, images, tokens)
    {
      var found := store.FindById(id);
      if found.None? {
        return Failure(NotFound);
      }
      var existing := found.value;
      existing := existing.SetName(item.name);
      existing := existing.SetDescription(item.description);
      existing := existing.SetRoom(item.room);
      existing := existing.SetFurniture(item.furniture);
      existing := existing.SetLocation(item.location);
      existing := existing.SetCategory(item.category);
      existing := existing.SetTags(item.tags);
      if images.Some? && |images.value| > 0 {
        var paths := SaveImages(images.value, tokens);
        existing := existing.SetImages(Some(paths));
      }
      r := store.Save(existing);
    }

    method DeleteItem(id: int)
      requires Valid()
      modifies store
      ensures Valid()
      ensures store.State() == DeleteSpec(old(store.State()), id)
    {
      store.DeleteById(id);
    }

    method ToggleFavorite(id: int, favorite: bool) returns (r: Result<Item>)
      requires Valid()
      modifies store
      ensures Valid()
      ensures (store.State(), r) == ToggleFavoriteSpec(old(store.State()), id, favorite)
    {
      var found := store.FindById(id);
      if found.None? {
        return Failure(NotFound);
      }
      var item := found.value.SetFavorite(favorite);
      r := store.Save(item);
    }

    method IncrementViewCount(id: int) returns (r: Outcome)
      requires Valid()
      modifies store
      ensures Valid()
      ensures (store.State(), r) == IncrementViewCountSpec(old(store.State()), id)
    {
      var found := store.FindById(id);
      if found.None? {
        return Fail(NotFound);
      }
      var item := found.value;
      item := item.SetViewCount(Inc32(item.viewCount));
      var saved := store.Save(item);
      r := if saved.Success? then Pass else Fail(saved.error);
    }
  }
}
