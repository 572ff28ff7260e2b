# Home inventory: the item catalog

This project models the item catalog of the home-inventory backend. It covers:

- the `Item` record, with its defaults, column constraints and setters;
- the `items` table behind `ItemRepository`, with `save`, `findById`, `deleteById`, `findAll` and the eight declared queries;
- the `ItemService` operations: create, update, delete and get, the favourite flag, the view counter, and the read pass-throughs;
- the `saveImages` builder of the comma-separated `images` column;
- the `getStats` summary that the web layer computes.

Files:

- `base.dfy` (`Base`): nullable references as `Option`, the two failure kinds, Java's 32-bit `int` with its wrap-around on `+ 1`.
- `entity.dfy` (`Entity`): `Item` as a value. Each Java setter is a member function `SetX` that changes exactly one field. `Storable` states the column constraints.
- `text.dfy` (`Text`): substring containment (`LIKE %k%`), a binary string order (`ORDER BY` on text), the sorted de-duplicating collector (`SELECT DISTINCT`), and the comma join/split of `images`.
- `repository.dfy` (`Repository`): the table as a value `Table(rows, nextId, clock)` with its invariant `Inv`, and the specifications `SaveSpec` and `DeleteSpec`. The queries are functions of the table. The class `ItemStore` holds the table in place; its `Save` and `DeleteById` are proved to implement the specifications.
- `service.dfy` (`Service`): specifications of the service operations over `Table`, the read pass-throughs, `GetStats`, and the class `ItemService`. Each method of `ItemService` runs the source's own steps on an `ItemStore` (load, setters and save, where the source has them) and is proved equal to its specification.

How the source's runtime is represented:

- A `null` String is `None`.
- The thrown `RuntimeException("物品不存在")` is `Failure(NotFound)`.
- A row the database refuses is `Failure(ConstraintViolation)`, and the table stays unchanged.
- The timestamps are a logical clock. Every successful `save` advances it by one. `createdAt` is set once on insert, and `updatedAt` on every save.
- `UUID.randomUUID()` becomes a `tokens` parameter, one token per uploaded file.
- The file writes are not modelled (see "## Left out").
- Rows are listed in ascending id order before a query filters and sorts them. `SortDesc` is a stable insertion sort, so rows with equal keys keep ascending id order.

Where the code and its description differ, the code is followed:

- `name` and `room` are only NOT NULL. The empty string is accepted.
- The keyword search has no `LOWER()`. The model matches case-sensitively; the database may not, depending on its collation (see "## Left out").

## Model

| member | source | states |
|---|---|---|
| Base.Inc32 | backend/src/main/java/com/homeinventory/service/ItemService.java:147 | Java `int` `+ 1`: exactly one more below 2^31-1, wraps to -2^31 at the top |
| Entity.NewItem | backend/src/main/java/com/homeinventory/entity/Item.java:14-78 | a new Item has no id, no stamps, every text field null, `favorite = false`, `viewCount = 0` |
| Entity.Item.SetId | backend/src/main/java/com/homeinventory/entity/Item.java:86-88 | sets `id` and leaves every other field unchanged |
| Entity.Item.SetName | backend/src/main/java/com/homeinventory/entity/Item.java:94-96 | sets `name` and leaves every other field unchanged |
| Entity.Item.SetDescription | backend/src/main/java/com/homeinventory/entity/Item.java:102-104 | sets `description` and leaves every other field unchanged |
| Entity.Item.SetImages | backend/src/main/java/com/homeinventory/entity/Item.java:110-112 | sets `images` and leaves every other field unchanged |
| Entity.Item.SetRoom | backend/src/main/java/com/homeinventory/entity/Item.java:118-120 | sets `room` and leaves every other field unchanged |
| Entity.Item.SetFurniture | backend/src/main/java/com/homeinventory/entity/Item.java:126-128 | sets `furniture` and leaves every other field unchanged |
| Entity.Item.SetLocation | backend/src/main/java/com/homeinventory/entity/Item.java:134-136 | sets `location` and leaves every other field unchanged |
| Entity.Item.SetCategory | backend/src/main/java/com/homeinventory/entity/Item.java:142-144 | sets `category` and leaves every other field unchanged |
| Entity.Item.SetTags | backend/src/main/java/com/homeinventory/entity/Item.java:150-152 | sets `tags` and leaves every other field unchanged |
| Entity.Item.SetCreatedAt | backend/src/main/java/com/homeinventory/entity/Item.java:158-160 | sets `createdAt` and leaves every other field unchanged |
| Entity.Item.SetUpdatedAt | backend/src/main/java/com/homeinventory/entity/Item.java:166-168 | sets `updatedAt` and leaves every other field unchanged |
| Entity.Item.SetFavorite | backend/src/main/java/com/homeinventory/entity/Item.java:174-176 | sets `favorite` and leaves every other field unchanged |
| Entity.Item.SetViewCount | backend/src/main/java/com/homeinventory/entity/Item.java:182-184 | sets `viewCount` and leaves every other field unchanged |
| Text.Contains | backend/src/main/java/com/homeinventory/repository/ItemRepository.java:22 | the scan answers true exactly when the keyword occurs as a contiguous substring |
| Text.LessTotal | backend/src/main/java/com/homeinventory/repository/ItemRepository.java:38 | the string order ranks any two different strings, so `ORDER BY` on text is a total order |
| Text.LessTransitive | backend/src/main/java/com/homeinventory/repository/ItemRepository.java:38 | the string order is transitive |
| Text.SortedDistinct | backend/src/main/java/com/homeinventory/repository/ItemRepository.java:38 | `SELECT DISTINCT … ORDER BY`: strictly ascending, so each value occurs once, and it holds exactly the input's values |
| Text.SplitJoin | backend/src/main/java/com/homeinventory/entity/Item.java:32-36 | splitting the comma-separated list at its commas gives back the entries, in order, when no entry contains a comma |
| Repository.EmptyInv | backend/src/main/java/com/homeinventory/repository/ItemRepository.java:12 | the empty table satisfies the table invariant |
| Repository.Lookup | backend/src/main/java/com/homeinventory/repository/ItemRepository.java:12 | `findById` finds a row exactly when the id is a key; under the invariant the row carries that id and has a name and a room |
| Repository.SaveSpec | backend/src/main/java/com/homeinventory/repository/ItemRepository.java:12 | `save`: without an id it inserts under a fresh id above every key, stamping createdAt = updatedAt = now; with a present id it replaces that row only, keeping its createdAt; an absent id gives NotFound; a row breaking the constraints gives ConstraintViolation; every failure leaves the table unchanged; no field beyond id and the stamps differs from the argument; the invariant is preserved |
| Repository.DeleteSpec | backend/src/main/java/com/homeinventory/repository/ItemRepository.java:12 | `deleteById`: the id is absent afterwards, every other id reads as before, the invariant is preserved |
| Repository.PersistedRow | backend/src/main/java/com/homeinventory/entity/Item.java:23-42 | a persisted row has non-null name and room, description ≤ 1000 and images ≤ 2000 characters, createdAt ≤ updatedAt |
| Repository.IdNeverReused | backend/src/main/java/com/homeinventory/entity/Item.java:16-18 | after deleting an id, the next insert is given a different id |
| Repository.Rows | backend/src/main/java/com/homeinventory/repository/ItemRepository.java:12 | listing the table yields every row exactly once and nothing else |
| Repository.SortDesc | backend/src/main/java/com/homeinventory/repository/ItemRepository.java:17 | `ORDER BY … DESC`: a permutation of its input with non-increasing key |
| Repository.FindAll | backend/src/main/java/com/homeinventory/repository/ItemRepository.java:12 | `findAll` returns every row exactly once |
| Repository.FindByRoom | backend/src/main/java/com/homeinventory/repository/ItemRepository.java:17 | exactly the rows whose room equals the argument, each once, updatedAt non-increasing |
| Repository.SearchByKeyword | backend/src/main/java/com/homeinventory/repository/ItemRepository.java:22-23 | exactly the rows whose name or description contains the keyword, each once, updatedAt non-increasing |
| Repository.FindByCategory | backend/src/main/java/com/homeinventory/repository/ItemRepository.java:28 | exactly the rows with that category, each once, updatedAt non-increasing |
| Repository.FindByRoomAndFurniture | backend/src/main/java/com/homeinventory/repository/ItemRepository.java:33 | exactly the rows with that room and that furniture, each once, updatedAt non-increasing |
| Repository.FindAllRooms | backend/src/main/java/com/homeinventory/repository/ItemRepository.java:38-39 | every room present in the table, each exactly once, ascending, and nothing else |
| Repository.FindFurnitureByRoom | backend/src/main/java/com/homeinventory/repository/ItemRepository.java:44-45 | every non-null furniture of a row in that room, each once, ascending, and nothing else |
| Repository.FindFavorites | backend/src/main/java/com/homeinventory/repository/ItemRepository.java:50 | exactly the favourite rows, each once, newest first |
| Repository.FindTop5ByViewCount | backend/src/main/java/com/homeinventory/repository/ItemRepository.java:55 | min(5, table size) distinct rows, viewCount non-increasing, and every row left out has a viewCount no greater than any returned row |
| Repository.ItemStore.constructor | backend/src/main/java/com/homeinventory/repository/ItemRepository.java:12 | a new repository holds the empty table |
| Repository.ItemStore.FindById | backend/src/main/java/com/homeinventory/repository/ItemRepository.java:12 | reads the held table as `Lookup` does |
| Repository.ItemStore.Save | backend/src/main/java/com/homeinventory/repository/ItemRepository.java:12 | updates the held table and returns the result exactly as `SaveSpec` says, keeping the invariant |
| Repository.ItemStore.DeleteById | backend/src/main/java/com/homeinventory/repository/ItemRepository.java:12 | updates the held table exactly as `DeleteSpec` says, keeping the invariant |
| Service.ImageRefs | backend/src/main/java/com/homeinventory/service/ItemService.java:163-167 | one reference per file, in upload order, each `/uploads/` + token + `_` + original name (`null` when absent) |
| Service.SaveImages | backend/src/main/java/com/homeinventory/service/ItemService.java:154-173 | the builder loop yields the references joined by single commas, with no trailing comma |
| Service.ImagesSplitBack | backend/src/main/java/com/homeinventory/service/ItemService.java:160-172 | the `images` string written for n ≥ 1 files splits back into exactly those n references when tokens and names hold no comma |
| Service.WithUploads | backend/src/main/java/com/homeinventory/service/ItemService.java:32-35 | with a non-empty upload list, `images` becomes the joined references; otherwise the item is unchanged |
| Service.CreateItemSpec | backend/src/main/java/com/homeinventory/service/ItemService.java:30-37 | `createItem`: keeps the draft's images without files and sets the joined references with files; a new draft is inserted under the next id exactly when it fits the columns, stamped createdAt = updatedAt = the advanced clock, with the id counter advanced; such a draft that does not fit fails with ConstraintViolation; a draft carrying a present id replaces that row only; every other field is the draft's; failure leaves the table unchanged |
| Service.CopyDetails | backend/src/main/java/com/homeinventory/service/ItemService.java:47-53 | name, description, room, furniture, location, category and tags are copied verbatim, nulls included, and nothing else changes |
| Service.UpdateItemSpec | backend/src/main/java/com/homeinventory/service/ItemService.java:43-62 | `updateItem`: an absent id gives NotFound and an unchanged table; a present id succeeds exactly when the updated row fits the columns, and otherwise gives ConstraintViolation; only that row changes; the seven fields come from the draft; images are replaced only when files arrive; id, favorite, viewCount and createdAt are kept; updatedAt is the new clock |
| Service.ToggleFavoriteSpec | backend/src/main/java/com/homeinventory/service/ItemService.java:133-138 | `toggleFavorite`: an absent id gives NotFound and an unchanged table; otherwise it succeeds, sets favorite and changes nothing else of that row but updatedAt, and no other row |
| Service.IncrementViewCountSpec | backend/src/main/java/com/homeinventory/service/ItemService.java:144-149 | `incrementViewCount`: an absent id gives NotFound and an unchanged table; otherwise viewCount becomes its `int` successor (exactly +1 below 2^31-1), updatedAt becomes the advanced clock, nothing else of the row changes, and no other row |
| Service.GetItem | backend/src/main/java/com/homeinventory/service/ItemService.java:75-78 | `getItem` returns the stored row, or NotFound exactly when the id has no row |
| Service.GetAllItems | backend/src/main/java/com/homeinventory/service/ItemService.java:83-85 | every row exactly once |
| Service.GetItemsByRoom | backend/src/main/java/com/homeinventory/service/ItemService.java:90-92 | exactly the rows of that room, newest first |
| Service.SearchItems | backend/src/main/java/com/homeinventory/service/ItemService.java:97-99 | exactly the rows whose name or description contains the keyword, newest first |
| Service.GetAllRooms | backend/src/main/java/com/homeinventory/service/ItemService.java:104-106 | each room present exactly once, ascending |
| Service.GetFurnitureByRoom | backend/src/main/java/com/homeinventory/service/ItemService.java:111-113 | each non-null furniture of that room exactly once, ascending |
| Service.GetFavoriteItems | backend/src/main/java/com/homeinventory/service/ItemService.java:118-120 | exactly the favourite rows, newest first |
| Service.GetPopularItems | backend/src/main/java/com/homeinventory/service/ItemService.java:125-127 | the at most five most viewed rows, most viewed first |
| Service.GetStats | backend/src/main/java/com/homeinventory/controller/ItemController.java:171-177 | totalItems is the number of rows; rooms lists each room present once, ascending |
| Service.FormItem | backend/src/main/java/com/homeinventory/controller/ItemController.java:39-46 | the draft the web form builds: a new Item carrying the seven submitted fields, no id, no images, not a favourite, viewCount 0 |
| Service.CreateThenGet | backend/src/main/java/com/homeinventory/service/ItemService.java:30-37 | creating from the form and fetching by the new id returns the submitted fields, favorite = false, viewCount = 0, createdAt = updatedAt, and null images when no files came |
| Service.DeleteThenGet | backend/src/main/java/com/homeinventory/service/ItemService.java:67-78 | after `deleteItem(id)`, `getItem(id)` fails with NotFound and every other id reads as before |
| Service.ToggleThenFavorites | backend/src/main/java/com/homeinventory/service/ItemService.java:133-138 | after marking an item favourite it heads the favourites list; after unmarking it, it is not in the list |
| Service.RepeatedViews | backend/src/main/java/com/homeinventory/service/ItemService.java:144-149 | n views in a row raise viewCount by exactly n while it stays within `Integer` range, and change no other row and no other field but updatedAt |
| Service.ItemService.constructor | backend/src/main/java/com/homeinventory/service/ItemService.java:22-24 | the service works on the given repository |
| Service.ItemService.CreateItem | backend/src/main/java/com/homeinventory/service/ItemService.java:30-37 | changes the repository and returns exactly as `CreateItemSpec` says |
| Service.ItemService.UpdateItem | backend/src/main/java/com/homeinventory/service/ItemService.java:43-62 | load, seven setters, optional images, save: exactly `UpdateItemSpec` |
| Service.ItemService.DeleteItem | backend/src/main/java/com/homeinventory/service/ItemService.java:67-70 | changes the repository exactly as `DeleteSpec` says |
| Service.ItemService.ToggleFavorite | backend/src/main/java/com/homeinventory/service/ItemService.java:133-138 | load, set favourite, save: exactly `ToggleFavoriteSpec` |
| Service.ItemService.IncrementViewCount | backend/src/main/java/com/homeinventory/service/ItemService.java:144-149 | load, `int` increment, save: exactly `IncrementViewCountSpec` |

## Left out

- The file system: `saveImages` creates the upload directory and copies each file (ItemService.java:155-158, 165). Those writes and their `IOException` are not modelled. One consequence is not captured: `@Transactional` rolls back only on unchecked exceptions by default. So when `saveImages` throws an `IOException` inside `updateItem` (ItemService.java:57), the transaction still commits. The seven fields already copied into the loaded row (ItemService.java:47-53) are written, and `images` keeps its old value. The model has no such partial update: an update either succeeds whole or leaves the table unchanged.
- Repository.SaveSpec: the logical clock strictly increases on every save. The wall clock behind `@CreationTimestamp`/`@UpdateTimestamp` (Item.java:64-68) can give two saves the same `LocalDateTime.now()`, and it can step back (a DST change or an NTP correction). Repository.PersistedRow's `createdAt <= updatedAt` and Service.ToggleThenFavorites's "heads the list" rely on that strict increase. With a real clock, an equal stamp leaves the order among tied rows to the database, and a backward step can break both.
- The random UUIDs (ItemService.java:163) are the `tokens` parameter. Their uniqueness and format are assumed, not modelled.
- Files already written stay on disk when the following `save` fails, and images replaced by `updateItem` are never deleted. The model has no file system, so it does not capture these orphans.
- Service.ImagesSplitBack: the round trip is proved only for names without a comma. An original file name containing a comma makes the `images` list ambiguous, as the source writes it.
- Repository.SearchByKeyword: requires that the keyword holds no `%`, `_` or `\`, because the model does not give those characters their `LIKE` wildcard meaning. Matching is case-sensitive code-point containment, and database collations that fold case or accents are not modelled.
- Text.Less: `ORDER BY` on text is modelled as code-point order. A database collation may order differently.
- Repository.FindByRoom, Repository.FindByCategory, Repository.FindByRoomAndFurniture, Repository.FindAllRooms and Repository.FindFurnitureByRoom: text `=` (ItemRepository.java:17, 28, 33, 44) and `SELECT DISTINCT` (ItemRepository.java:38, 44) are modelled as exact code-point equality. The database is not named in the source. Under a collation that ignores case, accents or trailing spaces, such as MySQL's default ones, these queries match more rows than the model does, and merge values the model keeps apart. For example, the model's `FindAllRooms` lists both "Kitchen" and "kitchen".
- Repository.SaveSpec: every successful save advances the clock and rewrites `updatedAt`, even when nothing changed. Hibernate's dirty checking, which skips unchanged rows, is not modelled. One consequence: Service.ToggleThenFavorites puts a re-marked favourite at the head of the list, while in the real system marking an item that is already a favourite issues no UPDATE, keeps its `updatedAt`, and need not move it to the head.
- Repository.SaveSpec: a failed insert does not consume an identity value. Some databases skip the value anyway; ids stay unique either way.
- Repository.SaveSpec: saving an item with an id keeps the stored `createdAt`. `updateItem`, `toggleFavorite` and `incrementViewCount` only save rows they have just loaded, so this agrees with Hibernate for those calls.
- Repository.SaveSpec: an item whose id has no row gives NotFound. `JpaRepository.save` merges such an item, and depending on the Hibernate version the merge either inserts it under a fresh identity value or fails with an optimistic-lock error. Service.CreateItemSpec accepts a draft with an id and inherits this. The service never reaches the case through the web layer, because the controller builds every draft with `new Item()`, without an id (ItemController.java:39).
- Repository.SaveSpec: column lengths count characters of the model string. Java's UTF-16 code units and the database's own counting are not distinguished. Columns without an explicit length are given JPA's default of 255.
- Repository.DeleteSpec: deleting an absent id does nothing, as Spring Data 3's `deleteById` does. Older versions threw an exception here.
- Null parameters: a null `category` or `furniture` argument selects rows where that column is NULL, as a derived query does. A null `room` or keyword argument is not modelled, since `room` is typed `string`.
- Service.ToggleFavoriteSpec: a `null` favourite argument and null `favorite`/`viewCount` fields are not modelled. Both fields are plain `bool` and `int32`, as their defaults make them for every row the service creates.
- Repository.SortDesc: rows with equal keys (or with a null `updatedAt`, ranked last) come out in ascending id order. The database guarantees no particular order among them.
- Ties in `findTop5ByOrderByViewCountDesc` are broken the same way. Which of several rows with an equal count are among the five is therefore one choice among those the database may make.
- `@Transactional`, isolation, and the lost update that two concurrent `incrementViewCount` or `toggleFavorite` calls can cause are not modelled. The model runs operations one at a time.
- The draft `Item` objects are values. Java's aliasing of the object passed to `createItem` and then returned by `save` is not captured.
- HTTP binding, response wrapping and static-file mapping are not modelled (ItemController.java apart from `getStats`, WebConfig.java). The front end is not part of this model.
