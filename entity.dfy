/** The `Item` entity: one row of the `items` table, its defaults, its column
    constraints and its single-field setters. */
module Entity {
  import opened Base

  /** An item record. Every Java `String` field is nullable; `id` is the
      store-assigned key (`null` until inserted); `createdAt` and `updatedAt`
      are logical-clock stamps set by the store (`null` until inserted). */
  datatype Item = Item(
    id: Option<int>,
    name: Option<string>,
    description: Option<string>,
    images: Option<string>,
    room: Option<string>,
    furniture: Option<string>,
    location: Option<string>,
    category: Option<string>,
    tags: Option<string>,
    createdAt: Option<nat>,
    updatedAt: Option<nat>,
    favorite: bool,
    viewCount: int32)
  {
    /** The value of one field, used to state which fields an update leaves alone. */
    function Get(f: Field): Value {
      match f
      case Id => IdValue(id)
      case Name => TextValue(name)
      case Description => TextValue(description)
      case Images => TextValue(images)
      case Room => TextValue(room)
      case Furniture => TextValue(furniture)
      case Location => TextValue(location)
      case Category => TextValue(category)
      case Tags => TextValue(tags)
      case CreatedAt => StampValue(createdAt)
      case UpdatedAt => StampValue(updatedAt)
      case Favorite => FlagValue(favorite)
      case ViewCount => CountValue(viewCount)
    }

    function SetId(v: Option<int>): (r: Item)
      ensures r.id == v && SameExcept(this, r, {Id})
    {
      this.(id := v)
    }

    function SetName(v: Option<string>): (r: Item)
      ensures r.name == v && SameExcept(this, r, {Name})
    {
      this.(name := v)
    }

    function SetDescription(v: Option<string>): (r: Item)
      ensures r.description == v && SameExcept(this, r, {Description})
    {
      this.(description := v)
    }

    function SetImages(v: Option<string>): (r: Item)
      ensures r.images == v && SameExcept(this, r, {Images})
    {
      this.(images := v)
    }

    function SetRoom(v: Option<string>): (r: Item)
      ensures r.room == v && SameExcept(this, r, {Room})
    {
      this.(room := v)
    }

    function SetFurniture(v: Option<string>): (r: Item)
      ensures r.furniture == v && SameExcept(this, r, {Furniture})
    {
      this.(furniture := v)
    }

    function SetLocation(v: Option<string>): (r: Item)
      ensures r.location == v && SameExcept(this, r, {Location})
    {
      this.(location := v)
    }

    function SetCategory(v: Option<string>): (r: Item)
      ensures r.category == v && SameExcept(this, r, {Category})
    {
      this.(category := v)
    }

    function SetTags(v: Option<string>): (r: Item)
      ensures r.tags == v && SameExcept(this, r, {Tags})
    {
      this.(tags := v)
    }

    function SetCreatedAt(v: Option<nat>): (r: Item)
      ensures r.createdAt == v && SameExcept(this, r, {CreatedAt})
    {
      this.(createdAt := v)
    }

    function SetUpdatedAt(v: Option<nat>): (r: Item)
      ensures r.updatedAt == v && SameExcept(this, r, {UpdatedAt})
    {
      this.(updatedAt := v)
    }

    function SetFavorite(v: bool): (r: Item)
      ensures r.favorite == v && SameExcept(this, r, {Favorite})
    {
      this.(favorite := v)
    }

    function SetViewCount(v: int32): (r: Item)
      ensures r.viewCount == v && SameExcept(this, r, {ViewCount})
    {
      this.(viewCount := v)
    }
  }

  /** The fields of an Item, by name. */
  datatype Field =
    Id | Name | Description | Images | Room | Furniture | Location | Category | Tags
    | CreatedAt | UpdatedAt | Favorite | ViewCount

  /** The value of one field, whatever its type. */
  datatype Value =
    | IdValue(id: Option<int>)
    | TextValue(text: Option<string>)
    | StampValue(stamp: Option<nat>)
    | FlagValue(flag: bool)
    | CountValue(count: int32)

  /** `a` and `b` agree on every field outside `changed`. */
  ghost predicate SameExcept(a: Item, b: Item, changed: set<Field>) {
    forall f: Field | f !in changed :: a.Get(f) == b.Get(f)
  }

  /** `new Item()`: every reference field null, `favorite = false`, `viewCount = 0`. */
  function NewItem(): (r: Item)
    ensures r.id.None? && r.createdAt.None? && r.updatedAt.None?
    ensures !r.favorite && r.viewCount == 0
    ensures r.name.None? && r.description.None? && r.images.None? && r.room.None?
    ensures r.furniture.None? && r.location.None? && r.category.None? && r.tags.None?
  {
    Item(None, None, None, None, None, None, None, None, None, None, None, false, 0)
  }

  /** JPA's default length of a `String` column without an explicit `length`. */
  const DEFAULT_LENGTH: nat := 255
  /** `@Column(length = 1000)` on `description`. */
  const DESCRIPTION_LENGTH: nat := 1000
  /** `@Column(length = 2000)` on `images`. */
  const IMAGES_LENGTH: nat := 2000

  /** A column value the database accepts: null only where the column is
      nullable, and no longer than the column. */
  predicate FitsColumn(v: Option<string>, nullable: bool, length: nat) {
    match v
    case None => nullable
    case Some(s) => |s| <= length
  }

  /** The column constraints of the `items` table: `name` and `room` are NOT
      NULL (the empty string is allowed), `description` holds at most 1000
      characters, `images` at most 2000, every other text column at most 255. */
  predicate Storable(it: Item) {
    && FitsColumn(it.name, false, DEFAULT_LENGTH)
    && FitsColumn(it.description, true, DESCRIPTION_LENGTH)
    && FitsColumn(it.images, true, IMAGES_LENGTH)
    && FitsColumn(it.room, false, DEFAULT_LENGTH)
    && FitsColumn(it.furniture, true, DEFAULT_LENGTH)
    && FitsColumn(it.location, true, DEFAULT_LENGTH)
    && FitsColumn(it.category, true, DEFAULT_LENGTH)
    && FitsColumn(it.tags, true, DEFAULT_LENGTH)
  }
}
