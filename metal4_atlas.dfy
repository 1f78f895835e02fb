// The Metal 4 sprite atlas's bookkeeping: two lists of texture slots (one
// per texture kind) with a free list of emptied slots, a count of the keys
// that hold tiles in each texture, and the cache from atlas key to tile.
//
// The rectangle allocator inside a texture is a parameter: a function from
// the texture's size, the sizes it already holds and the request to the
// origin of the new tile (deterministic, like the bucketed allocator it
// stands for). Creating Metal textures and uploading pixels are left out.
module Metal4Atlas {
  import opened Wrappers
  import opened ChildLists

  datatype TextureKind = Monochrome | Polychrome

  datatype TextureId = TextureId(index: nat, kind: TextureKind)

  datatype Size = Size(width: int, height: int)

  datatype Origin = Origin(x: int, y: int)

  /** A tile: where in which texture a key's pixels live. */
  datatype Tile = Tile(textureId: TextureId, tileId: nat, origin: Origin, size: Size)

  datatype PixelFormat = A8Unorm | R8Unorm | Rgba8Unorm | Bgra8Unorm | OtherFormat

  /**
   * A texture: its size and format, what its allocator holds, and how many
   * keys hold a tile in it (a `u32`).
   */
  datatype Texture = Texture(id: TextureId, size: Size, format: PixelFormat, allocations: seq<Size>, liveKeys: nat)

  /** Slots of one kind's textures; emptied slots are listed for reuse. */
  datatype TextureList = TextureList(slots: seq<Option<Texture>>, freeList: seq<nat>)

  /** An atlas key; its kind is the texture kind it is drawn from. */
  datatype AtlasKey = AtlasKey(id: int, kind: TextureKind)

  type Allocator = (Size, seq<Size>, Size) -> Option<Origin>

  datatype AtlasState = AtlasState(monochrome: TextureList, polychrome: TextureList, tiles: map<AtlasKey, Tile>)

  const DefaultAtlasSide: int := 1024
  const MaxAtlasSide: int := 16384
  const U32Limit: nat := 0x1_0000_0000

  /**
   * A `u32` key count one up and one down, wrapping as a release build
   * does.
   */
  function IncU32(n: nat): nat {
    if n + 1 >= U32Limit then 0 else n + 1
  }

  function DecU32(n: nat): nat {
    if n == 0 then U32Limit - 1 else n - 1
  }

  // ------------------------------------------------------------ textures

  /** The pixel format a new texture of each kind gets. */
  function FormatOf(kind: TextureKind): PixelFormat {
    match kind
    case Monochrome => A8Unorm
    case Polychrome => Bgra8Unorm
  }

  /** `bytes_per_pixel`: one for the single-channel formats, four otherwise. */
  function BytesPerPixel(format: PixelFormat): (r: nat)
    ensures r == 1 <==> format == A8Unorm || format == R8Unorm
    ensures r == 1 || r == 4
  {
    match format
    case A8Unorm => 1
    case R8Unorm => 1
    case Rgba8Unorm => 4
    case Bgra8Unorm => 4
    case OtherFormat => 4
  }

  /** Monochrome textures hold one byte per pixel, polychrome ones four. */
  lemma BytesPerPixelOfKind(kind: TextureKind)
    ensures BytesPerPixel(FormatOf(kind)) == if kind == Monochrome then 1 else 4
  {
  }

  function ClampSide(v: int): (r: int)
    ensures DefaultAtlasSide <= r <= MaxAtlasSide
    ensures DefaultAtlasSide <= v <= MaxAtlasSide ==> r == v
    ensures v <= MaxAtlasSide ==> v <= r
  {
    var capped := if v < MaxAtlasSide then v else MaxAtlasSide;
    if capped > DefaultAtlasSide then capped else DefaultAtlasSide
  }

  /**
   * The size of a texture pushed for a request of `min`: each side
   * clamped to [1024, 16384], so it holds the request unless that exceeds
   * the maximum.
   */
  function AtlasSize(min: Size): (r: Size)
    ensures DefaultAtlasSide <= r.width <= MaxAtlasSide && DefaultAtlasSide <= r.height <= MaxAtlasSide
    ensures min.width <= MaxAtlasSide ==> min.width <= r.width
    ensures min.height <= MaxAtlasSide ==> min.height <= r.height
    ensures DefaultAtlasSide <= min.width <= MaxAtlasSide && DefaultAtlasSide <= min.height <= MaxAtlasSide ==> r == min
  {
    Size(ClampSide(min.width), ClampSide(min.height))
  }

  predicate Accepts(slot: Option<Texture>, size: Size, alloc: Allocator) {
    slot.Some? && alloc(slot.value.size, slot.value.allocations, size).Some?
  }

  /**
   * `Metal4AtlasTexture::allocate`: a tile if the allocator has room; the
   * texture then holds one more key.
   */
  function TryAllocate(t: Texture, size: Size, alloc: Allocator): (r: Option<(Texture, Tile)>)
    ensures r.Some? <==> alloc(t.size, t.allocations, size).Some?
    ensures r.Some? ==>
      && r.value.0 == t.(allocations := t.allocations + [size], liveKeys := IncU32(t.liveKeys))
      && r.value.1.textureId == t.id && r.value.1.size == size
  {
    match alloc(t.size, t.allocations, size)
    case None => None
    case Some(origin) =>
      Some((t.(allocations := t.allocations + [size], liveKeys := IncU32(t.liveKeys)),
            Tile(t.id, |t.allocations|, origin, size)))
  }

  /**
   * The newest occupied slot below `n` whose texture has room for `size`:
   * the search runs from the last slot backwards.
   */
  function NewestFit(slots: seq<Option<Texture>>, size: Size, alloc: Allocator, n: nat): (r: Option<nat>)
    requires n <= |slots|
    ensures r.Some? ==> r.value < n && Accepts(slots[r.value], size, alloc)
    ensures r.Some? ==> forall j | r.value < j < n :: !Accepts(slots[j], size, alloc)
    ensures r.None? ==> forall j | 0 <= j < n :: !Accepts(slots[j], size, alloc)
  {
    if n == 0 then None
    else if Accepts(slots[n - 1], size, alloc) then Some(n - 1)
    else NewestFit(slots, size, alloc, n - 1)
  }

  /**
   * Every occupied slot holds the texture with that slot's index and the
   * list's kind, and the free list names each empty slot exactly once.
   */
  predicate ListValid(list: TextureList, kind: TextureKind) {
    && (forall i | 0 <= i < |list.slots| && list.slots[i].Some? :: list.slots[i].value.id == TextureId(i, kind))
    && (forall i | 0 <= i < |list.freeList| :: list.freeList[i] < |list.slots| && list.slots[list.freeList[i]].None?)
    && (forall i | 0 <= i < |list.slots| && list.slots[i].None? :: i in list.freeList)
    && NoDuplicates(list.freeList)
  }

  /**
   * `push_texture`: a new empty texture sized for `min`, in the last freed
   * slot if there is one and in a new slot otherwise.
   */
  function PushTexture(list: TextureList, kind: TextureKind, min: Size): (r: (TextureList, nat))
    requires ListValid(list, kind)
    ensures ListValid(r.0, kind)
    ensures list.freeList != [] ==>
      r.1 == list.freeList[|list.freeList| - 1] && |r.0.slots| == |list.slots|
      && r.0.freeList == list.freeList[..|list.freeList| - 1]
    ensures list.freeList == [] ==> r.1 == |list.slots| && |r.0.slots| == |list.slots| + 1 && r.0.freeList == []
    ensures r.1 < |r.0.slots| && r.0.slots[r.1] == Some(Texture(TextureId(r.1, kind), AtlasSize(min), FormatOf(kind), [], 0))
    ensures forall i | 0 <= i < |list.slots| && i != r.1 :: r.0.slots[i] == list.slots[i]
  {
    if list.freeList != [] then
      var ix := list.freeList[|list.freeList| - 1];
      var tex := Texture(TextureId(ix, kind), AtlasSize(min), FormatOf(kind), [], 0);
      var r := TextureList(list.slots[ix := Some(tex)], list.freeList[..|list.freeList| - 1]);
      PopKeepsFreeList(list, kind);
      (r, ix)
    else
      var ix := |list.slots|;
      var tex := Texture(TextureId(ix, kind), AtlasSize(min), FormatOf(kind), [], 0);
      (TextureList(list.slots + [Some(tex)], []), ix)
  }

  /** Filling the last freed slot leaves the rest of the free list exact. */
  lemma PopKeepsFreeList(list: TextureList, kind: TextureKind)
    requires ListValid(list, kind) && list.freeList != []
    ensures var ix := list.freeList[|list.freeList| - 1];
      var rest := list.freeList[..|list.freeList| - 1];
      && ix !in rest && NoDuplicates(rest)
      && forall i | 0 <= i < |list.slots| && list.slots[i].None? && i != ix :: i in rest
  {
    var n := |list.freeList|;
    var ix := list.freeList[n - 1];
    var rest := list.freeList[..n - 1];
    assert list.freeList == rest + [ix];
    assert multiset(list.freeList) == multiset(rest) + multiset{ix};
    assert multiset(list.freeList)[ix] == 1;
    forall y | y in multiset(rest)
      ensures multiset(rest)[y] == 1
    {
      assert y in multiset(list.freeList);
    }
    forall i | 0 <= i < |list.slots| && list.slots[i].None? && i != ix
      ensures i in rest
    {
      assert i in list.freeList;
    }
  }

  /** Writing back a texture with the same id keeps the list valid. */
  lemma ReplaceKeepsValid(list: TextureList, kind: TextureKind, i: nat, t: Texture)
    requires ListValid(list, kind) && i < |list.slots| && list.slots[i].Some? && t.id == list.slots[i].value.id
    ensures ListValid(list.(slots := list.slots[i := Some(t)]), kind)
  {
    var r := list.(slots := list.slots[i := Some(t)]);
    forall j | 0 <= j < |r.freeList|
      ensures r.freeList[j] < |r.slots| && r.slots[r.freeList[j]].None?
    {
      assert list.slots[list.freeList[j]].None?;
    }
  }

  /**
   * `Metal4AtlasState::allocate`: the newest texture of the kind with
   * room; failing that a pushed texture, which stays in its slot even when
   * the request does not fit in it either.
   */
  function Allocated(list: TextureList, kind: TextureKind, size: Size, alloc: Allocator): (r: (TextureList, Option<Tile>))
    requires ListValid(list, kind)
    ensures ListValid(r.0, kind)
    ensures r.1.Some? ==>
      var i := r.1.value.textureId.index;
      && r.1.value.textureId.kind == kind && r.1.value.size == size
      && i < |r.0.slots| && r.0.slots[i].Some?
      && (i < |list.slots| && list.slots[i].Some? ==>
            r.0.slots[i].value.liveKeys == IncU32(list.slots[i].value.liveKeys))
    ensures NewestFit(list.slots, size, alloc, |list.slots|).Some? ==>
      r.1.Some? && r.1.value.textureId.index == NewestFit(list.slots, size, alloc, |list.slots|).value
      && r.0.freeList == list.freeList
    ensures NewestFit(list.slots, size, alloc, |list.slots|).None? ==>
      && r.0.freeList == PushTexture(list, kind, size).0.freeList
      && (r.1.Some? ==> r.1.value.textureId.index == PushTexture(list, kind, size).1)
  {
    match NewestFit(list.slots, size, alloc, |list.slots|)
    case Some(i) =>
      var grown := TryAllocate(list.slots[i].value, size, alloc).value;
      ReplaceKeepsValid(list, kind, i, grown.0);
      (list.(slots := list.slots[i := Some(grown.0)]), Some(grown.1))
    case None =>
      var pushed := PushTexture(list, kind, size);
      var ix := pushed.1;
      match TryAllocate(pushed.0.slots[ix].value, size, alloc)
      case None => (pushed.0, None)
      case Some(grown) =>
        ReplaceKeepsValid(pushed.0, kind, ix, grown.0);
        (pushed.0.(slots := pushed.0.slots[ix := Some(grown.0)]), Some(grown.1))
  }

  // ------------------------------------------------------------ the atlas

  function ListOf(s: AtlasState, kind: TextureKind): TextureList {
    if kind == Monochrome then s.monochrome else s.polychrome
  }

  function WithList(s: AtlasState, kind: TextureKind, list: TextureList): (r: AtlasState)
    ensures ListOf(r, kind) == list && ListOf(r, OtherKind(kind)) == ListOf(s, OtherKind(kind)) && r.tiles == s.tiles
  {
    if kind == Monochrome then s.(monochrome := list) else s.(polychrome := list)
  }

  function OtherKind(kind: TextureKind): TextureKind {
    if kind == Monochrome then Polychrome else Monochrome
  }

  /** Both lists are valid and every cached tile is of its key's kind. */
  predicate Valid(s: AtlasState) {
    && ListValid(s.monochrome, Monochrome) && ListValid(s.polychrome, Polychrome)
    && forall k | k in s.tiles :: s.tiles[k].textureId.kind == k.kind
  }

  /**
   * `Metal4Atlas::texture`: the texture an id names, if its slot is
   * occupied (the source panics on an empty slot).
   */
  function TextureAt(s: AtlasState, id: TextureId): Option<Texture> {
    var slots := ListOf(s, id.kind).slots;
    if id.index < |slots| then slots[id.index] else None
  }

  /**
   * `get_or_insert_with`: a cached tile is returned without building;
   * otherwise `built` is what the build callback returned, and a built
   * image is given a tile and cached, or the call fails when no tile can
   * be allocated.
   */
  function GetOrInserted(s: AtlasState, key: AtlasKey, built: Result<Option<Size>, string>, alloc: Allocator)
    : (r: (AtlasState, Result<Option<Tile>, string>))
    requires Valid(s)
    ensures Valid(r.0)
    ensures key in s.tiles ==> r == (s, Ok(Some(s.tiles[key])))
    ensures key !in s.tiles && built.Err? ==> r == (s, Err(built.error))
    ensures key !in s.tiles && built == Ok(None) ==> r == (s, Ok(None))
    ensures r.1.Ok? && r.1.value.Some? ==> key in r.0.tiles && r.0.tiles[key] == r.1.value.value
    ensures r.0.tiles.Keys <= s.tiles.Keys + {key}
  {
    if key in s.tiles then (s, Ok(Some(s.tiles[key])))
    else if built.Err? then (s, Err(built.error))
    else if built.value.None? then (s, Ok(None))
    else
      var allocation := Allocated(ListOf(s, key.kind), key.kind, built.value.value, alloc);
      var s1 := WithList(s, key.kind, allocation.0);
      if allocation.1.None? then (s1, Err("failed to allocate atlas tile"))
      else (s1.(tiles := s1.tiles[key := allocation.1.value]), Ok(allocation.1))
  }

  /**
   * A key once given a tile is served from the cache, whatever the build
   * callback would return.
   */
  lemma CachedAfterInsert(s: AtlasState, key: AtlasKey, built: Result<Option<Size>, string>, alloc: Allocator,
                          again: Result<Option<Size>, string>)
    requires Valid(s)
    requires GetOrInserted(s, key, built, alloc).1.Ok? && GetOrInserted(s, key, built, alloc).1.value.Some?
    ensures var after := GetOrInserted(s, key, built, alloc);
      GetOrInserted(after.0, key, again, alloc) == after
  {
  }

  /** The first slot holding the texture with id `id` (the source's `find`). */
  function FindSlot(slots: seq<Option<Texture>>, id: TextureId): (r: Option<nat>)
    ensures r.Some? ==> r.value < |slots| && slots[r.value].Some? && slots[r.value].value.id == id
    ensures r.None? ==> forall i | 0 <= i < |slots| :: !(slots[i].Some? && slots[i].value.id == id)
  {
    if slots == [] then None
    else if slots[0].Some? && slots[0].value.id == id then Some(0)
    else
      match FindSlot(slots[1..], id)
      case None => None
      case Some(i) => Some(i + 1)
  }

  /** In a valid list the search lands on the id's own index. */
  lemma FindSlotIsIndex(list: TextureList, kind: TextureKind, id: TextureId)
    requires ListValid(list, kind) && id.kind == kind
    ensures FindSlot(list.slots, id) == if id.index < |list.slots| && list.slots[id.index].Some? then Some(id.index) else None
  {
    var r := FindSlot(list.slots, id);
    if r.Some? {
      assert list.slots[r.value].value.id == TextureId(r.value, kind);
    }
  }

  /**
   * `remove`: the key's texture holds one key fewer (a `u32` decrement);
   * when none is left the slot is emptied, its index freed and the key
   * forgotten, and otherwise the key stays cached.
   */
  function Removed(s: AtlasState, key: AtlasKey): (r: AtlasState)
    requires Valid(s)
    ensures Valid(r)
    ensures r.tiles == s.tiles || r.tiles == s.tiles - {key}
  {
    if key !in s.tiles then s
    else
      var id := s.tiles[key].textureId;
      var list := ListOf(s, id.kind);
      match FindSlot(list.slots, id)
      case None => s
      case Some(i) =>
        FindSlotIsIndex(list, id.kind, id);
        var t := list.slots[i].value;
        var count := DecU32(t.liveKeys);
        if count == 0 then
          FreeKeepsValid(list, id.kind, i);
          WithList(s, id.kind, TextureList(list.slots[i := None], list.freeList + [id.index])).(tiles := s.tiles - {key})
        else
          ReplaceKeepsValid(list, id.kind, i, t.(liveKeys := count));
          WithList(s, id.kind, list.(slots := list.slots[i := Some(t.(liveKeys := count))]))
  }

  /** Emptying an occupied slot and freeing its index keeps the list valid. */
  lemma FreeKeepsValid(list: TextureList, kind: TextureKind, i: nat)
    requires ListValid(list, kind) && i < |list.slots| && list.slots[i].Some?
    ensures ListValid(TextureList(list.slots[i := None], list.freeList + [i]), kind)
  {
    var r := TextureList(list.slots[i := None], list.freeList + [i]);
    assert i !in list.freeList;
    NoDuplicatesSnoc(list.freeList, i);
    forall j | 0 <= j < |r.freeList|
      ensures r.freeList[j] < |r.slots| && r.slots[r.freeList[j]].None?
    {
      if j < |list.freeList| {
        assert r.freeList[j] == list.freeList[j];
      }
    }
    forall j | 0 <= j < |r.slots| && r.slots[j].None?
      ensures j in r.freeList
    {
      if j != i {
        assert j in list.freeList;
      }
    }
  }

  /**
   * A texture whose last key is removed is emptied and its slot is the
   * next one a pushed texture of that kind takes.
   */
  lemma LastKeyFreesSlot(s: AtlasState, key: AtlasKey, min: Size)
    requires Valid(s) && key in s.tiles
    requires TextureAt(s, s.tiles[key].textureId).Some? && TextureAt(s, s.tiles[key].textureId).value.liveKeys == 1
    ensures var id := s.tiles[key].textureId;
      var r := Removed(s, key);
      && key !in r.tiles && TextureAt(r, id).None?
      && PushTexture(ListOf(r, id.kind), id.kind, min).1 == id.index
  {
    var id := s.tiles[key].textureId;
    FindSlotIsIndex(ListOf(s, id.kind), id.kind, id);
  }

  /**
   * Removing a key whose texture holds other keys too only takes one
   * reference: the key stays cached.
   */
  lemma RemoveSharedKey(s: AtlasState, key: AtlasKey)
    requires Valid(s) && key in s.tiles
    requires TextureAt(s, s.tiles[key].textureId).Some?
    requires 1 < TextureAt(s, s.tiles[key].textureId).value.liveKeys < U32Limit
    ensures var id := s.tiles[key].textureId;
      var t := TextureAt(s, id).value;
      var r := Removed(s, key);
      r.tiles == s.tiles && TextureAt(r, id) == Some(t.(liveKeys := t.liveKeys - 1))
  {
    var id := s.tiles[key].textureId;
    var list := ListOf(s, id.kind);
    var t := TextureAt(s, id).value;
    FindSlotIsIndex(list, id.kind, id);
    var r := Removed(s, key);
    assert ListOf(r, id.kind) == list.(slots := list.slots[id.index := Some(t.(liveKeys := t.liveKeys - 1))]);
  }

  /**
   * A key outlives a remove while its texture still holds other keys, so
   * removing it a second time takes a second reference: with two keys in
   * one texture, removing the first key twice empties the texture that
   * the second key's cached tile still names.
   */
  lemma RepeatedRemoveEmptiesSharedTexture(s: AtlasState, a: AtlasKey, b: AtlasKey)
    requires Valid(s) && a in s.tiles && b in s.tiles && a != b
    requires s.tiles[a].textureId == s.tiles[b].textureId
    requires TextureAt(s, s.tiles[a].textureId).Some? && TextureAt(s, s.tiles[a].textureId).value.liveKeys == 2
    ensures var id := s.tiles[a].textureId;
      var once := Removed(s, a);
      var twice := Removed(once, a);
      && a in once.tiles && once.tiles[a] == s.tiles[a]
      && b in twice.tiles && twice.tiles[b].textureId == id && TextureAt(twice, id).None?
  {
    RemoveSharedKey(s, a);
    LastKeyFreesSlot(Removed(s, a), a, Size(0, 0));
  }

  // ------------------------------------------------------------ the state

  class Metal4AtlasObject {
    var monochromeTextures: TextureList
    var polychromeTextures: TextureList
    var tilesByKey: map<AtlasKey, Tile>

    function State(): AtlasState
      reads this
    {
      AtlasState(monochromeTextures, polychromeTextures, tilesByKey)
    }

    /** `Metal4Atlas::new`: no textures and no tiles. */
    constructor()
      ensures State() == AtlasState(TextureList([], []), TextureList([], []), map[]) && Valid(State())
    {
      monochromeTextures := TextureList([], []);
      polychromeTextures := TextureList([], []);
      tilesByKey := map[];
    }

    method GetOrInsertWith(key: AtlasKey, built: Result<Option<Size>, string>, alloc: Allocator)
      returns (r: Result<Option<Tile>, string>)
      requires Valid(State())
      modifies this
      ensures (State(), r) == GetOrInserted(old(State()), key, built, alloc) && Valid(State())
    {
      var next := GetOrInserted(State(), key, built, alloc);
      monochromeTextures, polychromeTextures, tilesByKey := next.0.monochrome, next.0.polychrome, next.0.tiles;
      r := next.1;
    }

    method Remove(key: AtlasKey)
      requires Valid(State())
      modifies this
      ensures State() == Removed(old(State()), key) && Valid(State())
    {
      var next := Removed(State(), key);
      monochromeTextures, polychromeTextures, tilesByKey := next.monochrome, next.polychrome, next.tiles;
    }
  }
}
