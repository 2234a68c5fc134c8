/** The world's chunk index: a hash map of regions keyed by their printed
  * coordinates, each with a 32 by 32 array of chunks. It refines one flat map
  * from global chunk coordinates; of a chunk it keeps the player count. */
module World {
  import opened Bytes
  import opened Coords
  import opened HashMap

  type Coord = (int, int)

  /** A region owns its array of chunk pointers. */
  datatype Region = Region(x: int, z: int, chunks: array2<Option<int>>)

  function KeyOf(x: int, z: int): Key {
    RegionString(ChunkToRegion(x), ChunkToRegion(z))
  }

  /** A chunk is found under one key and in one slot, which no other chunk shares. */
  lemma {:induction false} IndexInjective(x: int, z: int, x': int, z': int)
    requires KeyOf(x, z) == KeyOf(x', z') && Slot(x) == Slot(x') && Slot(z) == Slot(z')
    ensures x == x' && z == z'
  {
    RegionStringInjective(ChunkToRegion(x), ChunkToRegion(z), ChunkToRegion(x'), ChunkToRegion(z'));
    SlotDeterminesChunk(x);
    SlotDeterminesChunk(z);
    SlotDeterminesChunk(x');
    SlotDeterminesChunk(z');
  }

  ghost predicate WellKeyed(rs: map<Key, Region>)
  {
    && (forall k | k in rs :: RegionOk(k, rs[k]))
    && (forall k, k' | k in rs && k' in rs && k != k' :: rs[k].chunks != rs[k'].chunks)
  }

  ghost predicate RegionOk(k: Key, r: Region) {
    k == RegionString(r.x, r.z) && r.chunks.Length0 == 32 && r.chunks.Length1 == 32
  }

  // ---- views ------------------------------------------------------------------------

  datatype View = View(x: int, z: int, size: nat)

  predicate Contains(v: View, x: int, z: int) {
    v.x - v.size <= x <= v.x + v.size && v.z - v.size <= z <= v.z + v.size
  }

  /** The chunks of a view visited before the inner loop body runs for (vx, vz). */
  predicate Visited(v: View, vx: int, vz: int, x: int, z: int) {
    Contains(v, x, z) && (x < vx || (x == vx && z < vz))
  }

  function At(m: map<Coord, int>, x: int, z: int): Option<int> {
    if (x, z) in m then Some(m[(x, z)]) else None
  }

  /** m with the visited chunks of the view loaded where they were missing. */
  ghost predicate Loaded(m0: map<Coord, int>, m: map<Coord, int>, v: View, vx: int, vz: int) {
    forall x, z :: At(m, x, z) == if Visited(v, vx, vz, x, z) && At(m0, x, z).None? then Some(0) else At(m0, x, z)
  }

  lemma {:induction false} LoadStart(m: map<Coord, int>, v: View)
    ensures Loaded(m, m, v, v.x - v.size, v.z - v.size)
  {
  }

  lemma {:induction false} LoadStep(m0: map<Coord, int>, m: map<Coord, int>, v: View, vx: int, vz: int)
    requires Loaded(m0, m, v, vx, vz) && Contains(v, vx, vz)
    ensures Loaded(m0, if (vx, vz) in m then m else m[(vx, vz) := 0], v, vx, vz + 1)
  {
  }

  lemma {:induction false} LoadRow(m0: map<Coord, int>, m: map<Coord, int>, v: View, vx: int)
    requires Loaded(m0, m, v, vx, v.z + v.size + 1)
    ensures Loaded(m0, m, v, vx + 1, v.z - v.size)
  {
  }

  class World {
    const regions: HashMap<Region>

    /** The loaded chunks by global chunk coordinates. */
    ghost var flat: map<Coord, int>

    ghost function Arrays(): (s: set<object>)
      reads regions
    {
      set k | k in regions.M :: regions.M[k].chunks
    }

    ghost function Repr(): set<object>
      reads this, regions
    {
      {this, regions, regions.entries} + Arrays()
    }

    /** What the two levels hold for a chunk. */
    ghost function Stored(x: int, z: int): Option<int>
      requires WellKeyed(regions.M)
      reads regions, Arrays()
    {
      var key := KeyOf(x, z);
      if key in regions.M then
        assert RegionOk(key, regions.M[key]);
        regions.M[key].chunks[Slot(z), Slot(x)]
      else None
    }

    ghost predicate Valid()
      reads this, regions, regions.entries, Arrays()
    {
      && regions.Valid() && regions.Clean() && WellKeyed(regions.M)
      && forall x, z :: Stored(x, z) == At(flat, x, z)
    }

    constructor (hash: Key -> nat)
      ensures Valid() && fresh(Repr()) && flat == map[]
    {
      regions := new HashMap<Region>(1, hash);
      flat := map[];
    }

    method RegionAt(rx: int, rz: int) returns (r: Option<Region>)
      requires Valid()
      ensures var key := RegionString(rx, rz); r == if key in regions.M then Some(regions.M[key]) else None
    {
      r := regions.Get(RegionString(rx, rz));
    }

    method ChunkAt(x: int, z: int) returns (c: Option<int>)
      requires Valid()
      ensures c == At(flat, x, z)
    {
      hide RegionString, Slot, Stores, NoTombstones;
      var r := RegionAt(ChunkToRegion(x), ChunkToRegion(z));
      ghost var stored := Stored(x, z);
      if r.None? {
        c := None;
      } else {
        assert RegionOk(KeyOf(x, z), r.value);
        c := r.value.chunks[Slot(z), Slot(x)];
      }
    }

    /** region_set_chunk through the region of the chunk. */
    method SetChunk(r: Region, x: int, z: int, c: Option<int>)
      requires Valid() && KeyOf(x, z) in regions.M && r == regions.M[KeyOf(x, z)]
      modifies r.chunks, this`flat
      ensures Valid() && unchanged(regions, regions.entries)
      ensures flat == if c.Some? then old(flat)[(x, z) := c.value] else old(flat) - {(x, z)}
    {
      hide RegionString, Slot, Stores, NoTombstones;
      assert RegionOk(KeyOf(x, z), r);
      r.chunks[Slot(z), Slot(x)] := c;
      flat := if c.Some? then flat[(x, z) := c.value] else flat - {(x, z)};
      forall x', z' ensures Stored(x', z') == At(flat, x', z') {
        assert old(Stored(x', z')) == At(old(flat), x', z');
        if (x', z') != (x, z) { OtherSlot(x, z, x', z'); }
      }
    }

    lemma {:induction false} OtherSlot(x: int, z: int, x': int, z': int)
      requires (x, z) != (x', z')
      ensures KeyOf(x, z) != KeyOf(x', z') || (Slot(z), Slot(x)) != (Slot(z'), Slot(x'))
    {
      if KeyOf(x, z) == KeyOf(x', z') && Slot(x) == Slot(x') && Slot(z) == Slot(z') {
        IndexInjective(x, z, x', z');
      }
    }

    /** region_open and world_add_region: a region with no chunk loaded. */
    method AddRegion(rx: int, rz: int) returns (r: Region)
      requires Valid() && RegionString(rx, rz) !in regions.M
      modifies regions, regions.entries
      ensures Valid() && RegionString(rx, rz) in regions.M && r == regions.M[RegionString(rx, rz)]
      ensures fresh(Repr() - old(Repr()))
    {
      hide RegionString, Slot, Stores, NoTombstones;
      var a := new Option<int>[32, 32]((_, _) => None);
      r := Region(rx, rz, a);
      regions.Add(RegionString(rx, rz), r);
      forall x, z ensures Stored(x, z) == At(flat, x, z) {
        assert old(Stored(x, z)) == At(old(flat), x, z);
      }
    }

    /** One iteration of world_load_chunks: a chunk comes in with no players. */
    method LoadChunk(x: int, z: int)
      requires Valid()
      modifies Repr()
      ensures Valid() && fresh(Repr() - old(Repr()))
      ensures flat == if (x, z) in old(flat) then old(flat) else old(flat)[(x, z) := 0]
    {
      hide KeyOf, Slot, Stores, NoTombstones, WellKeyed;
      var rx, rz := ChunkToRegion(x), ChunkToRegion(z);
      assert KeyOf(x, z) == RegionString(rx, rz) by { KeyIs(x, z); }
      var region := RegionAt(rx, rz);
      var r;
      if region.None? {
        r := AddRegion(rx, rz);
      } else {
        r := region.value;
      }
      var c := ChunkAt(x, z);
      if c.None? {
        SetChunk(r, x, z, Some(0));
      }
    }

    /** world_load_chunks: every chunk of the view is loaded afterwards, the ones
      * that were not with no players, and nothing else changes. */
    method LoadChunks(v: View)
      requires Valid()
      modifies Repr()
      ensures Valid() && fresh(Repr() - old(Repr()))
      ensures Loaded(old(flat), flat, v, v.x + v.size + 1, v.z - v.size)
    {
      hide Valid, Loaded;
      LoadStart(flat, v);
      var vx := v.x - v.size;
      while vx <= v.x + v.size
        invariant v.x - v.size <= vx <= v.x + v.size + 1
        invariant Valid() && fresh(Repr() - old(Repr())) && Loaded(old(flat), flat, v, vx, v.z - v.size)
      {
        var vz := v.z - v.size;
        while vz <= v.z + v.size
          invariant v.z - v.size <= vz <= v.z + v.size + 1
          invariant Valid() && fresh(Repr() - old(Repr())) && Loaded(old(flat), flat, v, vx, vz)
        {
          LoadStep(old(flat), flat, v, vx, vz);
          ghost var r := Repr();
          LoadChunk(vx, vz);
          assert fresh(Repr() - r);
          assert fresh(r - old(Repr()));
          assert Repr() - old(Repr()) <= (Repr() - r) + (r - old(Repr()));
          assert fresh(Repr() - old(Repr()));
          vz := vz + 1;
        }
        LoadRow(old(flat), flat, v, vx);
        vx := vx + 1;
      }
    }

    /** ++chunk->player_count, when the chunk is loaded. */
    method IncPlayers(x: int, z: int) returns (found: bool)
      requires Valid()
      modifies Repr()
      ensures Valid() && Repr() == old(Repr())
      ensures found == At(old(flat), x, z).Some?
      ensures flat == if found then old(flat)[(x, z) := old(flat)[(x, z)] + 1] else old(flat)
    {
      hide Slot, Stores, NoTombstones, WellKeyed, RegionString;
      var c := ChunkAt(x, z);
      found := c.Some?;
      if found {
        var r := RegionAt(ChunkToRegion(x), ChunkToRegion(z));
        assert Stored(x, z) == At(flat, x, z);
        SetChunk(r.value, x, z, Some(c.value + 1));
      }
    }

    /** world_chunk_dec_players: at zero the chunk is dropped and freed. */
    method DecPlayers(x: int, z: int)
      requires Valid()
      modifies Repr()
      ensures Valid() && Repr() == old(Repr())
      ensures flat == if (x, z) !in old(flat) then old(flat)
                      else if old(flat)[(x, z)] == 1 then old(flat) - {(x, z)}
                      else old(flat)[(x, z) := old(flat)[(x, z)] - 1]
    {
      hide Slot, Stores, NoTombstones, WellKeyed, RegionString;
      var r := RegionAt(ChunkToRegion(x), ChunkToRegion(z));
      assert Stored(x, z) == At(flat, x, z);
      if r.Some? {
        var c := ChunkAt(x, z);
        if c.Some? {
          SetChunk(r.value, x, z, Some(c.value - 1));
          if c.value - 1 == 0 {
            SetChunk(r.value, x, z, None);
          }
        }
      }
    }
  }

  lemma {:induction false} KeyIs(x: int, z: int)
    ensures KeyOf(x, z) == RegionString(ChunkToRegion(x), ChunkToRegion(z))
  {
  }
}
