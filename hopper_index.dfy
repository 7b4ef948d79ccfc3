/**
 * The per-hopper index `entitiesByHopper`: world id -> block -> entity id ->
 * entity.  A missing world or block entry reads as an empty bucket.
 */
module HopperIndex {
  import opened Wrappers
  import opened World

  type Bucket = map<EntityId, ItemEntity>
  type Index = map<WorldId, map<BlockPos, Bucket>>

  /** The bucket of hopper `h`, empty when the index has no entry for it. */
  function BucketAt(index: Index, h: HopperKey): Bucket {
    if h.world in index && h.pos in index[h.world] then index[h.world][h.pos] else map[]
  }

  /** The entity filed under `id` in the bucket of hopper `h`, if any. */
  function Entry(index: Index, h: HopperKey, id: EntityId): Option<ItemEntity> {
    Lookup(BucketAt(index, h), id)
  }

  /** Every bucket files each entity under its own id. */
  ghost predicate WellKeyed(index: Index) {
    forall h, id :: id in BucketAt(index, h) ==> BucketAt(index, h)[id].id == id
  }

  /**
   * Files `e` in the bucket of hopper `h`, creating the world and block
   * entries when they are missing.
   */
  function Insert(index: Index, h: HopperKey, e: ItemEntity): (r: Index)
    ensures r.Keys == index.Keys + {h.world}
    ensures forall w :: w in index && w != h.world ==> r[w] == index[w]
    ensures r[h.world].Keys == (if h.world in index then index[h.world].Keys else {}) + {h.pos}
    ensures forall k :: BucketAt(r, k) == if k == h then BucketAt(index, h)[e.id := e] else BucketAt(index, k)
    ensures WellKeyed(index) ==> WellKeyed(r)
  {
    var blocks := if h.world in index then index[h.world] else map[];
    index[h.world := blocks[h.pos := BucketAt(index, h)[e.id := e]]]
  }

  /**
   * Drops `id` from the bucket of hopper `h`.  A missing world or block entry
   * is left missing, and an emptied bucket stays in the index.
   */
  function Remove(index: Index, h: HopperKey, id: EntityId): (r: Index)
    ensures r.Keys == index.Keys
    ensures forall w :: w in index ==> r[w].Keys == index[w].Keys
    ensures forall k :: BucketAt(r, k) == if k == h then BucketAt(index, h) - {id} else BucketAt(index, k)
    ensures id !in BucketAt(index, h) ==> r == index
    ensures WellKeyed(index) ==> WellKeyed(r)
  {
    if h.world in index && h.pos in index[h.world] then
      var bucket := index[h.world][h.pos];
      assert id !in bucket ==> bucket - {id} == bucket;
      assert id !in bucket ==> index[h.world][h.pos := bucket - {id}] == index[h.world];
      assert id !in bucket ==> index[h.world := index[h.world][h.pos := bucket - {id}]] == index;
      index[h.world := index[h.world][h.pos := bucket - {id}]]
    else
      index
  }
}
