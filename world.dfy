/**
 * The host world as the item-entity manager sees it: positions of entities,
 * integer block coordinates, the motion test, and the blocks and tiles that
 * make up a hopper.  Everything here stands for code of the server library
 * (positions, `World::getBlock`, `World::getTile`, the delayed block update
 * scheduler) that the manager calls but does not define.
 */
module World {
  import opened Wrappers

  type WorldId = int
  type EntityId = int

  /** A point in a world; coordinates are exact reals (no floating point). */
  datatype Position = Position(world: WorldId, x: real, y: real, z: real)

  /**
   * Integer block coordinates.  The server hashes them into one integer
   * (`World::blockHash`); that hash is injective on loaded coordinates, so the
   * model keys buckets by the coordinates themselves.
   */
  datatype BlockPos = BlockPos(x: int, y: int, z: int)

  /** One block of one world: where a hopper can stand. */
  datatype HopperKey = HopperKey(world: WorldId, pos: BlockPos)

  /** A tracked item entity, identified by its entity id. */
  datatype ItemEntity = ItemEntity(id: EntityId)

  /** The block that contains `p`: each coordinate rounded down. */
  function BlockAt(p: Position): (k: HopperKey)
    ensures k.world == p.world
    ensures k.pos.x as real <= p.x < k.pos.x as real + 1.0
    ensures k.pos.y as real <= p.y < k.pos.y as real + 1.0
    ensures k.pos.z as real <= p.z < k.pos.z as real + 1.0
  {
    HopperKey(p.world, BlockPos(p.x.Floor, p.y.Floor, p.z.Floor))
  }

  /** `Position::down()`: one unit lower in the same world. */
  function Down(p: Position): (q: Position)
    ensures var k := BlockAt(p);
            BlockAt(q) == HopperKey(k.world, BlockPos(k.pos.x, k.pos.y - 1, k.pos.z))
  {
    p.(y := p.y - 1.0)
  }

  function SquaredDistance(p: Position, q: Position): real {
    (p.x - q.x) * (p.x - q.x) + (p.y - q.y) * (p.y - q.y) + (p.z - q.z) * (p.z - q.z)
  }

  /**
   * The motion test of the settle scan: `p` is in the same world as `last` and
   * at distance at least 1.0 from it.  Since both sides are non-negative,
   * distance >= 1.0 exactly when the squared distance is >= 1.0.
   */
  predicate MovedFar(p: Position, last: Position): (r: bool)
    ensures p.world != last.world ==> !r
    ensures p == last ==> !r
    ensures p.world == last.world && (p.x - last.x >= 1.0 || last.x - p.x >= 1.0) ==> r
    ensures p.world == last.world && (p.y - last.y >= 1.0 || last.y - p.y >= 1.0) ==> r
    ensures p.world == last.world && (p.z - last.z >= 1.0 || last.z - p.z >= 1.0) ==> r
  {
    p.world == last.world && SquaredDistance(p, last) >= 1.0
  }

  /** A hopper stands at `k`: the block is a hopper block and has a hopper tile. */
  predicate IsHopper(hopperBlocks: set<HopperKey>, tiles: set<HopperKey>, k: HopperKey) {
    k in hopperBlocks && k in tiles
  }

  /**
   * The hopper an item at `p` rests on: the block at `p` if it is a hopper,
   * otherwise the block below if that is one, otherwise none.
   */
  function ResolveHopper(hopperBlocks: set<HopperKey>, tiles: set<HopperKey>, p: Position): (r: Option<HopperKey>)
    ensures IsHopper(hopperBlocks, tiles, BlockAt(p)) ==> r == Some(BlockAt(p))
    ensures (!IsHopper(hopperBlocks, tiles, BlockAt(p)) && IsHopper(hopperBlocks, tiles, BlockAt(Down(p))))
            ==> r == Some(BlockAt(Down(p)))
    ensures r.None? <==> !IsHopper(hopperBlocks, tiles, BlockAt(p)) && !IsHopper(hopperBlocks, tiles, BlockAt(Down(p)))
    ensures r.Some? ==> r.value in hopperBlocks && r.value in tiles
  {
    if IsHopper(hopperBlocks, tiles, BlockAt(p)) then Some(BlockAt(p))
    else if IsHopper(hopperBlocks, tiles, BlockAt(Down(p))) then Some(BlockAt(Down(p)))
    else None
  }

  /**
   * The part of the server the manager touches during a tick: which blocks are
   * hopper blocks, which of them carry a hopper tile together with that tile's
   * "scheduled for delayed block update" flag, and the delayed block updates
   * requested so far from the block update scheduler (all with delay 0).
   */
  class Server {
    const hopperBlocks: set<HopperKey>
    var tiles: map<HopperKey, bool>
    var blockUpdates: seq<HopperKey>

    constructor (hopperBlocks: set<HopperKey>, tiles: map<HopperKey, bool>)
      ensures this.hopperBlocks == hopperBlocks && this.tiles == tiles && blockUpdates == []
    {
      this.hopperBlocks := hopperBlocks;
      this.tiles := tiles;
      blockUpdates := [];
    }
  }
}
