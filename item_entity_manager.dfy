/**
 * The item-entity manager: the registry of tracked item entities, their last
 * checked positions, the per-hopper index, and the recurring tick task that
 * scans the registry.
 */
module ItemEntities {
  import opened Wrappers
  import opened World
  import opened HopperIndex
  import opened SettleScan

  predicate NoDuplicates(s: seq<EntityId>) {
    forall i, j | 0 <= i < j < |s| :: s[i] != s[j]
  }

  /** `s` without `id`, the other ids in their order. */
  function WithoutId(s: seq<EntityId>, id: EntityId): (r: seq<EntityId>)
    ensures forall x :: x in r <==> x in s && x != id
    ensures NoDuplicates(s) ==> NoDuplicates(r)
    ensures id !in s ==> r == s
    ensures |r| <= |s|
    ensures forall k | 0 <= k < |s| && s[k] == id && id !in s[..k] && id !in s[k + 1..] :: r == s[..k] + s[k + 1..]
  {
    if s == [] then []
    else
      var rest := WithoutId(s[1..], id);
      var r := (if s[0] == id then [] else [s[0]]) + rest;
      assert NoDuplicates(s) ==> s[0] !in s[1..];
      assert forall k | 0 <= k < |s| && s[k] == id && id !in s[..k] && id !in s[k + 1..] :: r == s[..k] + s[k + 1..] by {
        forall k | 0 <= k < |s| && s[k] == id && id !in s[..k] && id !in s[k + 1..]
          ensures r == s[..k] + s[k + 1..]
        {
          if k == 0 {
            assert s[1..] == s[k + 1..];
          } else {
            assert s[0] in s[..k];
            assert s[1..][k - 1] == id && s[1..][..k - 1] == s[1..k] && s[1..][k..] == s[k + 1..];
            assert id !in s[1..][..k - 1];
            assert s[..k] == [s[0]] + s[1..k];
          }
        }
      }
      r
  }

  /** The entities of `ids`, in that order. */
  function Listed(ids: seq<EntityId>, entities: map<EntityId, ItemEntity>): seq<ItemEntity>
    requires forall i | 0 <= i < |ids| :: ids[i] in entities
  {
    seq(|ids|, i requires 0 <= i < |ids| => entities[ids[i]])
  }

  class ItemEntityManager {
    /** The recurring tick task is scheduled (the task handler is set). */
    var taskScheduled: bool
    /** How many times the tick task has been scheduled so far. */
    ghost var tasksStarted: nat
    var entities: map<EntityId, ItemEntity>
    /** The iteration order of `entities`: ids in order of first insertion. */
    var order: seq<EntityId>
    var lastEntityPositions: map<EntityId, Position>
    var entitiesByHopper: Index

    ghost predicate Valid()
      reads this
    {
      && (forall id | id in entities :: entities[id].id == id)
      && NoDuplicates(order)
      && (forall id :: id in entities <==> id in order)
      && (forall i | 0 <= i < |order| :: order[i] in entities)
      && lastEntityPositions.Keys <= entities.Keys
      && WellKeyed(entitiesByHopper)
      && (entities != map[] ==> taskScheduled)
    }

    /** The tracked entities in iteration order. */
    ghost function Tracked(): seq<ItemEntity>
      reads this
      requires Valid()
    {
      Listed(order, entities)
    }

    /** What a tick reads and writes, here and in the server. */
    ghost function Snapshot(server: Server): ScanState
      reads this, server
    {
      ScanState(lastEntityPositions, entitiesByHopper, server.tiles, server.blockUpdates)
    }

    constructor ()
      ensures Valid()
      ensures !taskScheduled && tasksStarted == 0
      ensures entities == map[] && order == [] && lastEntityPositions == map[] && entitiesByHopper == map[]
    {
      taskScheduled := false;
      tasksStarted := 0;
      entities := map[];
      order := [];
      lastEntityPositions := map[];
      entitiesByHopper := map[];
    }

    /** Registers `entity` under its id, replacing an earlier entry, and makes sure the tick task runs. */
    method AddItemEntity(entity: ItemEntity)
      requires Valid()
      modifies this
      ensures Valid()
      ensures entities == old(entities)[entity.id := entity]
      ensures order == if entity.id in old(entities) then old(order) else old(order) + [entity.id]
      ensures lastEntityPositions == old(lastEntityPositions) && entitiesByHopper == old(entitiesByHopper)
      ensures taskScheduled
      ensures tasksStarted == old(tasksStarted) + (if old(taskScheduled) then 0 else 1)
    {
      var entityID := entity.id;
      if entityID !in entities {
        order := order + [entityID];
      }
      entities := entities[entityID := entity];
      ScheduleTask();
    }

    /**
     * Forgets `entity` and its last position.  Its entries in hopper buckets
     * stay where they are.
     */
    method RemoveItemEntity(entity: ItemEntity)
      requires Valid()
      modifies this
      ensures Valid()
      ensures entities == old(entities) - {entity.id}
      ensures lastEntityPositions == old(lastEntityPositions) - {entity.id}
      ensures order == WithoutId(old(order), entity.id)
      ensures entitiesByHopper == old(entitiesByHopper)
      ensures taskScheduled == old(taskScheduled) && tasksStarted == old(tasksStarted)
    {
      var entityID := entity.id;
      entities := entities - {entityID};
      lastEntityPositions := lastEntityPositions - {entityID};
      order := WithoutId(order, entityID);
    }

    /** The entities filed in the bucket of `hopper`; empty when there is none. */
    method GetEntitiesByHopper(hopper: HopperKey) returns (hopperEntities: Bucket)
      ensures hopper.world !in entitiesByHopper ==> hopperEntities == map[]
      ensures hopper.world in entitiesByHopper && hopper.pos !in entitiesByHopper[hopper.world]
              ==> hopperEntities == map[]
      ensures hopper.world in entitiesByHopper && hopper.pos in entitiesByHopper[hopper.world]
              ==> hopperEntities == entitiesByHopper[hopper.world][hopper.pos]
      ensures hopperEntities == BucketAt(entitiesByHopper, hopper)
      ensures Valid() ==> forall id | id in hopperEntities :: hopperEntities[id].id == id
    {
      var worldID := hopper.world;
      if worldID !in entitiesByHopper {
        return map[];
      }
      if hopper.pos !in entitiesByHopper[worldID] {
        return map[];
      }
      return entitiesByHopper[worldID][hopper.pos];
    }

    /** Drops `entity` from the bucket of `hopper` only. */
    method RemoveEntityFromHopper(hopper: HopperKey, entity: ItemEntity)
      requires Valid()
      modifies this
      ensures Valid()
      ensures entitiesByHopper == Remove(old(entitiesByHopper), hopper, entity.id)
      ensures entities == old(entities) && order == old(order)
      ensures lastEntityPositions == old(lastEntityPositions)
      ensures taskScheduled == old(taskScheduled) && tasksStarted == old(tasksStarted)
    {
      var worldID := hopper.world;
      if worldID in entitiesByHopper && hopper.pos in entitiesByHopper[worldID] {
        var hopperEntities := entitiesByHopper[worldID][hopper.pos] - {entity.id};
        entitiesByHopper := entitiesByHopper[worldID := entitiesByHopper[worldID][hopper.pos := hopperEntities]];
      }
      assert entitiesByHopper == Remove(old(entitiesByHopper), hopper, entity.id);
    }

    /** Schedules the recurring tick task unless it is already scheduled. */
    method ScheduleTask()
      modifies this
      ensures taskScheduled
      ensures tasksStarted == old(tasksStarted) + (if old(taskScheduled) then 0 else 1)
      ensures entities == old(entities) && order == old(order)
      ensures lastEntityPositions == old(lastEntityPositions) && entitiesByHopper == old(entitiesByHopper)
    {
      if taskScheduled {
        return;
      }
      taskScheduled := true;
      tasksStarted := tasksStarted + 1;
    }

    /**
     * One run of the tick task.  On an empty registry it unschedules itself
     * and changes nothing else.  Otherwise it runs the settle scan over the
     * tracked entities in iteration order.  The ordering pass that follows
     * the scan in the server's code sorts by-value copies of the buckets, so
     * it leaves every field as the scan left it.
     */
    method Tick(server: Server, positionOf: ItemEntity -> Position)
      requires Valid() && taskScheduled
      modifies this, server
      ensures Valid()
      ensures entities == old(entities) && order == old(order) && tasksStarted == old(tasksStarted)
      ensures old(entities) == map[] ==>
                && !taskScheduled
                && lastEntityPositions == old(lastEntityPositions)
                && entitiesByHopper == old(entitiesByHopper)
                && server.tiles == old(server.tiles)
                && server.blockUpdates == old(server.blockUpdates)
      ensures old(entities) != map[] ==>
                && taskScheduled
                && Snapshot(server) == Scan(old(Snapshot(server)), old(Tracked()), positionOf, server.hopperBlocks)
      ensures FlagsRise(old(Snapshot(server)), Snapshot(server))
    {
      if entities == map[] {
        taskScheduled := false;
        assert server.blockUpdates[..|server.blockUpdates|] == server.blockUpdates;
        return;
      }
      ghost var st0 := Snapshot(server);
      ghost var es := Tracked();
      var i := 0;
      while i < |order|
        invariant 0 <= i <= |order| == |es|
        invariant entities == old(entities) && order == old(order)
        invariant taskScheduled && tasksStarted == old(tasksStarted)
        invariant Snapshot(server) == Scan(st0, es[..i], positionOf, server.hopperBlocks)
      {
        var entityID := order[i];
        var entity := entities[entityID];
        assert es[..i + 1][..i] == es[..i] && entity == es[i];
        ScanEntity(server, entityID, entity, positionOf(entity));
        i := i + 1;
      }
      assert es[..i] == es;
      ScanSchedulesOnce(st0, es, positionOf, server.hopperBlocks);
      ScanKeepsWellKeyed(st0, es, positionOf, server.hopperBlocks);
      forall id | id in lastEntityPositions
        ensures id in entities
      {
        if id !in entities {
          assert Absent(id, es);
          ScanUntouched(st0, es, positionOf, server.hopperBlocks, id);
        }
      }
    }
    /**
     * The body of the tick loop for one tracked entity at `position`: skip it
     * if it moved at least 1.0 since its last check in the same world;
     * otherwise record `position`, look for a hopper at the entity's block or
     * the block below, request one block update for that hopper unless its
     * tile is already flagged, and file the entity in the hopper's bucket.
     */
    method ScanEntity(server: Server, entityID: EntityId, entity: ItemEntity, position: Position)
      requires entity.id == entityID
      modifies this`lastEntityPositions, this`entitiesByHopper, server`tiles, server`blockUpdates
      ensures Snapshot(server) == Step(old(Snapshot(server)), entity, position, server.hopperBlocks)
    {
      ghost var before := Snapshot(server);
      if entityID in lastEntityPositions && MovedFar(position, lastEntityPositions[entityID]) {
        return;
      }
      lastEntityPositions := lastEntityPositions[entityID := position];
      var hopper := BlockAt(position);
      if !(hopper in server.hopperBlocks && hopper in server.tiles) {
        hopper := BlockAt(Down(position));
        if !(hopper in server.hopperBlocks && hopper in server.tiles) {
          assert ResolveHopper(server.hopperBlocks, before.flags.Keys, position) == None;
          return;
        }
      }
      assert ResolveHopper(server.hopperBlocks, before.flags.Keys, position) == Some(hopper);
      if !server.tiles[hopper] {
        server.blockUpdates := server.blockUpdates + [hopper];
        server.tiles := server.tiles[hopper := true];
      }
      FileInHopper(hopper, entityID, entity);
    }

    /** Files `entity` under `entityID` in the bucket of `hopper`, creating missing entries on the way. */
    method FileInHopper(hopper: HopperKey, entityID: EntityId, entity: ItemEntity)
      requires entity.id == entityID
      modifies this`entitiesByHopper
      ensures entitiesByHopper == Insert(old(entitiesByHopper), hopper, entity)
    {
      var worldID := hopper.world;
      if worldID !in entitiesByHopper {
        entitiesByHopper := entitiesByHopper[worldID := map[]];
      }
      if hopper.pos !in entitiesByHopper[worldID] {
        entitiesByHopper := entitiesByHopper[worldID := entitiesByHopper[worldID][hopper.pos := map[]]];
      }
      ghost var blocks := if worldID in old(entitiesByHopper) then old(entitiesByHopper)[worldID] else map[];
      assert entitiesByHopper == old(entitiesByHopper)[worldID := entitiesByHopper[worldID]];
      assert entitiesByHopper[worldID] == blocks[hopper.pos := entitiesByHopper[worldID][hopper.pos]];
      assert entitiesByHopper[worldID][hopper.pos] == BucketAt(old(entitiesByHopper), hopper);
      var hopperEntities := entitiesByHopper[worldID][hopper.pos][entityID := entity];
      assert entitiesByHopper[worldID][hopper.pos := hopperEntities] == blocks[hopper.pos := hopperEntities];
      entitiesByHopper := entitiesByHopper[worldID := entitiesByHopper[worldID][hopper.pos := hopperEntities]];
      assert entitiesByHopper == old(entitiesByHopper)[worldID := blocks[hopper.pos := hopperEntities]];
    }
  }
}
