/**
 * Clients of the manager: an item settles on the hopper below it, stays,
 * and moves away; and the tick task cancels itself on an empty registry
 * and is scheduled again by the next registration.
 */
module Scenario {
  import opened Wrappers
  import opened World
  import opened HopperIndex
  import opened SettleScan
  import opened ItemEntities

  /** First check of a new item above a hopper: filed there, one block update. */
  method SettleOnHopperBelow() {
    var hopper := HopperKey(0, BlockPos(0, 63, 0));
    var server := new Server({hopper}, map[hopper := false]);
    var manager := new ItemEntityManager();
    var item := ItemEntity(1);
    manager.AddItemEntity(item);
    assert manager.Tracked() == [item];

    var resting := Position(0, 0.5, 64.0, 0.5);
    ghost var st := manager.Snapshot(server);
    manager.Tick(server, e => resting);
    ScanOne(st, item, e => resting, server.hopperBlocks);
    var onHopper := manager.GetEntitiesByHopper(hopper);
    assert onHopper == map[1 := item];
    assert server.blockUpdates == [hopper] && server.tiles[hopper];
    assert manager.lastEntityPositions == map[1 := resting];
  }

  /** A second check of the unmoved item: no second block update for the flagged tile. */
  method StayOnFlaggedHopper() {
    var hopper := HopperKey(0, BlockPos(0, 63, 0));
    var server := new Server({hopper}, map[hopper := true]);
    var manager := new ItemEntityManager();
    var item := ItemEntity(1);
    manager.AddItemEntity(item);
    assert manager.Tracked() == [item];

    var resting := Position(0, 0.5, 64.0, 0.5);
    ghost var st := manager.Snapshot(server);
    manager.Tick(server, e => resting);
    ScanOne(st, item, e => resting, server.hopperBlocks);
    var onHopper := manager.GetEntitiesByHopper(hopper);
    assert onHopper == map[1 := item];
    assert server.blockUpdates == [];
  }

  /** An item that moved two units since its last check is skipped; its stale entry stays. */
  method MoveAwayFromHopper() {
    var hopper := HopperKey(0, BlockPos(0, 63, 0));
    var server := new Server({hopper}, map[hopper := false]);
    var manager := new ItemEntityManager();
    var item := ItemEntity(1);
    manager.AddItemEntity(item);
    assert manager.Tracked() == [item];
    var resting := Position(0, 0.5, 64.0, 0.5);
    ghost var st0 := manager.Snapshot(server);
    manager.Tick(server, e => resting);
    ScanOne(st0, item, e => resting, server.hopperBlocks);
    assert manager.lastEntityPositions == map[1 := resting];

    var away := Position(0, 0.5, 64.0, 2.5);
    ghost var st := manager.Snapshot(server);
    manager.Tick(server, e => away);
    ScanOne(st, item, e => away, server.hopperBlocks);
    assert manager.lastEntityPositions == map[1 := resting];
    var onHopper := manager.GetEntitiesByHopper(hopper);
    assert onHopper == map[1 := item];
    assert server.blockUpdates == [hopper];
  }

  /** Removal keeps bucket entries; the next tick cancels the task; a new item schedules it again. */
  method CancelAndReschedule() {
    var hopper := HopperKey(0, BlockPos(0, 63, 0));
    var server := new Server({hopper}, map[hopper := false]);
    var manager := new ItemEntityManager();
    var item := ItemEntity(1);
    manager.AddItemEntity(item);
    manager.AddItemEntity(item);
    assert manager.tasksStarted == 1;
    assert manager.Tracked() == [item];
    var resting := Position(0, 0.5, 64.0, 0.5);
    ghost var st := manager.Snapshot(server);
    manager.Tick(server, e => resting);
    ScanOne(st, item, e => resting, server.hopperBlocks);
    assert manager.entitiesByHopper == map[0 := map[BlockPos(0, 63, 0) := map[1 := item]]];

    manager.RemoveItemEntity(item);
    var onHopper := manager.GetEntitiesByHopper(hopper);
    assert onHopper == map[1 := item];
    assert manager.taskScheduled;
    manager.Tick(server, e => Position(0, 0.0, 0.0, 0.0));
    assert !manager.taskScheduled && manager.entitiesByHopper == map[0 := map[BlockPos(0, 63, 0) := map[1 := item]]];

    manager.AddItemEntity(item);
    assert manager.taskScheduled && manager.tasksStarted == 2;
  }
}
