# VanillaHopper item-entity manager, modelled in Dafny

This project models `ItemEntityManager` of the VanillaHopper plugin for
PocketMine-MP. The manager tracks dropped item entities. On every server tick
it checks which of them have come to rest on a hopper, and it files each
resting item in that hopper's bucket, so that the hopper can later collect it.

The model has five modules:

- `World`: what the manager reads from the server. It has positions, integer
  block coordinates (`BlockAt`, `Down`) and the motion test `MovedFar`. It also
  has `ResolveHopper`, which finds the hopper at an item's block or the block
  below. The class `Server` holds the hopper blocks, the hopper tiles with their
  "scheduled for delayed block update" flags, and the log of delayed block
  updates requested from the block update scheduler.
- `HopperIndex`: the nested map `entitiesByHopper` (world id → block → entity
  id → entity), with lookup (`BucketAt`), `Insert` and `Remove`.
- `SettleScan`: one tick's scan as a pure function. `Step` handles one item and
  `Scan` folds `Step` over the tracked items in registry order. The lemmas here
  state what a tick does.
- `ItemEntities`: the class `ItemEntityManager`. Its fields are `entities`,
  `order`, `lastEntityPositions`, `entitiesByHopper` and `taskScheduled`.
  `order` is the iteration order of the PHP array `entities`: first insertion
  order, kept on overwrite and dropped on `unset`. `taskScheduled` stands for
  `taskHandler !== null`. `Tick` is the closure the recurring task runs, and it
  is proved equal to `Scan`.
- `Scenario`: clients that drive the class through the settle, stay, move-away
  and cancel/re-add sequence.

The class invariant `Valid()` says four things:

- every entity is stored under its own id;
- `order` lists exactly the registered ids, once each;
- last positions exist only for registered ids;
- a non-empty registry has its tick task scheduled.

## Model

| member | source | states |
|---|---|---|
| `World.BlockAt` | src/ColinHDev/VanillaHopper/entities/ItemEntityManager.php:87-88 | the block looked up for a position is in the same world and contains the position (each coordinate rounded down) |
| `World.Down` | src/ColinHDev/VanillaHopper/entities/ItemEntityManager.php:90-91 | the block below a position is the block one lower in y, same x, z and world |
| `World.ResolveHopper` | src/ColinHDev/VanillaHopper/entities/ItemEntityManager.php:87-95 | the item's own block is used if it is a hopper block with a hopper tile; otherwise the block below if that one qualifies; otherwise none; a result is always both a hopper block and a hopper tile |
| `HopperIndex.Insert` | src/ColinHDev/VanillaHopper/entities/ItemEntityManager.php:109-117 | filing an entity changes only the bucket of that hopper, which gains the entity under its id; missing world and block entries are created; other worlds are untouched; buckets stay keyed by id |
| `HopperIndex.Remove` | src/ColinHDev/VanillaHopper/entities/ItemEntityManager.php:58-62 | only that id leaves only that hopper's bucket; no world or block entry is created or deleted; absent id means no change |
| `World.MovedFar` | src/ColinHDev/VanillaHopper/entities/ItemEntityManager.php:80 | the motion test: never true across worlds or for an unmoved item, and true in the same world whenever one coordinate changed by 1.0 or more |
| `SettleScan.Step` | src/ColinHDev/VanillaHopper/entities/ItemEntityManager.php:77-117 | one loop iteration: a moving item leaves the state unchanged; otherwise its position is recorded and no other last position changes; the tiles stay the same; earlier requests are kept and at most one is added. Its full effect is stated by `StepSettled` and the `Scan*` lemmas |
| `SettleScan.Scan` | src/ColinHDev/VanillaHopper/entities/ItemEntityManager.php:76-118 | the `foreach` over the registry: it keeps the set of tiles and adds at most one update request per item. Its properties are the `Scan*` lemmas |
| `SettleScan.StepSettled` | src/ColinHDev/VanillaHopper/entities/ItemEntityManager.php:85-117 | one step of an item that is not moving: it records the position and files the item at the resolved hopper and nowhere else; that hopper is flagged, and a request is appended exactly when its flag was clear |
| `SettleScan.ScanAppend` | src/ColinHDev/VanillaHopper/entities/ItemEntityManager.php:76-118 | scanning one list of items then another equals scanning them joined |
| `SettleScan.ScanSchedulesOnce` | src/ColinHDev/VanillaHopper/entities/ItemEntityManager.php:98-107 | a pass keeps the set of tiles and never clears a flag; it keeps earlier update requests; each new request is for a hopper whose flag was clear before and is set after; no hopper is requested twice; and every flag the pass raised came with a request |
| `SettleScan.FlaggedHopperNotRescheduled` | src/ColinHDev/VanillaHopper/entities/ItemEntityManager.php:98-107 | a hopper whose tile flag is set gets no delayed block update in a pass, however many items rest on it, and its flag stays set |
| `SettleScan.ScanUntouched` | src/ColinHDev/VanillaHopper/entities/ItemEntityManager.php:76-118 | an id that the pass does not visit keeps its last position and every bucket entry |
| `SettleScan.ScanSettledRecordsPosition` | src/ColinHDev/VanillaHopper/entities/ItemEntityManager.php:78-85 | an item with no last position, a last position in another world, or one less than 1.0 away ends the pass with its current position as last position, even when no hopper is found |
| `SettleScan.ScanSettledFiled` | src/ColinHDev/VanillaHopper/entities/ItemEntityManager.php:87-117 | such an item is filed under its id in exactly the hopper it resolves to (its own block or the one below); that hopper's flag is set after the pass, and if the flag was clear before, a delayed block update for it was requested in this pass; its entries in every other bucket are unchanged |
| `SettleScan.ScanSkipped` | src/ColinHDev/VanillaHopper/entities/ItemEntityManager.php:78-83 | an item that moved at least 1.0 in the same world since its last check keeps its last position; it is neither added to nor removed from any bucket |
| `SettleScan.ScanKeepsWellKeyed` | src/ColinHDev/VanillaHopper/entities/ItemEntityManager.php:117 | after a pass, every bucket still stores each entity under its own id |
| `ItemEntities.WithoutId` | src/ColinHDev/VanillaHopper/entities/ItemEntityManager.php:38 | unsetting a key of the PHP array removes just that id from the iteration order: the result is the order with that one position cut out, so the other ids keep their order; it stays duplicate-free; a missing id changes nothing |
| `ItemEntities.ItemEntityManager.constructor` | src/ColinHDev/VanillaHopper/entities/ItemEntityManager.php:22-28 | the manager starts with no task, no entities, no last positions and an empty index |
| `ItemEntities.ItemEntityManager.AddItemEntity` | src/ColinHDev/VanillaHopper/entities/ItemEntityManager.php:30-34 | the entity is stored under its id, overwriting an earlier entry (a new id goes to the end of the iteration order); the task is scheduled afterwards, and a new task is started only if none was scheduled; nothing else changes |
| `ItemEntities.ItemEntityManager.RemoveItemEntity` | src/ColinHDev/VanillaHopper/entities/ItemEntityManager.php:36-40 | the id leaves the registry and the last positions; the hopper index and the task are unchanged, so stale bucket entries remain |
| `ItemEntities.ItemEntityManager.GetEntitiesByHopper` | src/ColinHDev/VanillaHopper/entities/ItemEntityManager.php:45-56 | the result is the empty map when the world or the block has no entry, and otherwise exactly the stored bucket, keyed by entity id; nothing is modified |
| `ItemEntities.ItemEntityManager.RemoveEntityFromHopper` | src/ColinHDev/VanillaHopper/entities/ItemEntityManager.php:58-62 | the index becomes `Remove` of the old index; all other fields are unchanged |
| `ItemEntities.ItemEntityManager.ScheduleTask` | src/ColinHDev/VanillaHopper/entities/ItemEntityManager.php:64-68 | afterwards the task is scheduled; a task is started only when none was scheduled; the registry and the index are unchanged |
| `ItemEntities.ItemEntityManager.Tick` | src/ColinHDev/VanillaHopper/entities/ItemEntityManager.php:70-136 | an empty registry, checked at the start, clears the task and changes nothing else; otherwise the last positions, the index, the tile flags and the update log become `Scan` of their old values over the tracked entities in order. The ordering pass leaves them as the scan left them. Either way flags only rise, no hopper is requested twice, and every raised flag came with a request; the registry is unchanged |
| `ItemEntities.ItemEntityManager.ScanEntity` | src/ColinHDev/VanillaHopper/entities/ItemEntityManager.php:77-117 | one loop iteration changes the scanned state exactly as `Step` does |
| `ItemEntities.ItemEntityManager.FileInHopper` | src/ColinHDev/VanillaHopper/entities/ItemEntityManager.php:109-117 | the nested, entry-creating assignments give `Insert` of the old index |

## Left out

- Floating point: positions are exact reals. `Position::distance(...) >= 1.0`
  (line 80) is modelled as squared distance `>= 1.0`, which is equivalent for
  exact arithmetic; no `sqrt` is taken. Rounding at the threshold is not modelled.
- Block hashing: `World::blockHash` and `World::getBlockXYZ` are replaced by the
  block coordinates themselves, i.e. the hash is taken to be injective.
- Host calls: `World::getBlock` and `World::getTile` are modelled by the
  `Server` sets of hopper blocks and hopper tiles. The server does not change
  them during a tick. Entity positions are a function parameter of `Tick`.
- Scheduler: `scheduleDelayedRepeatingTask`, `ClosureTask`,
  `CancelTaskException` and `TaskHandler` become the `taskScheduled` flag and
  the `Tick` method. `Tick` may only run while the task is scheduled. The
  ghost counter `tasksStarted` counts task schedules.
- `BlockUpdateScheduler::scheduleDelayedBlockUpdate` and
  `setTransferCooldown`: only the request is recorded (`Server.blockUpdates`),
  together with the flag change. The returned cooldown value is not modelled.
- The ordering pass (lines 121-135) calls `uksort` on the by-value copy
  `$hopperEntities`. It never changes `entitiesByHopper`, so `Tick` leaves the
  index as the scan left it. The comparator (lines 129-132) never returns 0 and
  may compare `false` from `array_search`. Its order is therefore not a valid
  total order and is not specified.
- Tick: the model assumes that every world with an entry in `entitiesByHopper`
  is still loaded, so that the ordering pass always finishes. In the source,
  line 122 looks up each indexed world, and an unloaded world yields null.
  Index entries are never dropped, so a bucket of two or more entries in an
  unloaded world makes the comparator at lines 129-131 call
  `getChunkEntities` on null. That error ends every later tick that has a
  non-empty registry. The model's `Tick` always returns normally.
- Bucket order: PHP arrays keep insertion order. Buckets are modelled as maps,
  so the order in which `getEntitiesByHopper` lists entities is not modelled.
- The registry is not guaranteed to put each item in at most one bucket. Stale
  entries remain after an item moves away or is removed, and the model keeps
  them (`RemoveItemEntity`, `ScanSkipped`).
- `Valid()` proves that a non-empty registry has its task scheduled. The
  converse does not hold: the task stays scheduled after the last removal until
  the next tick finds the registry empty.
- `EntitySpawnListener` (clearing `justCreated` by reflection on spawn) is not
  part of this model. It is a host event hook with no manager state.
- The singleton accessor (`SingletonTrait`) is not modelled. The manager is
  an explicitly constructed object.
