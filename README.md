# browgine core, modelled in Dafny

browgine is a small server-driven 2D multiplayer engine written in JavaScript. The server runs a 20 Hz tick loop. Each tick it:

- flags timed-out players;
- removes flagged entities;
- sweeps every entity against a static tile map;
- collects colliding pairs through an axis-aligned box test and a separating-axis narrow phase;
- applies collision impulses.

Clients keep a mirror list of entities, which the server's messages update.

This project models the discrete, rule-based part of that engine and proves properties of the model:

- **Quadtree** (`QuadTrees`, QuadTree.dfy): the broad-phase tree with `getIndex`, `split`, `insert` and its redistribution loop, `clear`, and `retrieve`. Nodes are values: `insert`, the redistribution loop and `clear` are methods with the source's loops that return the updated node. A validity invariant states the tree's shape:
  - four children or none;
  - children one level down with the quadrant bounds;
  - every object below a child lies in that child's quadrant;
  - every object kept at a split node straddles a midpoint.

  Insertion is proved to keep the invariant and to store exactly one object more, as a multiset.
- **Tile map** (`WorldMap`, WorldMap.dfy): the 15-by-14 grid, `centerIndex` and `getTileAtPos`.
- **Physics rules** (`Physics`, Physics.dfy):
  - the tile sweep of `collisionCheck` (x probe, then y probe, then rollback);
  - the closed-interval box test;
  - the box early exit of `isColliding`, with the separating-axis test as an opaque parameter;
  - the nested pair-collection loops;
  - the "already separating" gate of the impulse resolution and the impulse it computes.
- **Physics state** (`PhysicsStates`, PhysicsState.dfy): constructor defaults, the vertex fold of `setMesh`, `clone`, `setMass`, `recalculate` and `buildAABB`. The sine and cosine of the angle are parameters.
- **Entity records** (`Entities`, Entity.dfy): the base entity's setters and getters, and the player's `init`, walk-velocity rule and `getVelocity`. The input record and its `toString` are in `Inputs`, Input.dfy.
- **Entity managers** (`EntityLists`, `ServerEntities`, `ClientEntities`). On the server: id allocation, removal by splice and lookup by id. On the client: the model-file decoder, creation, update, removal and lookup.
- **Scheduler** (`GameServers`, GameServer.dfy): the tick gate, timeout flagging, the attack cooldown and the remove-while-iterating loop of `update`.
- **Chat commands** (`ChatCommands`, ChatHandler.dfy): prefix dispatch and the `/setname` rule.

Modelling choices:

- Coordinates, masses and velocities are `real`. Times are integer milliseconds passed in as parameters.
- A vector from the vector2 library is the value type `Vec`. A statement that changes one component in place becomes an assignment of a new value to the field that holds the vector.
- `getPos`, `getEntities` and `getPlayers` are reads of the modelled fields. `getPos` returns a `Vec` value, so no caller can reach the entity's position through it.
- A position outside the tile grid reads as `null`/`undefined`, which is `!== 1`, so the sweep treats it as blocked.

## Model

| member | source | states |
|---|---|---|
| `WorldMap.GetTileAtPos` | server/worldmap.js:31-39 | a tile is returned exactly when the rounded row is within the 15 rows and the rounded column within the 14 columns; a row outside the grid gives `null`; any tile returned is 0 or 1 |
| `WorldMap.GridShape` | server/worldmap.js:10-28 | the grid has 15 rows of 14 entries, each 0 or 1, and `centerIndex` is 7 |
| `WorldMap.BorderIsWall` | server/worldmap.js:10-26 | every border cell of the grid is 0 (wall) |
| `WorldMap.OpenIsInterior` | server/worldmap.js:31-39 | a position that reads an open tile lies strictly inside the border rows and columns |
| `WorldMap.TileDependsOnlyOnCell` | server/worldmap.js:32-33 | a position and the centre of the cell it rounds to have the same row, column and tile |
| `WorldMap.SameCellSameTile` | server/worldmap.js:31-39 | two positions that round to the same cell read the same tile |
| `WorldMap.SpawnIsOpen` | server/server.js:23 | the player spawn point (2, -2) maps to row 9, column 9, an open tile |
| `Inputs.NatToString` | common/input.js:13-21 | a number's decimal rendering is non-empty, all digits, and one character long exactly below 10 |
| `Inputs.IntToString` | common/input.js:13-21 | an integer's rendering is non-empty and never contains the `:` separator |
| `Inputs.NatToStringInjective` | common/input.js:13-21 | distinct naturals render differently |
| `Inputs.SignShows` | common/input.js:13-21 | a rendering starts with `-` exactly for negative numbers |
| `Inputs.IntToStringInjective` | common/input.js:13-21 | distinct integers render differently |
| `Inputs.JoinSeparatorCount` | common/input.js:13-21 | joining n separator-free fields with `:` gives exactly n - 1 separators |
| `Inputs.SplitJoin` | common/input.js:13-21 | splitting a join of separator-free fields at `:` gives the fields back |
| `Inputs.ToString` | common/input.js:13-21 | when neither aim component renders with a `:`, the string splits back at `:` into the eight fields in order up, down, left, right, use, aim x, aim y, attack |
| `Inputs.SerialisationHasSevenSeparators` | common/input.js:13-21 | `toString` always holds exactly seven `:` |
| `Inputs.SerialisationInjective` | common/input.js:13-21 | two inputs with equal `toString` are equal, given a one-to-one rendering of the aim numbers |
| `Inputs.IdleSerialisation` | common/input.js:3-21 | a new `Input` serialises as `0:0:0:0:0:0:0:0` |
| `PhysicsStates.LeastBounds` | common/physicsState.js:73-85 | the minimum fold is at most its start and every element, and is the start or an element |
| `PhysicsStates.GreatestBounds` | common/physicsState.js:73-89 | the maximum fold is at least its start and every element, and is the start or an element |
| `PhysicsStates.LeastStep` | common/physicsState.js:74-76 | one loop step of the minimum fold, at position i |
| `PhysicsStates.GreatestStep` | common/physicsState.js:78-80 | one loop step of the maximum fold, at position i |
| `PhysicsStates.HalfExtentNonNegative` | common/physicsState.js:66-92 | over a non-empty mesh each half extent is at least 0 |
| `PhysicsStates.HalfExtentIsSpread` | common/physicsState.js:66-92 | with coordinates inside the sentinels the folds are the smallest and largest coordinate of the mesh |
| `PhysicsStates.EmptyMeshExtent` | common/physicsState.js:66-92 | an empty mesh leaves both half extents at -99999 |
| `PhysicsStates.DefaultMeshExtent` | common/physicsState.js:6-11 | the default unit square has half extents 0.5 |
| `PhysicsStates.BoxExtents` | common/physicsState.js:125-140 | the extents `buildAABB` computes are never negative |
| `PhysicsStates.BoxIsSquare` | common/physicsState.js:134-140 | the two extents are always equal: the box is square whatever the mesh |
| `PhysicsStates.BoxMissesRotatedCorner` | common/physicsState.js:125-146 | a 4-by-1 mesh at cos 0.8, sin 0.6 gets box [-1.6, 1.6] while a rotated corner lies at x = 1.9 |
| `PhysicsStates.EnclosingExtents` | common/physicsState.js:125-146 | the corrected extents are non-negative for non-negative half extents |
| `PhysicsStates.EnclosingExtentsEnclose` | common/physicsState.js:125-146 | the corrected extents contain every rotated corner of the mesh rectangle |
| `PhysicsStates.EnclosingExtentsTightX` | common/physicsState.js:125-146 | a rotated corner reaches the corrected x extent, so no smaller box encloses the rectangle |
| `PhysicsStates.EnclosingExtentsTightY` | common/physicsState.js:125-146 | a rotated corner reaches the corrected y extent |
| `PhysicsStates.PhysicsState.constructor` | common/physicsState.js:5-32 | every default field value, the unit-square mesh with half extents 0.5, and the zero box |
| `PhysicsStates.PhysicsState.SetMesh` | common/physicsState.js:65-96 | the mesh is stored, the half extents are half the folded spread per axis, the box is reset to zero |
| `PhysicsStates.PhysicsState.CopyVertices` | common/physicsState.js:43-45 | the copy loop yields the same vertices in order |
| `PhysicsStates.PhysicsState.CopyKinematics` | common/physicsState.js:38-41 | angle, momentum, position and velocity become the given values, and no other field changes |
| `PhysicsStates.PhysicsState.Clone` | common/physicsState.js:34-50 | as written: angle, momentum, position and velocity copied; empty mesh and half extents -99999; every other field (angular momentum and velocity, spin, size, mass, inverse mass, inertia, inverse inertia, time, elasticity) keeps its constructor default; the local box is zero |
| `PhysicsStates.PhysicsState.CloneWithMesh` | common/physicsState.js:34-50 | as intended: the same copies, and the clone also has the same mesh and half extents; every other field keeps its constructor default and the local box is zero |
| `PhysicsStates.CloneDropsMesh` | common/physicsState.js:34-50 | the default state has half width 0.5 and its clone -99999 |
| `PhysicsStates.PhysicsState.SetMass` | common/physicsState.js:52-55 | the mass is stored and the inverse mass is its reciprocal |
| `PhysicsStates.PhysicsState.BuildAABB` | common/physicsState.js:125-146 | as written: the box is centred (min = -max) and its extents are the as-written `BoxExtents`, never negative whatever sin and cos are |
| `PhysicsStates.PhysicsState.BuildEnclosingAABB` | common/physicsState.js:125-146 | as intended: the box is centred and its extents are those of the rotated mesh rectangle, non-negative for non-negative half extents |
| `PhysicsStates.PhysicsState.Recalculate` | common/physicsState.js:57-63 | velocity is momentum times inverse mass and angular velocity is angular momentum times inverse inertia; the box is rebuilt centred, with the corrected extents (see Findings) |
| `Entities.WalkVelocity` | entities/player/shared.js:35-59 | each walk component is -5, 0 or 5; a component is 0 exactly when its two opposite keys are both held or both released, and positive exactly when only the key along the axis (right, up) is held |
| `Entities.ServerModel` | entities/longblock/server.js:7-11 | the server-side model name is "longblock" exactly for a longblock; every other class keeps "base" (entities/base/server.js:11-13, and the prototype default for a player) |
| `Entities.Entity.constructor` | entities/base/shared.js:17-23 | zero applied force and torque, two distinct fresh default physics states; the player fields of `init` (entities/player/shared.js:7-14): idle input, zero walk velocity, attack delay 500, last attack 0, name "Unnamed Player", last input time now. In the program only players run that `init`; here every entity gets these fields, which is harmless because every read of them is guarded by `IsPlayer()` |
| `Entities.Entity.ShouldRemove` | entities/base/shared.js:25-27 | the removal flag becomes the argument; nothing else may change |
| `Entities.Entity.ApplyImpulse` | entities/base/shared.js:29-32 | the momentum grows by the impulse and the velocity is the new momentum times the inverse mass |
| `Entities.Entity.SetPos` | entities/base/shared.js:37-40 | the position becomes the argument; only the position may change |
| `Entities.Entity.SetAngle` | entities/base/shared.js:42-44 | the angle becomes the argument; only the angle may change |
| `Entities.Entity.SetName` | entities/player/shared.js:23-25 | the name becomes the argument; only the name may change |
| `Entities.Entity.GetPos` | entities/base/shared.js:46-48 | the current position, as a value |
| `Entities.Entity.GetVelocity` | entities/player/shared.js:27-29 | the velocity differs from the physics velocity by the walk velocity for a player and by nothing for any other entity (entities/base/shared.js:90-92), so a player under the idle input moves at its physics velocity |
| `Entities.Entity.GetAABB` | entities/base/shared.js:93-98 | the world box has the local box's width and height, and min <= max holds in the world box whenever it holds locally |
| `Entities.Entity.ClearAppliedForce` | entities/base/shared.js:113-116 | the applied force is zero afterwards |
| `Entities.Entity.ClearAppliedTorque` | entities/base/shared.js:118-121 | the applied torque is zero afterwards |
| `Entities.Entity.PhysicsSimulate` | entities/player/shared.js:35-63 | the returned force is always zero; a player's walk velocity becomes the input's walk velocity, depending on the current input alone (so a second call changes nothing); for any other entity (entities/base/shared.js:86-88) the walk velocity is untouched |
| `Entities.CentredWorldBox` | entities/base/shared.js:93-98 | a local box built by `buildAABB` gives a well-formed world box centred on the position |
| `Physics.Unblock` | server/physics.js:73-99 | each coordinate of the unblocked position is the new or the last-tick value, and the result is an open tile or exactly the last-tick position |
| `Physics.SweepResult` | server/physics.js:66-100 | an entity on an open tile keeps its position; otherwise each coordinate is the new or the last-tick value, and the entity ends on an open tile or exactly at its last-tick position |
| `Physics.SweepKeepsOpenProbes` | server/physics.js:76-92 | an open x-only probe keeps the new x, and an open y probe at the resolved x keeps the new y, unless the final rollback applies |
| `Physics.SweepRevertsFullyBlocked` | server/physics.js:76-99 | when both single-axis probes are blocked the entity returns to its last-tick position |
| `Physics.UnblockEntity` | server/physics.js:73-99 | the position becomes the sweep result computed from the last-tick position |
| `Physics.SweepEntity` | server/physics.js:66-100 | one entity's position becomes its sweep result from the last-tick position; no other entity's position and no last-tick position moves |
| `Physics.TileSweep` | server/physics.js:64-101 | every entity's position becomes its sweep result, so an entity on an open tile does not move; no other field of any state changes |
| `Physics.IsAABBColliding` | server/physics.js:170-176 | for well-formed boxes the test holds exactly when the intersection of the x intervals and that of the y intervals are both non-empty |
| `Physics.AABBCollidingIffCommonPoint` | server/physics.js:170-176 | two well-formed boxes collide exactly when some point lies in both closed boxes |
| `Physics.AABBCollidingSymmetric` | server/physics.js:170-176 | the box test is symmetric |
| `Physics.TouchingBoxesCollide` | server/physics.js:170-176 | boxes that only share an edge collide |
| `Physics.IsColliding` | server/physics.js:178-197 | no collision without box overlap; any collision reported is the narrow phase's verdict |
| `Physics.CollectCollisions` | server/physics.js:103-140 | the loops record exactly the collisions of `AllCollisions`, the definition over all ordered pairs, in order |
| `Physics.CollectRow` | server/physics.js:113-139 | the inner loop records exactly one entity's row of collisions, in order |
| `Physics.RowMembership` | server/physics.js:113-139 | a collision is in an entity's row exactly when its second entity is another member of the list and the test reports that translation |
| `Physics.CollisionMembership` | server/physics.js:107-140 | a collision is recorded exactly for an ordered pair of distinct entities that the box test and the narrow phase accept |
| `Physics.NoSelfCollision` | server/physics.js:114-116 | no recorded collision pairs an entity with itself |
| `Physics.BothOrdersRecorded` | server/physics.js:118-124 | with the duplicate check disabled, a colliding pair is recorded in both orders |
| `Physics.CollisionResponse` | server/physics.js:143-159 | nothing is applied exactly when the contact velocity is at least 0 |
| `Physics.ContactAfterPush` | server/physics.js:154-166 | pushing A by `j n` and B by `-j n` through their inverse masses changes the contact velocity by `j (n . n (invMassA + invMassB))` |
| `Physics.PushReversesContact` | server/physics.js:154-166 | the computed impulse, applied to both bodies, makes the contact velocity -0.8 times what it was |
| `EntityLists.RemoveAt` | server/lib/entity-manager.js:91 | removing at an index keeps the elements before it and shifts the ones after it down by one |
| `EntityLists.SpliceOne` | server/lib/entity-manager.js:91 | `splice(start, 1)` removes the element at a start inside the array and nothing at a start at or past its end |
| `EntityLists.FirstWithId` | server/lib/entity-manager.js:122-130 | the index found holds the id and no earlier entity does; no index means no entity holds it |
| `EntityLists.FindById` | server/lib/entity-manager.js:122-130 | the search returns the first entity with the id, and null exactly when none has it |
| `EntityLists.FirstIsUnique` | server/lib/entity-manager.js:122-130 | an index that holds the id, with no earlier match, is the one the search finds |
| `EntityLists.IncreasingIdsFindTheOne` | server/lib/entity-manager.js:76-77 | with ids increasing along the list, the search for an entity's id finds that entity |
| `ServerEntities.RemoveAtKeepsIdsIncreasing` | server/lib/entity-manager.js:88-105 | removing one entity keeps the ids increasing |
| `ServerEntities.SpliceKeepsIds` | server/lib/entity-manager.js:89-91 | whatever the splice removes, ids stay increasing and below the creation counter |
| `ServerEntities.ServerEntityManager.constructor` | server/lib/entity-manager.js:8-15 | both lists are empty, the counter is 0, and the lists are valid: ids increasing and below the counter, an id on both lists naming the same entity, only players on the player list |
| `ServerEntities.ServerEntityManager.CreateEntity` | server/lib/entity-manager.js:59-86 | an unregistered class changes nothing and gives null; otherwise the new entity gets the pre-increment counter as id and the new list length as `entityId`, and is appended to the entities, and to the players exactly when its class is "player"; ids stay valid |
| `ServerEntities.CreationKeepsLists` | server/lib/entity-manager.js:73-83 | appending an entity whose id is the creation counter to the entity list, and to the player list when it is a player, keeps the ids increasing and below the new counter, keeps an id on both lists to one entity, and keeps only players on the player list |
| `ServerEntities.ServerEntityManager.RemovePlayer` | server/lib/entity-manager.js:93-105 | the first player with the id leaves the list and is handed to the disconnect handler; without one nothing changes |
| `ServerEntities.ServerEntityManager.RemoveEntity` | server/lib/entity-manager.js:88-106 | as written: the entity list is spliced at `entity.entityId`, and a player is removed from the player list as above |
| `ServerEntities.ServerEntityManager.RemoveEntityAt` | server/lib/entity-manager.js:88-106 | as intended: exactly the entity at the caller's index leaves the list |
| `ServerEntities.ServerEntityManager.GetEntityById` | server/lib/entity-manager.js:122-130 | the first entity with the id, and null exactly when none has it |
| `ServerEntities.SpliceAtEntityIdMissesEntity` | server/lib/entity-manager.js:77-91 | an entity at position k with `entityId` k + 1 survives the splice; the next entity goes instead, or nothing when it is last |
| `ServerEntities.ValidIdsAreDistinct` | server/lib/entity-manager.js:76 | two entities of a valid manager never share an id |
| `GameServers.Without` | server/server.js:96-118 | the survivors of a removal are elements of the list outside the removed set, and every such element survives |
| `GameServers.AsWrittenRemovalStalls` | server/server.js:96-118 | with the splice as written, one loop step at a flagged last entity whose `entityId` is the list length leaves both the list and the index unchanged, and the index still below the length, so the loop never ends |
| `GameServers.GameServer.constructor` | server/server.js:18-28 | an empty, valid entity manager, frame 0, previous tick now |
| `GameServers.GameServer.Tick` | server/server.js:63-72 | an update runs exactly when previousTick + 50 <= now, with delta (now - previousTick) / 1000, at least 0.05; then previousTick is now, the frame is 0, and the update's list is returned with its timeout, survival, player-list and attack-time facts; otherwise the frame goes up by one, the entities, the players and every attack time stay, and nothing is returned |
| `GameServers.GameServer.ValidateConnectedPlayers` | server/server.js:186-193 | exactly the players silent for more than 30000 ms are flagged lagged out and being removed; other players are untouched |
| `GameServers.GameServer.PlayerAttack` | server/server.js:129-134 | the attack fires exactly when the attack delay has elapsed since the last attack, and then the last attack time becomes now |
| `GameServers.GameServer.Update` | server/server.js:90-123 | after timeout flagging and the removal loop, the list handed to physics is the entities present before the loop minus the flagged ones, in their original order, and none of them is flagged; a player silent for more than 30000 ms is not in it, and an unflagged entity that did not time out is. A player on both lists that was flagged or timed out has left the player list; a player that was neither is still on it. Every entity's attack time is the one its visit gives: now for a player holding attack whose cooldown has elapsed, unchanged otherwise |
| `GameServers.GameServer.VisitAsWritten` | server/server.js:97-117 | one loop step as written: a flagged entity is spliced at its `entityId` through `removeEntity` and the index stays; any other entity moves the index on. A flagged player also loses the first player with its id (none: the player list stays); otherwise the player list stays. The visited entity's attack time becomes now exactly when it is a player holding attack whose cooldown has elapsed; no other attack time changes |
| `GameServers.GameServer.Visit` | server/server.js:97-117 | corrected loop step (see Findings): the entity at the index leaves exactly when it is flagged, and otherwise the list is unchanged. A flagged player also loses the first player with its id (none: the player list stays); otherwise the player list stays. The visited entity's attack time becomes now exactly when it is a player holding attack whose cooldown has elapsed; no other attack time changes |
| `GameServers.GameServer.RemoveFlagged` | server/server.js:96-118 | the loop ends with exactly the unflagged entities, in order; a flagged player that was on both lists has left the player list, every unflagged player is still on it, and each entity present at the start was visited once, so its attack time is the one its visit gives |
| `GameServers.GameServer.SweepStep` | server/server.js:96-118 | one pass of the loop keeps the loop state (survivors, player list, attack times with the visited entity counted as visited) and shrinks the work left |
| `GameServers.SweepRemoves` | server/server.js:104-114 | removing a flagged entity keeps the loop invariant at the same index |
| `GameServers.PlayersRemoves` | server/lib/entity-manager.js:93-105 | removing a flagged entity and then the first player with its id takes that entity off both lists and no other player: since an id on both lists names one entity, the player found is the entity itself |
| `GameServers.SweepKeeps` | server/server.js:115-117 | passing an unflagged entity keeps the loop invariant at the next index |
| `GameServers.SweepEnds` | server/server.js:96-118 | when the loop stops, the list is the unflagged entities of the start |
| `ClientEntities.DecodeMesh` | client/lib/entity-manager.js:29-31 | the loop yields ceil(n/2) vertices, vertex k built from coordinates 2k and 2k + 1 |
| `ClientEntities.FlattenLayout` | client/lib/entity-manager.js:29-31 | a model file's flat layout puts vertex k at coordinates 2k and 2k + 1 |
| `ClientEntities.DecodeFlattenRoundTrip` | client/lib/entity-manager.js:29-31 | decoding a flattened mesh gives back every vertex, in order, with both coordinates |
| `ClientEntities.MissingCoordinateIsLast` | client/lib/entity-manager.js:29-31 | a vertex lacks its y coordinate exactly when the array has odd length and it is the last vertex |
| `ClientEntities.ClientEntityManager.constructor` | client/lib/entity-manager.js:5-12 | an empty entity list over the registered classes |
| `ClientEntities.ClientEntityManager.CreateEntity` | client/lib/entity-manager.js:71-93 | a registered class appends exactly one new entity, with the server's id and the model it named |
| `ClientEntities.ClientEntityManager.UpdateEntity` | client/lib/entity-manager.js:95-114 | the first entity with the id gets the new position and angle and a centred box with the corrected extents; an unknown id gives null; no other entity changes |
| `ClientEntities.ClientEntityManager.RemoveEntity` | client/lib/entity-manager.js:116-127 | the first entity with the id leaves the list and is returned; otherwise null and no change |
| `ClientEntities.ClientEntityManager.GetEntityById` | client/lib/entity-manager.js:129-137 | the first entity with the id, and null exactly when none has it |
| `ClientEntities.RemovedIdIsGone` | client/lib/entity-manager.js:116-127 | with distinct ids, no entity with the removed id is left, and a later search gives null |
| `ClientEntities.CreatedIsFound` | client/lib/entity-manager.js:85-137 | an entity created with an id not in the list is what a later search for that id finds |
| `ChatCommands.Classify` | server/lib/chat-handler.js:12-65 | `/setname` is chosen exactly for a message that starts with it; a message is plain exactly when it starts with none of the four prefixes |
| `ChatCommands.IndexOf` | server/lib/chat-handler.js:13 | the position found holds the pattern and no earlier position does; none found means it occurs nowhere |
| `ChatCommands.HandleChatCommand` | server/lib/chat-handler.js:9-66 | on the handler the server builds (server/server.js:27, no entity manager): a plain message is broadcast, `/setname` is withheld and sets the name to the new name, and `/impulse`, `/shoot` and `/spawn` throw; each outcome exactly for its class of message; any other message keeps the name |
| `ChatCommands.RemoveFirst` | server/lib/chat-handler.js:13 | `replace` with a string pattern: with no occurrence the message is unchanged; otherwise putting the pattern back at its first occurrence gives the message again |
| `ChatCommands.Truncate` | server/lib/chat-handler.js:13 | `substring(0, n)`: a prefix of the string, of length n or the whole of a shorter string |
| `ChatCommands.NewName` | server/lib/chat-handler.js:13 | the new name has at most 30 characters, is a prefix of the message with its first "/setname " removed, and is all of it when that is short enough |
| `ChatCommands.SetNameTakesArgument` | server/lib/chat-handler.js:12-15 | `/setname ` followed by a name sets the name's first 30 characters |
| `ChatCommands.GluedPrefixIsSetName` | server/lib/chat-handler.js:12 | any text glued to `/setname` still counts as the command |
| `ChatCommands.GluedNameKeepsPrefix` | server/lib/chat-handler.js:12-15 | "/setnameBob" renames the player "/setnameBob", because only "/setname " with its space is removed |
| `ChatCommands.CommandsAreNotBroadcast` | server/lib/chat-handler.js:19-65 | every recognised prefix withholds the message; a broadcast message never starts with "/setname " |
| `QuadTrees.GetIndex` | common/quadtree.js:61-91 | the result is one of -1, 0, 1, 2, 3 |
| `QuadTrees.GetIndexStrict` | common/quadtree.js:73-88 | a box gets a quadrant exactly when it lies strictly to one side of both midpoints |
| `QuadTrees.TouchingMidpointStays` | common/quadtree.js:73-88 | a box that touches or crosses either midpoint gets -1 |
| `QuadTrees.DifferentQuadrantsApart` | common/quadtree.js:61-91 | boxes in two different quadrants never collide |
| `QuadTrees.Quadrant` | common/quadtree.js:25-59 | each child covers half the width and half the height |
| `QuadTrees.SplitLineIsNotTheMidpoint` | common/quadtree.js:46-71 | `split` starts the lower children at y + height/2, but `getIndex` divides at y - height/2; for a positive height these differ |
| `QuadTrees.DepthBound` | common/quadtree.js:3-4 | in a valid tree no node below a split node is deeper than level 10 |
| `QuadTrees.NewNode` | common/quadtree.js:2-10 | a new node is valid, empty and unsplit, with the given level and bounds |
| `QuadTrees.Split` | common/quadtree.js:25-59 | exactly four children, each valid and empty at level + 1 with half width and half height; the node's own objects stay |
| `QuadTrees.SplitHoldsNothingBelow` | common/quadtree.js:106-109 | splitting a leaf above the deepest level gives a split node whose contents are unchanged |
| `QuadTrees.ReplaceChildOfValid` | common/quadtree.js:97-101 | handing an object to the child of its quadrant keeps the tree valid and stores that one object more |
| `QuadTrees.MoveDown` | common/quadtree.js:116-119 | splicing an object out and inserting it into its quadrant's child keeps the stored multiset, and keeps the objects before it |
| `QuadTrees.KeepObject` | common/quadtree.js:104 | keeping an object at a leaf, or a straddling object at a split node, keeps the tree valid and stores that one object more |
| `QuadTrees.Settled` | common/quadtree.js:111-123 | a split node whose own objects all straddle is valid |
| `QuadTrees.Insert` | common/quadtree.js:93-125 | the tree stays valid and stores exactly one object more, as a multiset; delegation to a child leaves the node's own objects unchanged; a leaf below the thresholds just appends; a node splits only when it held at least 7 objects (more than 7 after the push) below level 10 |
| `QuadTrees.Redistribute` | common/quadtree.js:111-123 | after the loop every object left at the node straddles a midpoint, the tree is valid, and no object is lost or duplicated |
| `QuadTrees.Clear` | common/quadtree.js:12-23 | no objects and every child slot null, with the same number of slots; the node stores nothing |
| `QuadTrees.InternalRetrieve` | common/quadtree.js:127-135 | the result extends the accumulator, ends with the node's own objects, and adds only objects stored in the subtree |
| `QuadTrees.Retrieve` | common/quadtree.js:137-143 | every object returned is stored in the tree, and the root's objects always appear, last |
| `QuadTrees.RetrieveCompleteWhenDescending` | common/quadtree.js:127-143 | when the query never straddles a split node's midpoints on its way down, every stored object it collides with is returned |
| `QuadTrees.StraddlingQueryStops` | common/quadtree.js:128-134 | as written, a straddling query at a split node gets only the node's own objects |
| `QuadTrees.StraddlingQueryMissesCollidingObject` | common/quadtree.js:127-135 | a valid split tree whose object collides with a straddling query, yet `retrieve` misses it and `Candidates` finds it |
| `QuadTrees.Candidates` | common/quadtree.js:127-135 | corrected retrieval: every object returned is stored in the tree, and the node's own objects come last |
| `QuadTrees.CandidatesComplete` | common/quadtree.js:127-135 | corrected retrieval finds every stored object the query box collides with |

## Left out

- `QuadTrees`: nodes are values, not shared mutable objects. The model does not capture in-place update of a node that other references see, aliasing between nodes, or the recursive `clear` of a child that `clear` then drops (no value can reach that child afterwards).
- `QuadTrees.Insert`, `QuadTrees.Retrieve`, `QuadTrees.Candidates`: they require the validity invariant. Every tree built from `NewNode` by `Insert` and `Clear` keeps it.
- `QuadTrees.Redistribute`: the redistribution loop of `insert` is its own method, called by `Insert` after the push and any split.
- `QuadTrees.Item`: a stored object is an identifier and its box. Entities do not move while a tree built from them is in use.
- `PhysicsStates.PhysicsState.SetMass`: requires a non-zero mass. JavaScript would store an infinite inverse mass, and degenerate masses are outside the engine's contract.
- `PhysicsStates.PhysicsState.BuildAABB`, `PhysicsStates.PhysicsState.Recalculate`, `Entities.Entity.ApplyImpulse`: `Math.sin` and `Math.cos` of the angle are parameters, and their values are not related to the angle.
- `Entities.Entity.ApplyImpulse`: the contract states the momentum and velocity only. The rebuilt box is what `Recalculate` states.
- `PhysicsStates.PhysicsState.Recalculate`, `ClientEntities.ClientEntityManager.UpdateEntity`: they rebuild the box with the corrected `BuildEnclosingAABB`, not the square box of the source (see Findings).
- `Physics.UnblockEntity`: requires the entity's current and last-tick states to be distinct objects, as the entity's initialisation makes them.
- The integrator `simulateSim` (server/physics.js:19-62) is floating-point damping, deadbands and trigonometry.
- The separating-axis narrow phase (server/physics.js:199-223, a third-party library) is the opaque parameter `narrow` of `Physics.IsColliding`.
- `Physics.CollisionResponse`: it computes the impulse. Adding it to the momenta in place (server/physics.js:162-165) is not modelled, because whether the vector library's `add` mutates its receiver is not visible. `Physics.PushReversesContact` states the effect the impulse is meant to have.
- Rounding (`shorten`), the network message classes, socket transport, `Date.now()` (a parameter here), and the `setTimeout`/`setImmediate` rescheduling of `tick`.
- `registerEntities` and `registerModels` in both managers (file-system scans, `require` globs, prototype merging): the registry is the set of registered class names. Textures, rendering and all client UI are also left out.
- `ClientEntities.ClientEntityManager.CreateEntity`: for an unregistered class the source throws when it builds the prototype. The model returns null and changes nothing.
- `GameServers.GameServer.PlayerAttack`: only the cooldown is modelled. The attack's test effect (spawning a "longblock" in front of the player and pushing it) is left out.
- `GameServers.GameServer.Update`: `think` (empty in every entity), console logging, the physics step and `sendGameState` are left out. The contract states the list the physics step receives.
- `GameServers.GameServer.Update`, `GameServers.GameServer.Visit`, `GameServers.GameServer.Tick`: they remove through the corrected `RemoveEntityAt` (see Findings). As written, `removeEntity` splices at `entityId`, and a flagged last entity keeps the loop from ending (`VisitAsWritten`, `AsWrittenRemovalStalls`).
- `GameServers.GameServer.Update`, `GameServers.GameServer.Tick`: in the program a firing attack appends a new longblock to the very list the loop walks and hands to physics (server/server.js:137). The model does not spawn it, so the list it returns equals the unflagged entities of the start only when no attack fires.
- `GameServers.GameServer.Tick`: returns the list the update hands to physics but does not run physics.
- `ChatCommands.HandleChatCommand`: the server builds its handler without an entity manager (server/server.js:27), so `/impulse`, `/shoot` and `/spawn` throw a TypeError on `this.entityManager` and the outcome is `Throws`. What those bodies would do with a manager (random impulses, a `/shoot` that reads an undefined `args`, a spawn) and the confirmation messages to the player are left out.
- `ChatCommands.NewName`, `ChatCommands.Truncate`, `ChatCommands.SetNameTakesArgument`: a string is a sequence of Unicode scalar values, while `substring(0, 30)` counts UTF-16 code units. For a name with characters outside the Basic Multilingual Plane the model keeps up to 30 characters where the program keeps 30 code units and can split a surrogate pair.
- `playerConnected`, `playerInit`, `playerSay` and `playerDisconnected` in server/server.js: network handlers, not part of this model.

## Findings

| source | as written | input that shows it | evidently intended | confidence | as-written member | corrected member |
|---|---|---|---|---|---|---|
| common/physicsState.js:34-50 | `clone` copies the vertices of `this.mesh`, a field nothing sets (the mesh is kept in `vertices`), so the clone gets an empty mesh and half extents -99999 | the default state, with half width 0.5: its clone has half width -99999 | the clone copies `this.vertices` and keeps the same mesh and half extents | high; not executed | `PhysicsStates.PhysicsState.Clone`, `PhysicsStates.CloneDropsMesh` | `PhysicsStates.PhysicsState.CloneWithMesh` |
| server/lib/entity-manager.js:77-91 | `removeEntity` splices at `entity.entityId`, the 1-based length that `push` returned, so it removes the entity after the one meant, or nothing when that entity is last | entities [a, b] with `b.entityId == 2` flagged: the splice at 2 removes nothing, and the update loop of server/server.js:96-118 revisits b forever | splice at the entity's position, which the update loop passes as `index` and the manager ignores | high; not executed | `ServerEntities.ServerEntityManager.RemoveEntity`, `ServerEntities.SpliceAtEntityIdMissesEntity`, `GameServers.GameServer.VisitAsWritten`, `GameServers.AsWrittenRemovalStalls` | `ServerEntities.ServerEntityManager.RemoveEntityAt`, `GameServers.GameServer.Visit`, `GameServers.GameServer.RemoveFlagged`, `GameServers.GameServer.Update`, `GameServers.GameServer.Tick` |
| common/quadtree.js:127-135 | `_internalRetrieve` descends only when the query lies inside one quadrant; a query that straddles a midpoint gets the node's own objects and nothing stored below | root (0, 0, 8, 8) split, child 0 holding box (5, -3)-(6, -2); query (3, -3)-(5.5, -2) collides with it but is not returned | a straddling query searches every child, so the broad phase returns every colliding object | medium; not executed | `QuadTrees.Retrieve`, `QuadTrees.StraddlingQueryStops`, `QuadTrees.StraddlingQueryMissesCollidingObject` | `QuadTrees.Candidates`, `QuadTrees.CandidatesComplete` |
| common/physicsState.js:134-140 | `ex` is the larger of the rotated first corner's two coordinates and `ey` the larger of the opposite corner's, which are the same numbers negated, so the box is always square and can miss a rotated corner | half extents (2, 0.5) at cos 0.8, sin 0.6: box half width 1.6, while a rotated corner lies at x = 1.9 | the largest x and largest y reached by any rotated corner | high; not executed | `PhysicsStates.PhysicsState.BuildAABB`, `PhysicsStates.BoxIsSquare`, `PhysicsStates.BoxMissesRotatedCorner` | `PhysicsStates.PhysicsState.BuildEnclosingAABB`, `PhysicsStates.EnclosingExtentsEnclose`, `PhysicsStates.EnclosingExtentsTightX` |
