# Trigger bookkeeping, raycasts and shapes of the Oasis physics back-ends

This project models the core of the two physics back-ends of the Oasis
engine and the gizmo helper that draws their wireframes. It then proves
properties of that model.

- **The lite back-end** (`physics-lite`):
  - `LitePhysicsManager`:
    - registering colliders and shapes;
    - the per-frame trigger detection (`update`, `_collisionDetection`) and the sweep that fires the trigger callbacks (`_fireEvent`);
    - the raycast over all colliders.
  - `LiteCollider`: its shape list and its closest-hit raycast.
  - The box and sphere shapes: their setters, their extent and radius arithmetic, and their ray tests.
- **The PhysX back-end** (`physics-physx`):
  - `PhysXPhysicsManager`:
    - its trigger bookkeeping, driven by PhysX's `onTriggerBegin` / `onTriggerEnd` callbacks;
    - the same kind of sweep;
    - its raycast.
  - `PhysXColliderShape`'s shape flags (simulation, scene query, trigger).
- **The gizmo** (`physics-gizmo`): `WireFramePrimitive.createCircleWireFrame`, which writes the vertices of a circle and the closed loop of segments joining them.

The managers and colliders change their state in place, so they are classes.
- Each trigger event is an object, shared by three structures:
  - the list of current events (a `DisorderedArray`, modelled as a `seq` field);
  - the two-level `eventMap`;
  - the pool of spent events.
- The trigger callbacks append `TriggerCall` entries to a `triggerLog` field.
- The shape arithmetic is pure and is written as functions:
  - half sizes, bounding boxes, the world radius;
  - the closest-hit fold of `_raycast`;
  - the shape-flag bit operations.
- Each method is proved against a specification function:
  - **the trigger state machine** (`TriggerStateMachine`): a step fires Enter for a newly overlapping pair, Stay for a pair that keeps overlapping, and Exit once for a pair that stops;
  - **`EventSweep.Sweep`**: the order in which a delete-by-index walk visits, keeps and drops the events;
  - **`LiteHitResults.ClosestHit`**: the running minimum of the shapes' hits, first on ties;
  - **`LitePairs.CollidersPairs`**: the pairs the nested detection loops confirm.

The central results:
- **The lite `update` is one step of the trigger state machine.** When the map and the event list agree before the frame and no pooled event can be handed to a new pair, these hold afterwards:
  - the live pairs are `NextLive` of the old ones;
  - every pair fires exactly one callback, the one the state machine prescribes.
- **The pairs confirmed in a frame** are exactly the keys of two different tracked shapes that overlap (`ConfirmedIsScanned`).
- **The PhysX sweep:**
  - each event fires the state it had;
  - Exit events are dropped into the pool;
  - everything left is in Stay.
- **Bookkeeping invariants:** in both managers, every event is either listed or pooled, never both and never twice.

Geometry the engine takes from its math library is a parameter of type `MathLib`: matrix inversion, coordinate transforms, distances, and the ray/box and ray/sphere intersections. So are the world matrices the transform components compute. Numbers are mathematical reals.

The sphere's `setWorldScale` keeps `Math.max(scale.x, Math.max(scale.x, scale.y))` as the code writes it. `LiteSphereShape.MaxScale` follows that expression, and `MaxScaleIgnoresZ` and `StretchAlongZ` state what follows: the z component of the scale never affects the world radius.

## Model

| member | source | states |
|---|---|---|
| LiteBoxShape.HalfSize | packages/physics-lite/src/shape/LiteBoxColliderShape.ts:57-62 | twice the half size is the requested size; a non-negative size gives a non-negative half size |
| LiteBoxShape.BondingBox | packages/physics-lite/src/shape/LiteBoxColliderShape.ts:82-88 | the box spans twice the half size, is centred on the shape position, and is well ordered for a non-negative half size |
| LiteBoxShape.LocalBox | packages/physics-lite/src/shape/LiteBoxColliderShape.ts:67-80 | the box the local ray is intersected with is the bounding box centred at the origin |
| LiteBoxShape.SizeIsExtent | packages/physics-lite/src/shape/LiteBoxColliderShape.ts:57-62 | after setSize(v), the extents span exactly v, wherever the box is |
| LiteSphereShape.WorldRadius | packages/physics-lite/src/shape/LiteSphereColliderShape.ts:17-19 | a unit scale keeps the radius, and a scale of at least one never shrinks it |
| LiteSphereShape.MaxScale | packages/physics-lite/src/shape/LiteSphereColliderShape.ts:47-51 | the kept scale is the larger of the x and y components, and is one of them |
| LiteSphereShape.MaxScaleIgnoresZ | packages/physics-lite/src/shape/LiteSphereColliderShape.ts:50 | changing the z scale never changes the kept scale |
| LiteSphereShape.StretchAlongZ | packages/physics-lite/src/shape/LiteSphereColliderShape.ts:47-51 | a sphere stretched by 2 along z alone gets a world radius below twice its radius |
| LiteHitResults.Closer | packages/physics-lite/src/shape/LiteColliderShape.ts:85-105 | the record keeps the smaller distance, is one of the two candidates, and changes only for a strictly closer hit |
| LiteHitResults.ClosestHitStep | packages/physics-lite/src/LiteCollider.ts:75-83 | one more shape of the loop offers its hit to the record of the shapes before it |
| LiteHitResults.AnyStep | packages/physics-lite/src/LitePhysicsManager.ts:132-149 | one more offer adds a hit below the bound (or any hit) exactly when the new offer is one |
| LiteHitResults.ColliderHitIs | packages/physics-lite/src/LiteCollider.ts:75-83 | a record restarted at Number.MAX_VALUE ends below it exactly when some shape hit, and then holds the collider's closest hit |
| LiteHitResults.ClosestHitIsMinimum | packages/physics-lite/src/LiteCollider.ts:75-83 | the collider's record is at or below its start and at or below every shape's hit |
| LiteHitResults.ClosestHitIsOffered | packages/physics-lite/src/LiteCollider.ts:75-83 | the collider's record is its start or one of the hits its shapes offered |
| LiteHitResults.ClosestHitLowers | packages/physics-lite/src/LiteCollider.ts:75-83 | the record goes below its start exactly when some offered hit does |
| LiteHitResults.ClosestHitStartDistance | packages/physics-lite/src/LiteCollider.ts:75-83 | only the start distance matters: the id and point the record held survive only when nothing is closer |
| LiteRaycast.ScanAllStep | packages/physics-lite/src/LitePhysicsManager.ts:132-149 | one more collider of raycast's loop is one more step of the fold |
| LiteRaycast.ScanAllIs | packages/physics-lite/src/LitePhysicsManager.ts:118-160 | the answer is whether any collider was hit at all; with a callback, the record is the closest hit below the distance, or untouched when none is that close; without one it is never touched |
| LiteRaycast.ScanKeepsHit | packages/physics-lite/src/LitePhysicsManager.ts:132-149 | once a collider is hit, the answer stays true whatever the later colliders offer |
| TriggerStateMachine.PairKey | packages/physics-lite/src/LitePhysicsManager.ts:204 | the key is the two ids, lower one first |
| TriggerStateMachine.PairKeySymmetric | packages/physics-lite/src/LitePhysicsManager.ts:204 | whichever shape is scanned first, a pair lands on the same slot |
| TriggerStateMachine.NextLive | packages/physics-lite/src/LitePhysicsManager.ts:190-279 | after a step the live pairs are exactly the confirmed ones: new ones in Enter, old ones in Stay |
| TriggerStateMachine.FiresOncePerPair | packages/physics-lite/src/LitePhysicsManager.ts:254-279 | a step fires exactly one callback for each pair that was live or is confirmed, and none for any other pair |
| TriggerStateMachine.NextLiveHasNoExit | packages/physics-lite/src/LitePhysicsManager.ts:254-279 | no live pair is ever left in Exit |
| TriggerStateMachine.EnterOnceThenStay | packages/physics-lite/src/LitePhysicsManager.ts:204-220 | a pair that keeps overlapping fires Enter in its first step and Stay in every later one, and stays live |
| TriggerStateMachine.ExitOnce | packages/physics-lite/src/LitePhysicsManager.ts:254-279 | a pair that stops overlapping fires Exit once, is dropped, and fires nothing in the next step |
| TriggerStateMachine.ReEnter | packages/physics-lite/src/LitePhysicsManager.ts:204-220 | a pair that separated and overlaps again fires a fresh Enter |
| TriggerStateMachine.NeverConfirmedNeverFires | packages/physics-lite/src/LitePhysicsManager.ts:190-252 | a pair that never overlaps never fires and never becomes live |
| EventSweep.SweepFrom | packages/physics-lite/src/LitePhysicsManager.ts:254-279 | from any point of the walk, each later event fires once, the remaining and dropped events share out the list, the remaining ones are to keep and the dropped ones are not |
| EventSweep.SweepPartition | packages/physics-lite/src/LitePhysicsManager.ts:254-279 | a whole sweep fires every event as often as it is listed, keeps exactly the events to keep and drops exactly the others |
| EventSweep.SweepMember | packages/physics-lite/src/LitePhysicsManager.ts:254-279 | an event remains exactly when it is listed and to keep, and is dropped exactly when it is listed and not to keep |
| EventSweep.SweepDistinct | packages/physics-physx/src/PhysXPhysicsManager.ts:177-195 | a sweep of a list without repetitions fires, keeps and drops without repetitions |
| EventSweep.DeleteTail | packages/physics-lite/src/LitePhysicsManager.ts:274 | after deleteByIndex(i), the list from i on holds what was after i |
| DisorderedArray.Add | packages/physics-lite/src/LitePhysicsManager.ts:213 | add appends at the end and adds one occurrence of the element |
| DisorderedArray.DeleteByIndex | packages/physics-lite/src/LitePhysicsManager.ts:274 | deleteByIndex keeps the prefix, moves the last element into slot i, and removes exactly one occurrence of s[i] |
| DisorderedArray.DeleteByIndexWithin | packages/physics-physx/src/PhysXPhysicsManager.ts:190 | nothing appears in the list that was not there before |
| DisorderedArray.DeleteByIndexDistinct | packages/physics-lite/src/LitePhysicsManager.ts:274 | deleting from a list without repetitions leaves one without repetitions, holding everything except s[i] |
| DisorderedArray.DeleteByIndexAt | packages/physics-lite/src/LitePhysicsManager.ts:274 | slot i receives the last element and every other slot is kept |
| DisorderedArray.DistinctCount | packages/physics-lite/src/LitePhysicsManager.ts:254-279 | in a list without repetitions each element occurs once |
| JsArray.IndexOf | packages/physics-lite/src/LiteCollider.ts:44 | -1 exactly when absent, otherwise the first position holding the element |
| JsArray.RemoveAt | packages/physics-lite/src/LiteCollider.ts:46 | splice(i, 1) keeps the elements before i and shifts the later ones down by one |
| LiteColliders.LiteHitResult.CopyFrom | packages/physics-lite/src/LitePhysicsManager.ts:139-142 | the record takes the other record's normal, point, distance and shape id |
| LiteColliders.LocalRay | packages/physics-lite/src/shape/LiteColliderShape.ts:107-116 | the local ray's origin is the transformed origin, and its direction is the normalised transformed direction |
| LiteColliders.LiteColliderShape.CreateBox | packages/physics-lite/src/shape/LiteBoxColliderShape.ts:26-33 | a new box has its id, half of its size, and extents consistent with them |
| LiteColliders.LiteColliderShape.CreateSphere | packages/physics-lite/src/shape/LiteSphereColliderShape.ts:27-33 | a new sphere has its id, its radius and a unit scale |
| LiteColliders.LiteColliderShape.SetPosition | packages/physics-lite/src/shape/LiteBoxColliderShape.ts:38-43 | the position moves and the world matrix is marked changed; a box's extents follow, centred on the new position, with unchanged size |
| LiteColliders.LiteColliderShape.SetBondingBox | packages/physics-lite/src/shape/LiteBoxColliderShape.ts:82-88 | the extents become the bounding box around the position |
| LiteColliders.LiteColliderShape.SetWorldScale | packages/physics-lite/src/shape/LiteSphereColliderShape.ts:47-51 | a box passes the scale to its transform; a sphere keeps only MaxScale of it |
| LiteColliders.LiteColliderShape.SetSize | packages/physics-lite/src/shape/LiteBoxColliderShape.ts:57-62 | the extents now span exactly the new size, around the same centre |
| LiteColliders.LiteColliderShape.SetRadius | packages/physics-lite/src/shape/LiteSphereColliderShape.ts:38-42 | the radius changes, and the world radius becomes radius times the kept scale |
| LiteColliders.LiteColliderShape.SetUniqueID | packages/physics-lite/src/shape/LiteColliderShape.ts:60-64 | the shape takes the new id |
| LiteColliders.LiteColliderShape.SetIsTrigger | packages/physics-lite/src/shape/LiteColliderShape.ts:69-71 | always fails: the lite engine has no triggers flag |
| LiteColliders.LiteColliderShape.SetIsSceneQuery | packages/physics-lite/src/shape/LiteColliderShape.ts:76-78 | always fails |
| LiteColliders.LiteColliderShape.SetMaterial | packages/physics-lite/src/shape/LiteColliderShape.ts:51-55 | always fails |
| LiteColliders.LiteColliderShape.GetInvModelMatrix | packages/physics-lite/src/shape/LiteColliderShape.ts:118-124 | the inverse is recomputed only when the world matrix changed, and otherwise the cached one is returned; afterwards the flag is clear |
| LiteColliders.LiteColliderShape.HitAt | packages/physics-lite/src/shape/LiteColliderShape.ts:85-105 | the offered hit carries the shape's id and the distance from the ray origin to the hit point |
| LiteColliders.LiteColliderShape.UpdateHitResult | packages/physics-lite/src/shape/LiteColliderShape.ts:85-105 | the record takes this shape's hit only when it is strictly closer, and the normal is never touched |
| LiteColliders.LiteColliderShape.WorldSphere | packages/physics-lite/src/shape/LiteSphereColliderShape.ts:56-68 | the world sphere's radius is the radius times the kept scale |
| LiteColliders.LiteColliderShape.Raycast | packages/physics-lite/src/shape/LiteBoxColliderShape.ts:67-80 | reports a hit exactly when the box or sphere test hits; the hit is offered to the record; the shape's later offers are unchanged |
| LiteColliders.Removed | packages/physics-lite/src/LiteCollider.ts:41-49 | an absent element leaves the list alone; otherwise its first occurrence is spliced out |
| LiteColliders.RemovedCount | packages/physics-lite/src/LiteCollider.ts:41-49 | removing takes out exactly one occurrence of the element when there is one |
| LiteColliders.RemovedDistinct | packages/physics-lite/src/LitePhysicsManager.ts:96-102 | removing from a list without repetitions leaves every other element exactly once |
| LiteColliders.LiteCollider.constructor | packages/physics-lite/src/LiteStaticCollider.ts:15-19 | a new collider has no shapes and the given world transform |
| LiteColliders.LiteCollider.AddShape | packages/physics-lite/src/LiteCollider.ts:25-36 | a shape it already owns is left alone; otherwise the shape leaves its previous collider and is appended here; the ownership invariant is kept |
| LiteColliders.LiteCollider.RemoveShape | packages/physics-lite/src/LiteCollider.ts:41-49 | an absent shape changes nothing; otherwise it is spliced out and loses its owner; the ownership invariant is kept |
| LiteColliders.LiteCollider.SetWorldTransform | packages/physics-lite/src/LiteCollider.ts:54-59 | the collider takes the new position and rotation |
| LiteColliders.LiteCollider.GetWorldTransform | packages/physics-lite/src/LiteCollider.ts:64-70 | returns the pair last set |
| LiteColliders.LiteCollider.Raycast | packages/physics-lite/src/LiteCollider.ts:75-83 | the record ends as the closest of the shapes' hits, first on ties, starting from Number.MAX_VALUE; the answer is whether some hit is below that; the normal is untouched |
| LiteColliders.LiteCollider.OfferTo | packages/physics-lite/src/LiteCollider.ts:78-80 | one turn of the loop extends the closest-hit fold by one shape and changes no shape's offer |
| LiteColliders.ProbeKept | packages/physics-lite/src/shape/LiteColliderShape.ts:118-124 | caching the inverse matrix does not change what the shape's next raycast offers |
| LiteColliders.ProbesKept | packages/physics-lite/src/LiteCollider.ts:75-83 | a collider's offers depend only on its shapes' offers |
| LitePairs.RowsOfMembers | packages/physics-lite/src/LitePhysicsManager.ts:108-111 | the shape lists of the colliders hold exactly the colliders' shapes |
| LitePairs.PairsWithStep | packages/physics-lite/src/LitePhysicsManager.ts:200-221 | one more shape of the innermost loop adds its pair exactly when it meets myShape |
| LitePairs.PairsWithAllStep | packages/physics-lite/src/LitePhysicsManager.ts:198-222 | one more collider adds the innermost loop over its shapes |
| LitePairs.ShapesPairsStep | packages/physics-lite/src/LitePhysicsManager.ts:194-250 | one more shape of the collider adds its scan against every collider |
| LitePairs.CollidersPairsStep | packages/physics-lite/src/LitePhysicsManager.ts:107-113 | one more collider of update's loop adds its _collisionDetection |
| LitePairs.ConfirmedIsScanned | packages/physics-lite/src/LitePhysicsManager.ts:190-252 | a frame confirms exactly the keys of two different tracked shapes that overlap, whatever the order of the colliders and shapes |
| LitePhysics.TriggerEvent.constructor | packages/physics-lite/src/LitePhysicsManager.ts:320-330 | a new event carries its ids and is not waiting |
| LitePhysics.TriggerEvent.Fired | packages/physics-lite/src/LitePhysicsManager.ts:254-279 | the sweep fires Exit for an unconfirmed event and the event's own state otherwise, with its ids |
| LitePhysics.CallsOf | packages/physics-lite/src/LitePhysicsManager.ts:254-279 | one call per event, in list order |
| LitePhysics.ClearSlots | packages/physics-lite/src/LitePhysicsManager.ts:270 | exactly the cleared slots read as empty; every row and every other slot stays |
| LitePhysics.ResetRow | packages/physics-lite/src/LitePhysicsManager.ts:72-75 | the shape's row is created or emptied; every other slot stays |
| LitePhysics.DropRow | packages/physics-lite/src/LitePhysicsManager.ts:80-83 | the shape's row is gone; every other slot stays |
| LitePhysics.ClearSlotsStep | packages/physics-lite/src/LitePhysicsManager.ts:270 | clearing one more slot is one more `= undefined` |
| LitePhysics.SweepAgrees | packages/physics-lite/src/LitePhysicsManager.ts:254-279 | after the sweep, the list and the cleared map agree again, and the map's slots are exactly the confirmed pairs |
| LitePhysics.StepCallsSet | packages/physics-lite/src/LitePhysicsManager.ts:254-279 | in whatever order the list is swept, the callbacks are exactly the step's, each once |
| LitePhysics.KeepStep | packages/physics-lite/src/LitePhysicsManager.ts:258-267 | firing a confirmed event moves the walk on and changes no list |
| LitePhysics.DropStep | packages/physics-lite/src/LitePhysicsManager.ts:268-277 | dropping an event deletes it by index, pools it and clears its slot, and the walk stays put |
| LitePhysics.LogAt | packages/physics-lite/src/LitePhysicsManager.ts:254-279 | the k-th logged call is the k-th fired event's |
| LitePhysics.LogStep | packages/physics-lite/src/LitePhysicsManager.ts:254-279 | each callback extends the log in firing order |
| LitePhysics.LitePhysicsManager.constructor | packages/physics-lite/src/LitePhysicsManager.ts:29-35 | a new manager is empty and its bookkeeping is valid and consistent |
| LitePhysics.LitePhysicsManager.SetGravity | packages/physics-lite/src/LitePhysicsManager.ts:65-67 | always fails: the lite engine has no gravity |
| LitePhysics.LitePhysicsManager.AddColliderShape | packages/physics-lite/src/LitePhysicsManager.ts:72-75 | the shape's id gets an empty row, and the bookkeeping stays valid |
| LitePhysics.LitePhysicsManager.RemoveColliderShape | packages/physics-lite/src/LitePhysicsManager.ts:80-83 | the shape's row is deleted, and the bookkeeping stays valid |
| LitePhysics.LitePhysicsManager.AddCollider | packages/physics-lite/src/LitePhysicsManager.ts:88-91 | the collider is appended |
| LitePhysics.LitePhysicsManager.RemoveCollider | packages/physics-lite/src/LitePhysicsManager.ts:96-102 | the first occurrence is spliced out, exactly one occurrence fewer, and nothing happens when absent |
| LitePhysics.LitePhysicsManager.GetTrigger | packages/physics-lite/src/LitePhysicsManager.ts:184-188 | the event is the pool's last one, or a new one with the given ids when the pool is empty, and it is stored in the slot |
| LitePhysics.LitePhysicsManager.Encounter | packages/physics-lite/src/LitePhysicsManager.ts:201-220 | one detection step keeps the detection state and confirms exactly the pair of the two shapes when they differ and overlap |
| LitePhysics.LitePhysicsManager.StartEvent | packages/physics-lite/src/LitePhysicsManager.ts:209-213 | a new pair's event is in Enter, confirmed and appended, no other event changes, and the bookkeeping stays valid |
| LitePhysics.LitePhysicsManager.ConfirmEvent | packages/physics-lite/src/LitePhysicsManager.ts:214-219 | Enter becomes Stay and is confirmed, Stay is confirmed, and anything else is left alone |
| LitePhysics.LitePhysicsManager.DetectAgainst | packages/physics-lite/src/LitePhysicsManager.ts:200-221 | the innermost loop confirms the pairs PairsWith gives |
| LitePhysics.LitePhysicsManager.DetectShape | packages/physics-lite/src/LitePhysicsManager.ts:198-222 | the two inner loops confirm the pairs PairsWithAll gives |
| LitePhysics.LitePhysicsManager.CollisionDetection | packages/physics-lite/src/LitePhysicsManager.ts:190-252 | _collisionDetection confirms the pairs ShapesPairs gives and keeps the detection state |
| LitePhysics.LitePhysicsManager.Update | packages/physics-lite/src/LitePhysicsManager.ts:107-113 | confirms the overlapping pairs and leaves every event waiting; from an agreeing map, the live pairs become NextLive's and the new log entries are the step's callbacks, each once |
| LitePhysics.LitePhysicsManager.DetectAll | packages/physics-lite/src/LitePhysicsManager.ts:108-111 | update's loop confirms the pairs CollidersPairs gives |
| LitePhysics.LitePhysicsManager.Raycast | packages/physics-lite/src/LitePhysicsManager.ts:118-160 | true exactly when some collider is hit, even beyond the distance; with a callback it reports the closest hit below the distance, or the reset record when nothing is hit |
| LitePhysics.LitePhysicsManager.ScanColliders | packages/physics-lite/src/LitePhysicsManager.ts:132-149 | the loop computes the ScanAll fold, and stops early only without a callback and after a hit |
| LitePhysics.LitePhysicsManager.ScanCollider | packages/physics-lite/src/LitePhysicsManager.ts:133-148 | one collider's turn is one ScanStep, and it stops exactly on a close enough hit without a callback |
| LitePhysics.LitePhysicsManager.FireEvent | packages/physics-lite/src/LitePhysicsManager.ts:254-279 | the list, pool, map and log are what Sweep prescribes; each event fires the call it carried; all left are waiting again |
| LitePhysics.LitePhysicsManager.Walk | packages/physics-lite/src/LitePhysicsManager.ts:256-278 | the loop reaches the end of the list in the sweep's state |
| LitePhysics.LitePhysicsManager.FireAt | packages/physics-lite/src/LitePhysicsManager.ts:258-267 | a confirmed event fires its state and waits again |
| LitePhysics.LitePhysicsManager.DropAt | packages/physics-lite/src/LitePhysicsManager.ts:268-277 | an unconfirmed event turns Exit, leaves its slot, fires Exit, and is deleted and pooled |
| LitePhysics.FireIsLive | packages/physics-lite/src/LitePhysicsManager.ts:258-267 | a confirmed event is in Enter or Stay, so the loop always advances |
| LitePhysics.FireKeepsSweeping | packages/physics-lite/src/LitePhysicsManager.ts:258-267 | a keep step preserves the walk's invariant |
| LitePhysics.FireKeepsValid | packages/physics-lite/src/LitePhysicsManager.ts:258-267 | a step that changes no list and no state keeps the bookkeeping valid |
| LitePhysics.FireKeepsMarks | packages/physics-lite/src/LitePhysicsManager.ts:258-267 | a keep step leaves the walk's marks on the events one index further |
| LitePhysics.DropIsSafe | packages/physics-lite/src/LitePhysicsManager.ts:270 | the dropped event's first id has a row, so its slot can be cleared |
| LitePhysics.DropKeepsSweeping | packages/physics-lite/src/LitePhysicsManager.ts:268-277 | a drop step preserves the walk's invariant |
| LitePhysics.StartKeepsValid | packages/physics-lite/src/LitePhysicsManager.ts:209-213 | a new pair's event keeps the bookkeeping valid |
| LitePhysics.DropKeepsValid | packages/physics-lite/src/LitePhysicsManager.ts:268-277 | a drop step keeps every event either listed or pooled |
| LitePhysics.DropKeepsMarks | packages/physics-lite/src/LitePhysicsManager.ts:268-277 | a drop step keeps the walk's marks, with the dropped event in Exit |
| LitePhysics.CallIsFired | packages/physics-lite/src/LitePhysicsManager.ts:258-272 | the call logged for an event is the one it carried before the sweep |
| LitePhysics.StartSweeping | packages/physics-lite/src/LitePhysicsManager.ts:255-256 | a valid manager is at the walk's start |
| LitePhysics.SweepDone | packages/physics-lite/src/LitePhysicsManager.ts:254-279 | the end of the walk is the whole sweep, stated against the state before it |
| LitePhysics.SweptLog | packages/physics-lite/src/LitePhysicsManager.ts:254-279 | the log after the walk is the old log followed by the fired events' carried calls |
| LitePhysics.UpdateReady | packages/physics-lite/src/LitePhysicsManager.ts:107-113 | every tracked shape's id has a row, and without new pairs every overlapping pair is already live |
| LitePhysics.SettledIsMarked | packages/physics-lite/src/LitePhysicsManager.ts:107-113 | between frames, an agreeing map is at the start of a step with nothing confirmed |
| LitePhysics.MarkedCalls | packages/physics-lite/src/LitePhysicsManager.ts:254-279 | after detection, each listed event carries the callback the state machine prescribes for its pair |
| LitePhysics.SweepIsStep | packages/physics-lite/src/LitePhysicsManager.ts:254-279 | the sweep completes the step: the list and map agree, the live pairs are NextLive's, and the log holds the step's callbacks once each |
| LitePhysics.MarkedKeep | packages/physics-lite/src/LitePhysicsManager.ts:254-279 | the events the sweep keeps are exactly those of the confirmed pairs |
| LitePhysics.SweptLive | packages/physics-lite/src/LitePhysicsManager.ts:254-279 | after the sweep, the map's live view is NextLive's |
| LitePhysics.StartKeepsMarked | packages/physics-lite/src/LitePhysicsManager.ts:209-213 | a new pair's event keeps the detection marks, with the pair now confirmed |
| LitePhysics.ConfirmKeepsMarked | packages/physics-lite/src/LitePhysicsManager.ts:214-219 | confirming a known pair keeps the detection marks, with the pair now confirmed |
| PhysXPhysics.PxTriggerEvent.constructor | packages/physics-physx/src/PhysXPhysicsManager.ts:220-229 | a new event carries its ids |
| PhysXPhysics.CallsAt | packages/physics-physx/src/PhysXPhysicsManager.ts:177-195 | one call per fired event, with the state it had when the sweep began |
| PhysXPhysics.Raycast | packages/physics-physx/src/PhysXPhysicsManager.ts:137-161 | true exactly when the scene query hits; the callback is made exactly when there is a hit and a callback, with the hit's shape id, distance, position and normal |
| PhysXPhysics.KeepStep | packages/physics-physx/src/PhysXPhysicsManager.ts:181-188 | firing an Enter or Stay event moves the walk on and changes no list |
| PhysXPhysics.DropStep | packages/physics-physx/src/PhysXPhysicsManager.ts:189-193 | an Exit event is deleted by index and pooled, and the walk stays put |
| PhysXPhysics.LogAt | packages/physics-physx/src/PhysXPhysicsManager.ts:177-195 | the k-th logged call is the k-th fired event's |
| PhysXPhysics.LogStep | packages/physics-physx/src/PhysXPhysicsManager.ts:177-195 | each callback extends the log in firing order |
| PhysXPhysics.PhysXPhysicsManager.constructor | packages/physics-physx/src/PhysXPhysicsManager.ts:34-36 | a new manager is empty and valid |
| PhysXPhysics.PhysXPhysicsManager.AddColliderShape | packages/physics-physx/src/PhysXPhysicsManager.ts:100-102 | the shape's id gets an empty row, and the bookkeeping stays valid |
| PhysXPhysics.PhysXPhysicsManager.RemoveColliderShape | packages/physics-physx/src/PhysXPhysicsManager.ts:107-109 | the shape's row is deleted, and the bookkeeping stays valid |
| PhysXPhysics.PhysXPhysicsManager.GetTrigger | packages/physics-physx/src/PhysXPhysicsManager.ts:171-175 | the event is the pool's last one, or a new one with the given ids when the pool is empty, and it is stored in the slot |
| PhysXPhysics.PhysXPhysicsManager.OnTriggerBegin | packages/physics-physx/src/PhysXPhysicsManager.ts:57-63 | the pair's event is stored under the lower id first, set to Enter and appended; no other event changes; the bookkeeping stays valid |
| PhysXPhysics.PhysXPhysicsManager.OnTriggerEnd | packages/physics-physx/src/PhysXPhysicsManager.ts:64-78 | the pair's event leaves its slot and turns Exit; no other event changes; the bookkeeping stays valid |
| PhysXPhysics.PhysXPhysicsManager.Update | packages/physics-physx/src/PhysXPhysicsManager.ts:128-132 | the sweep keeps exactly the events not in Exit, pools the others, logs each event's state, and leaves every listed event in Stay |
| PhysXPhysics.PhysXPhysicsManager.StartSweep | packages/physics-physx/src/PhysXPhysicsManager.ts:177-179 | a valid manager's recorded start is ready for the sweep |
| PhysXPhysics.PhysXPhysicsManager.FireEvent | packages/physics-physx/src/PhysXPhysicsManager.ts:177-195 | the lists and the log are what Sweep prescribes; each event fires the state it had; all left are in Stay |
| PhysXPhysics.PhysXPhysicsManager.Walk | packages/physics-physx/src/PhysXPhysicsManager.ts:179-194 | the loop reaches the end of the list in the sweep's state |
| PhysXPhysics.PhysXPhysicsManager.FireAt | packages/physics-physx/src/PhysXPhysicsManager.ts:181-188 | an Enter event fires Enter and turns Stay; a Stay event fires Stay |
| PhysXPhysics.PhysXPhysicsManager.DropAt | packages/physics-physx/src/PhysXPhysicsManager.ts:189-193 | an Exit event fires Exit and is deleted and pooled |
| PhysXPhysics.SlotIsListed | packages/physics-physx/src/PhysXPhysicsManager.ts:64-78 | the event a slot holds is a listed one |
| PhysXPhysics.BeginKeepsValid | packages/physics-physx/src/PhysXPhysicsManager.ts:57-63 | onTriggerBegin keeps every event either listed or pooled, and each slot's event listed and not in Exit |
| PhysXPhysics.EndKeepsValid | packages/physics-physx/src/PhysXPhysicsManager.ts:64-78 | onTriggerEnd keeps the bookkeeping valid |
| PhysXPhysics.StartSweeping | packages/physics-physx/src/PhysXPhysicsManager.ts:177-179 | a valid manager is at the walk's start |
| PhysXPhysics.FireKeepsSweeping | packages/physics-physx/src/PhysXPhysicsManager.ts:181-188 | a fire step preserves the walk's invariant |
| PhysXPhysics.FireKeepsValid | packages/physics-physx/src/PhysXPhysicsManager.ts:181-188 | an event turning from Enter to Stay keeps the bookkeeping valid |
| PhysXPhysics.FireKeepsMarks | packages/physics-physx/src/PhysXPhysicsManager.ts:181-188 | a fire step leaves the walk's marks one index further |
| PhysXPhysics.DropKeepsSweeping | packages/physics-physx/src/PhysXPhysicsManager.ts:189-193 | a drop step preserves the walk's invariant |
| PhysXPhysics.DropKeepsValid | packages/physics-physx/src/PhysXPhysicsManager.ts:189-193 | moving an Exit event from the list to the pool keeps the bookkeeping valid |
| PhysXPhysics.DropKeepsMarks | packages/physics-physx/src/PhysXPhysicsManager.ts:189-193 | a drop step keeps the walk's marks |
| PhysXPhysics.SweptLog | packages/physics-physx/src/PhysXPhysicsManager.ts:177-195 | the log after the walk is the old log followed by each fired event's starting state |
| PhysXPhysics.SweepDone | packages/physics-physx/src/PhysXPhysicsManager.ts:177-195 | the end of the walk is the whole sweep, stated against the state before it |
| PhysXShapes.Bit | packages/physics-physx/src/shape/PhysXColliderShape.ts:9-16 | each flag is a single bit: 1, 2 or 4 |
| PhysXShapes.Value | packages/physics-physx/src/shape/PhysXColliderShape.ts:9-16 | the flag number stays below 8 |
| PhysXShapes.ValueInjective | packages/physics-physx/src/shape/PhysXColliderShape.ts:9-16 | the number handed to PhysX says exactly which flags are set |
| PhysXShapes.DefaultFlagsAre | packages/physics-physx/src/shape/PhysXColliderShape.ts:32 | a new shape takes part in the simulation and in scene queries, is no trigger, and its number is 3 |
| PhysXShapes.WithFlag | packages/physics-physx/src/shape/PhysXColliderShape.ts:135-137 | the flag is set exactly when the value holds, and every other flag is kept |
| PhysXShapes.WithFlagValue | packages/physics-physx/src/shape/PhysXColliderShape.ts:135-137 | the number after the change is the old number plus the flag's bit when it was set from clear (`flags \| flag`), minus it when it was cleared from set (`flags & ~flag`), and unchanged otherwise |
| PhysXShapes.WithFlagLastWins | packages/physics-physx/src/shape/PhysXColliderShape.ts:135-137 | of two changes to one flag only the last counts |
| PhysXShapes.WithFlagCommute | packages/physics-physx/src/shape/PhysXColliderShape.ts:135-137 | changes to different flags commute |
| PhysXShapes.TriggerFlags | packages/physics-physx/src/shape/PhysXColliderShape.ts:95-99 | a trigger is out of the simulation and a non-trigger in it; the scene-query flag is untouched |
| PhysXShapes.SceneQueryFlags | packages/physics-physx/src/shape/PhysXColliderShape.ts:104-107 | the scene-query flag follows the value, and the other two are untouched |
| PhysXShapes.TriggerFlagsLastWins | packages/physics-physx/src/shape/PhysXColliderShape.ts:95-99 | setIsTrigger is idempotent, and the last call wins |
| PhysXShapes.SceneQueryFlagsLastWins | packages/physics-physx/src/shape/PhysXColliderShape.ts:104-107 | setIsSceneQuery is idempotent, and the last call wins |
| PhysXShapes.SettersCommute | packages/physics-physx/src/shape/PhysXColliderShape.ts:95-107 | setIsTrigger and setIsSceneQuery can be called in either order |
| PhysXShapes.PhysXColliderShape.constructor | packages/physics-physx/src/shape/PhysXColliderShape.ts:32 | a new shape has the default flags |
| PhysXShapes.PhysXColliderShape.SetUniqueID | packages/physics-physx/src/shape/PhysXColliderShape.ts:87-90 | the shape takes the new id |
| PhysXShapes.PhysXColliderShape.SetIsTrigger | packages/physics-physx/src/shape/PhysXColliderShape.ts:95-99 | the flags become TriggerFlags of the old ones |
| PhysXShapes.PhysXColliderShape.SetIsSceneQuery | packages/physics-physx/src/shape/PhysXColliderShape.ts:104-107 | the flags become SceneQueryFlags of the old ones |
| PhysXShapes.PhysXColliderShape.SetShapeFlags | packages/physics-physx/src/shape/PhysXColliderShape.ts:112-115 | the shape takes the given flags |
| PhysXShapes.PhysXColliderShape.ModifyFlag | packages/physics-physx/src/shape/PhysXColliderShape.ts:135-137 | one flag is set or cleared and the others are kept |
| WireFrame.CirclePoint | packages/physics-gizmo/src/WireFramePrimitive.ts:19-41 | the coordinate along the chosen axis is the shift's |
| WireFrame.CirclePointOnCircle | packages/physics-gizmo/src/WireFramePrimitive.ts:19-41 | when cos² + sin² = 1, every vertex lies at distance radius from the centre |
| WireFrame.LoopIsClosed | packages/physics-gizmo/src/WireFramePrimitive.ts:43-49 | the segments form one closed loop: each starts where the previous ends, and the last ends at the first vertex |
| WireFrame.EachVertexOnce | packages/physics-gizmo/src/WireFramePrimitive.ts:43-49 | each vertex of the range starts exactly one segment and ends exactly one, and no segment leaves the range |
| WireFrame.CreateCircleWireFrame | packages/physics-gizmo/src/WireFramePrimitive.ts:4-51 | every vertex of the range is at its circle point and every segment slot holds its segment; nothing else in either buffer changes |
| WireFrame.WriteSegment | packages/physics-gizmo/src/WireFramePrimitive.ts:43-49 | one vertex's two index slots hold its segment, and nothing else changes |
| WireFrame.WriteVertex | packages/physics-gizmo/src/WireFramePrimitive.ts:15-41 | one vertex's position is written for axes 0 to 2, and nothing else changes |

## Left out

- `LiteHitResult` itself, `LiteTransform` and `DisorderedArray` are not part of this model. The model assumes what the managers rely on:
  - a hit record with a normal, point, distance and id. Its initial values (id -1, distance 0, point and normal zero, the values raycast resets it to) are an assumption of the model. They are observable: a lite raycast that hits a collider but finds nothing below its distance hands the callback the record untouched, so on the first call it reports these values.
  - world matrices, supplied by a `Transforms` parameter;
  - an array that appends at the end and deletes by moving the last element.
- Vector maths, matrix inversion, coordinate transforms, distances, and the ray/box and ray/sphere intersections are the `MathLib` parameter. `Math.PI`, `Math.cos` and `Math.sin` are the `Trig` parameter.
- The overlap tests (`_boxCollision`, `_sphereCollision`, `_updateWorldBox`, `_upWorldSphere` and the `CollisionUtil` routines they call) are the `overlaps` relation. It is fixed for the duration of a frame, so the box and sphere branches of `_collisionDetection` are one branch.
- `deltaTime` and `elapsedTime` are left out. Neither is read by the trigger logic.
- The PhysX native scene is not modelled: `simulate`, `fetchResults` and `raycastSingle`. The callbacks PhysX makes while fetching results are the methods `OnTriggerBegin` and `OnTriggerEnd`, to be called between frames. The query result is the `found` parameter of `PhysXPhysics.Raycast`.
- PhysX `setGravity`, `addCollider` and `removeCollider`, and the native actor and shape calls, are foreign calls and are left out. Those calls include the query filter data, the local pose, materials and `setFlags`.
- The debug mirroring into a second manager (`LitePhysicsDebug`, `PhysXPhysicsDebug`) is not modelled.
- The lite shapes' material and entity fields are left out. Only the lite `setMaterial`'s failure is modelled.
- `LitePhysics.LitePhysicsManager.FireEvent` and `PhysXPhysics.PhysXPhysicsManager.FireEvent` assume that the three trigger callbacks (`onTriggerEnter`, `onTriggerStay`, `onTriggerExit`) were supplied: each fired event always appends its call to `triggerLog`. In the source these constructor parameters are optional, and `_fireEvent` calls them without a guard. So a missing callback throws a TypeError in the middle of the sweep. In the lite Exit branch the throw comes after the event is set to Exit and its slot is cleared, but before it is deleted by index and pooled, so the bookkeeping is left half-updated. Neither that throw nor the half-updated state is modelled.
- The trigger callbacks are entries appended to `triggerLog`. Assigning `undefined` to a map slot is modelled as removing the key.
- The static `_currentHit` and `_hitResult` records are per-manager constant fields. In the source they are `private static`, so every lite manager shares one pair. A raycast that hits but finds nothing below its distance can then hand its callback the record another manager's raycast left behind. In the model each manager has its own pair, so that sharing is not captured.
- `PhysXShapes.Value`: the flag number is modelled as the set of its three bits. The source only ever sets and clears those bits.
- `LitePhysics.LitePhysicsManager.Update` concludes "one step of the trigger state machine" only under two conditions:
  - the map and the list agree before the frame;
  - either the pool is empty or no new pair appears.

  The reason is that a pooled event keeps the ids it was created with. So when it is reused for a new pair, the source clears the wrong slot when that event is later dropped. The model reproduces that behaviour instead of hiding it: under those conditions it proves the step, and in every case it proves validity and the log prefix.
- `PhysXPhysics.PhysXPhysicsManager.OnTriggerBegin`: two begins for the same pair without an end leave the first event listed but unreachable through the map. An end before the sweep turns only the newer event Exit. The model keeps this behaviour; it proves the bookkeeping invariant, not a state-machine step, for PhysX.
- `LitePhysics.LitePhysicsManager.Update` and `LitePhysics.LitePhysicsManager.GetTrigger` require every tracked shape's id to have a row (`Registered`, `index1 in eventMap`). The source throws a TypeError there.
- `LitePhysics.LitePhysicsManager.Update` and `LitePhysics.LitePhysicsManager.FireEvent` require `SweepSafe`: every listed event that is still waiting has a row for its first id. `removeColliderShape` deletes a shape's row even while one of its events is listed; if that shape then stops overlapping, the next update's sweep drops the event and the source throws a TypeError clearing its slot. The model excludes that case instead of modelling the throw.
- `PhysXPhysics.PhysXPhysicsManager.OnTriggerEnd` requires the pair to have a slot. Likewise, `OnTriggerBegin` and `GetTrigger` require a row. The source dereferences `undefined` otherwise.
- `LitePhysics.LitePhysicsManager.Raycast`, `LiteColliders.LiteCollider.Raycast` and `LiteColliders.LiteColliderShape.Raycast` require every sphere shape to have a collider. A sphere's world-space centre is its position transformed by the collider's world matrix; without a collider the source throws a TypeError.
- `WireFrame.CreateCircleWireFrame` requires its buffers to be large enough and every index to fit in 16 bits. The JavaScript source would instead do two things the model does not:
  - grow a positions array that is too short;
  - silently drop out-of-range writes to the `Uint16Array`.
- Numbers are mathematical reals and integers. Floating-point rounding is not modelled.
