# YAGE engine core in Dafny

This project models the storage, indexing and animation core of YAGE, a
small data-oriented entity/component engine written in C# on MonoGame. It
also models the vertex-batching protocol of its primitive renderer. The
model is written as pure functions over immutable values, and the
properties the engine relies on are proved about it.

- **Scene entity pool.** `ScenePool` in `scene.dfy` models a fixed table of
  1000 entity slots, a counter for the next fresh id, and a LIFO stack of
  freed ids. It covers add, remove, lookup by id and lookup by name. The
  invariant `Valid` states that every id handed out is either occupied at
  its own index or on the free stack exactly once.
- **Entities and component tags.** `EntityModel` in `entity.dfy` and
  `ComponentTags` in `components.dfy` cover:
  - the entity's has-bit set and per-tag slot table;
  - the closed five-value tag enum;
  - the base fields every component carries.
- **Component stores.** `SystemStores` in `stores.dfy` keeps, for each tag, a
  high-water counter and a LIFO stack of freed slots. It also holds the
  Movement, SpriteRenderer and Animator arrays.
- **The world.** `WorldModel` in `world.dfy` joins the active scene and the
  static stores into one `World` value. It covers:
  - component registration and release: `Register`, `Attach`, `Detach`;
  - the slot-uniqueness invariant `SlotsConsistent`.
- **Per-tick passes.** `Passes` in `passes.dfy` covers:
  - the Movement pass;
  - the Animation pass, with its accumulator-driven frame stepper;
  - `Scene.Update`, which runs Movement and then Animation;
  - the selection filter of the sprite render pass.
- **Components.** `MovementModel` and `SpriteModel` are in `movement.dfy`;
  `AnimationModel` (the Animation record and the Animator) is in
  `animation.dfy`.
- **Primitive batching.** `PrimitiveBatching` in `batch.dfy` covers the
  Begin / AddVertex / Flush / End / Dispose state machine of
  `PrimitiveBatch`, with its 500-vertex buffer, and the vertices that
  `DrawRectangle` and `DrawRectangleSolid` add.

Conventions:
- **Exceptions.** A thrown exception becomes an error value of the `Error`
  datatype in `common.dfy`. C# sometimes changes state before it throws,
  and the model keeps that state:
  - `AddEntity` advances `nextFreeID` and writes the drawn id into the
    caller's entity object before it can fail, so it returns an `Added`
    record holding the scene, the object and how the call ended;
  - a component constructor allocates a slot before writing past the end
    of an array, so `Register` returns a `Step` with the world as it then is;
  - a system pass that throws part way keeps the writes of the slots it
    had already processed, so every pass returns a `Run`: the state after
    the loop, together with `Pass` or `Fail(error)`.
- **Object identity.** C# entities are references. An `Entity` value
  carries `oid`, the identity of the object it stands for. Two slots with
  the same `oid` are the same object, so a field written through one shows
  through the other.
- **Stacks.** A stack is a `seq<int>` whose top is its last element.
- **Floats.** Positions, deltas, times and speeds are `real`.
- **Draw calls.** A draw call to the graphics device becomes an entry
  appended to a trace.
- **Sprite draws.** `SpriteBatch.Draw` becomes a list of draw requests.

The model follows the code's behaviour, including where the code's
comments say otherwise:
- **Animation tick order.** `Systems.Animation` (`Engine/Systems.cs:148-169`)
  compares the accumulator with `FrameDelay` before it adds this tick's
  `dt*Speed`. With `dt*Speed == FrameDelay` and an empty
  accumulator, a frame therefore stays on screen for two ticks, not one
  (`Passes.TwoTicksPerFrame`, and over many ticks `Passes.FrameAfterTicks`).
- **A failed AddEntity still consumes an id.** `nextFreeID` has already
  advanced, and the caller's entity already carries the new id
  (`ScenePool.AddWhenFull`).
- **AddEntity does not check for an entity already in the scene**, although
  its comment says it does. See "## Findings".
- **Removing an entity keeps its components.** `Scene.RemoveEntity` does
  not release the entity's component slots. They stay allocated but nobody
  holds them (`WorldModel.RemoveEntityKeepsConsistent`). A Movement record
  left behind this way makes every later Movement pass throw, because its
  owner can no longer be looked up (`Passes.OrphanBreaksMovement`).
- **Missing records throw.** The passes do not skip missing records
  silently:
  - a stored component whose owner id is no longer in the scene makes
    `GetEntityWithID` throw;
  - a processed animator whose owner has no sprite record dereferences
    null;
  - a selected sprite whose owner has no Movement record dereferences null.

  Each of these throws in C#, so the pass ends with `Fail`, carrying the
  exception of the first broken slot (`Passes.MoveFromError`,
  `Passes.AnimateFromError`, `Passes.SpriteDrawsError`).
- **Registration.** Every component kind registers the way the Animator
  constructor does: it calls `Systems.AddComponent(owner, this)` and stores
  itself at the returned slot. The Movement and SpriteRenderer constructors
  in the source still call list-style `Insert`/`Add` on what are fixed
  arrays.

Reading components by entity id. The Sprite and Animation systems find an
entity's other components by indexing a store with the entity's id
(`MovementComps[entity.ID]` in `Engine/Systems.cs:122`,
`SpriteRendererComps[entity.ID]` at line 144), not with the slot the
entity's table records for that kind. The two agree when every entity
receives each kind in id order, which is what `Components/Movement.cs:21`
(`Insert(entityID, ...)`) and the sample in `Main.cs:45` assume. They
differ as soon as components are attached in another order:
- `Passes.DrawReadsSlotOfEntityId` states, for any world, that the sprite
  of the entity at id 0 is drawn at the position of the Movement record in
  slot 0, whoever owns that record;
- `Passes.SpriteDrawnAtOthersPosition` builds a world where entity B gets
  its Movement component before entity A, and proves that A's sprite is
  drawn at B's position.

The model keeps this indexing as written. It records the consequence
rather than a fix, because the code does not say whether the slot tables
or the id indexing are meant to win.

## Model

| member | source | states |
|---|---|---|
| ComponentTags.Ordinal | Engine/Component.cs:8-16 | every tag's number indexes the five-entry per-tag tables |
| ComponentTags.TagAt | Engine/Component.cs:8-16 | each number below five names the tag with that ordinal |
| ComponentTags.OrdinalBijective | Engine/Component.cs:8-16 | the tags are a closed enumeration numbered 0..4: tag to number and back is the identity both ways, and distinct tags have distinct numbers |
| ComponentTags.NewHeader | Engine/Component.cs:18-24 | a component starts enabled and carries its owner's id and its fixed kind tag |
| ComponentTags.NewBaseComponent | Engine/Component.cs:18-24 | a bare base-class component has owner 0, the first tag and is enabled, and is marked as the base class |
| EntityModel.NewEntity | Engine/Entity.cs:17-23 | a default entity is a fresh object named "Entity", with ID 0, active, not destroyed, and carries no component bit |
| EntityModel.NewNamedEntity | Engine/Entity.cs:25-31 | a named entity is a fresh object with the given name and ID 0; it is active, not destroyed, and carries no component bit |
| EntityModel.SetBit | Engine/Entity.cs:33-58 | setting or clearing one kind's bit makes HasComponent answer the new value for that kind and what it answered before for every other kind; nothing but the bits changes |
| EntityModel.AddComponent | Engine/Entity.cs:33-39 | fails with a base-class error exactly for a base Component; otherwise sets the bit of the component's kind and leaves every other bit and field unchanged |
| EntityModel.RemoveComponent | Engine/Entity.cs:41-47 | fails exactly for a base Component; otherwise clears the bit of its kind and nothing else |
| EntityModel.RemoveComponentOfType | Engine/Entity.cs:50-53 | clears exactly the bit of the given tag; slots, name, flags and other bits are kept |
| EntityModel.Destroy | Engine/Entity.cs:60-65 | sets Destroyed; id, name, Active, every bit and every component slot are unchanged |
| EntityModel.DestroyIdempotent | Engine/Entity.cs:60-65 | destroying twice is the same as destroying once |
| EntityModel.AddThenRemoveRestores | Engine/Entity.cs:33-53 | adding then removing a concrete component gives back the original entity if and only if the entity did not already carry that kind |
| ScenePool.NewScene | Engine/Scene.cs:20-25 | the default scene is named "Default Scene", every slot is empty, nextFreeID is 0, the free stack is empty, and the pool invariant holds |
| ScenePool.NewNamedScene | Engine/Scene.cs:27-32 | the same for a scene with the given name |
| ScenePool.AddEntity | Engine/Scene.cs:37-51 | a null entity fails and changes nothing. Otherwise the id is the top of the free stack (popped) or else nextFreeID (advanced), and it is written into the caller's object even when the add then fails. The add succeeds if and only if that id is below 1000, and then the object sits at its id. Every other slot is unchanged, except that a slot already referring to the same object shows the new id. A failure at 1000 or more is a capacity error |
| ScenePool.AddEntityChecked | Engine/Scene.cs:34-51 | the add its comment describes: an entity object already stored in the scene is refused with nothing changed; anything else is added as by AddEntity |
| ScenePool.RemoveEntity | Engine/Scene.cs:55-66 | fails on null, on an id of 1000 or more, and on an empty slot; otherwise nulls exactly that slot, pushes the id on the free stack, keeps nextFreeID, and returns the entity marked Destroyed |
| ScenePool.GetEntityWithId | Engine/Scene.cs:68-74 | succeeds if and only if the id is an occupied in-range slot, returns its occupant, and that occupant's id equals the index in a valid scene |
| ScenePool.GetEntityWithName | Engine/Scene.cs:76-86 | an empty name fails; otherwise succeeds if and only if some occupied slot carries the name, and returns the occupant of the first such slot in index order |
| ScenePool.AddEntityKeepsValid | Engine/Scene.cs:42-50 | an add keeps the pool invariant (ids match indices, no object stored twice, every handed-out id below min(nextFreeID, 1000) occupied or on the free stack exactly once, never both) if and only if the entity is null or not already stored in the scene |
| ScenePool.ReAddBreaksValid | Engine/Scene.cs:42-50 | re-adding an entity object the scene already stores leaves its old slot referring to it under a new id that differs from the slot index, so the pool invariant is broken whether or not the add succeeds |
| ScenePool.AddEntityCheckedKeepsValid | Engine/Scene.cs:34-51 | the checked add keeps the pool invariant for every argument and refuses an object already in the scene |
| ScenePool.RemoveEntityKeepsValid | Engine/Scene.cs:60-64 | every successful remove keeps the same invariant |
| ScenePool.LifoReuse | Engine/Scene.cs:42-64 | removing A then B and then adding two entities hands out B's id first and A's id second |
| ScenePool.AddWhenFull | Engine/Scene.cs:42-48 | with no freed id and nextFreeID at 1000 or more, AddEntity fails with a capacity error, nextFreeID still advances, and for an object not in the scene nothing else changes |
| MovementModel.NewMovement | Components/Movement.cs:12-22 | the default constructor puts the record at the origin with zero deltas, for the given owner, tagged Movement and enabled |
| MovementModel.NewMovementAt | Components/Movement.cs:24-34 | the position constructor takes X and Y from its arguments, sets zero deltas, the given owner and the Movement tag |
| MovementModel.IntegrateMeaning | Engine/Systems.cs:98-105 | processing a record moves it by exactly its deltas and then zeroes them; a record with zero deltas is unchanged; processing twice is the same as once |
| MovementModel.FreshMovementStays | Components/Movement.cs:12-34 | a freshly built Movement has zero deltas, so a Movement pass leaves its position unchanged |
| SpriteModel.NewSprite | Components/SpriteRenderer.cs:18-32 | a new sprite record starts with the empty source rectangle, tagged SpriteRenderer, enabled, for the given owner |
| SpriteModel.NewTexturedSprite | Components/SpriteRenderer.cs:34-48 | the texture constructor takes its source rectangle from the texture: origin (0, 0), width and height of the texture; a null texture throws a null-reference error on reading its size; the header is that of the textureless constructor |
| AnimationModel.NewAnimation | Components/Utility/Animation.cs:17-28 | keeps the name and frames as given; frame 0, delay 0.5, not reversed, not looping, not playing, accumulator 0, speed 1 |
| AnimationModel.StopAnimation | Components/Utility/Animation.cs:30-33 | clears IsPlaying and changes nothing else |
| AnimationModel.ResumeAnimation | Components/Utility/Animation.cs:35-38 | sets IsPlaying and changes nothing else |
| AnimationModel.StopResumeLaws | Components/Utility/Animation.cs:30-38 | Stop and Resume are each idempotent, and each undoes the other when it changed the flag |
| AnimationModel.NewAnimator | Components/Animator.cs:12-18 | a new Animator has an empty table and no current animation, so nothing is playing, for the given owner with the Animator tag |
| AnimationModel.PlayingQuery | Components/Animator.cs:23-26 | IsSomethingPlaying holds if and only if a current animation exists and is playing; it holds after Play of a known name, never after Stop, and after Resume exactly when there is a current animation |
| AnimationModel.Play | Components/Animator.cs:32-42 | an unknown name changes nothing; a known name becomes current and restarts at frame 0 (or the last frame when reversed) with accumulator 0 and IsPlaying set, and every other animation is unchanged |
| AnimationModel.PlayRestarts | Components/Animator.cs:35-41 | playing the same name twice equals playing it once: Play always restarts, even when already playing |
| AnimationModel.Resume | Components/Animator.cs:44-48 | without a current animation it changes nothing; otherwise it sets only the current animation's IsPlaying |
| AnimationModel.Stop | Components/Animator.cs:50-54 | without a current animation it changes nothing; otherwise it clears only the current animation's IsPlaying |
| AnimationModel.StopThenResume | Components/Animator.cs:44-54 | Stop then Resume restores a playing animator exactly: same current animation, same frame, same accumulator |
| AnimationModel.StopResumeIdempotent | Components/Animator.cs:44-54 | Stop and Resume of the Animator are each idempotent |
| AnimationModel.ControlsKeepAnimatorOk | Components/Animator.cs:32-54 | Play, Stop and Resume keep every animation's frame index inside its frame array |
| SystemStores.Init | Engine/Systems.cs:24-40 | Init (and Reset) put every tag's high-water counter at 0, empty every free stack and null every array slot |
| SystemStores.AddComponent | Engine/Systems.cs:50-68 | fails with a duplicate error exactly when the entity already has the tag. Otherwise it pops the tag's most recently freed slot, or else hands out the high-water index and advances it. The slot returned is written into the entity's table, and nothing else of the entity changes. No other tag's counter or free stack and no array changes |
| SystemStores.RemoveComponent | Engine/Systems.cs:77-84 | fails exactly when the entity lacks the tag; otherwise it pushes and returns the entity's slot for that tag; no other tag changes and the arrays are untouched |
| SystemStores.ReleaseThenAllocate | Engine/Systems.cs:57-82 | releasing a slot and then allocating the same tag hands that slot back and restores the stores exactly (LIFO reuse) |
| SystemStores.DoubleReleaseDuplicates | Engine/Systems.cs:77-84 | releasing twice without clearing the has-bit in between is accepted and pushes the same slot twice, so the bit must be cleared between releases |
| WorldModel.Register | Components/Animator.cs:20 | the registration succeeds exactly when the owner is in the scene, lacks the tag, and the allocated slot fits the array; the component is then stored at the returned slot, which the owner's table records. An unknown owner or a duplicate kind changes nothing. Once a slot is allocated, only the owner, the tag's counter and free stack, and that one array element can change |
| WorldModel.Attach | Engine/Entity.cs:33-39 | attaching registers the component and then sets the owner's has-bit, so the owner holds the returned slot, where the component is stored. Beyond that the stores are those of the registration, no other entity changes, and the owner keeps its name, flags, other bits and other slots. A failed registration is returned as is |
| WorldModel.Detach | Engine/Systems.cs:77-84 | releasing through RemoveComponent, then RemoveComponent(type), then nulling the element. It fails on a missing owner or tag with nothing changed. Otherwise it pushes the held slot on the tag's free stack and clears the owner's has-bit, and it nulls that slot of the kind's array when the slot fits. No other tag, entity, bit or array element changes |
| WorldModel.NewWorld | Engine/Scene.cs:27-32 | a new active scene with freshly initialised stores has the given name, no entity, a valid pool, and for every kind a zero high-water mark and no free slot |
| WorldModel.ConstructedPayloadsWellKinded | Components/Movement.cs:12-34 | every component constructor tags its record with its own kind (Movement, SpriteRenderer, Animator) |
| WorldModel.RegisterKeepsValid | Components/Animator.cs:20 | registering and attaching keep the entity pool invariant: the rewritten owner keeps its id and identity |
| WorldModel.DetachKeepsValid | Engine/Systems.cs:77-84 | releasing a component keeps the entity pool invariant |
| WorldModel.AttachAtHighWater | Engine/Systems.cs:54-66 | with no freed slot and the high-water mark inside the array, attaching to an entity that lacks the kind succeeds with the high-water slot, stores the component there and advances the mark; the other kinds, the other entities, the owner's other bits and slots and the other array elements are untouched |
| WorldModel.NewWorldConsistent | Engine/Systems.cs:24-35 | a new world satisfies the slot invariant and the pool invariant |
| WorldModel.AttachKeepsConsistent | Engine/Systems.cs:54-66 | registration and attachment keep the slot invariant: freed slots lie below the high-water mark and appear once, held slots are not free, and no two entities hold the same slot of a tag |
| WorldModel.DetachKeepsConsistent | Engine/Systems.cs:77-84 | the two-step release keeps the slot invariant, so a slot is never freed twice |
| WorldModel.AddEntityKeepsConsistent | Engine/Scene.cs:37-51 | adding a freshly built entity keeps the slot invariant |
| WorldModel.RemoveEntityKeepsConsistent | Engine/Scene.cs:55-66 | removing an entity keeps the slot invariant; its slots stay allocated but are held by no one |
| WorldModel.DuplicateAttachRefused | Engine/Systems.cs:54-55 | attaching a kind the owner already carries fails with a duplicate error and leaves the world unchanged |
| Passes.MoveFrom | Engine/Systems.cs:88-107 | the Movement loop fails if and only if some slot below the high-water mark lies past the array or holds a record whose owner is gone. Each record the loop reaches before such a slot, whose owner is active and which is enabled, is integrated; every other slot, including those after the throw, is unchanged |
| Passes.MoveFromError | Engine/Systems.cs:90-96 | a Movement loop that throws raises the exception of the first broken slot: an index error past the array, or GetEntityWithID's failure for an owner it cannot find |
| Passes.MovementPass | Engine/Systems.cs:88-107 | the Movement pass changes only the Movement array, whether or not it throws, and it fails exactly when a slot below the Movement high-water mark is broken |
| Passes.MovementPassMeaning | Engine/Systems.cs:90-106 | every record the pass reaches before any throw that is processed has moved by its old deltas and has zero deltas; every other record is as before; the pass fails exactly on a broken slot below the high-water mark |
| Passes.OrphanBreaksMovement | Engine/Scene.cs:55-66 | after an entity is removed, a Movement record below the high-water mark that still names it makes the Movement pass throw |
| Passes.Advance | Engine/Systems.cs:148-169 | one tick never changes the header or the set of animation names. Below the delay only the current accumulator grows by dt*Speed. At or past the delay, an unfinished animation steps one frame in its direction and clears its accumulator. A finished one that does not loop stops being current and nothing plays. A finished looping one makes the animation registered under its name current and playing, from its start frame with a cleared accumulator (nothing changes if no animation is registered under that name). In every case the other animations are unchanged |
| Passes.AdvanceKeepsFrames | Engine/Systems.cs:148-169 | a tick keeps every frame index in range, moves the frame by at most one or restarts it, and stops an animator from playing only on a finish |
| Passes.TwoTicksPerFrame | Engine/Systems.cs:148-169 | from an empty accumulator with dt*Speed equal to the delay, the first tick only fills the accumulator and the second steps the frame |
| Passes.TicksKeepFrames | Engine/Systems.cs:148-169 | any number of ticks keeps every animation's frame index inside its frames |
| Passes.FrameAfterTicks | Engine/Systems.cs:148-169 | with dt*Speed equal to the delay and an empty accumulator, 2k ticks move the frame k steps in the playing direction, as long as the animation does not reach its last step |
| Passes.AnimateFrom | Engine/Systems.cs:130-173 | the Animation loop fails if and only if some slot below the high-water mark lies past the array, has an owner that is gone, or is processed while its frame index is out of range or its owner has no sprite record |
| Passes.AnimateFromError | Engine/Systems.cs:132-146 | an Animation loop that throws raises the exception of the first broken slot, in the order the body meets them: an index error past the array, GetEntityWithID's failure, an index error for an owner id or frame index out of range, and a null reference for a missing sprite record |
| Passes.AnimateFromAnimators | Engine/Systems.cs:132-171 | each animator the loop reaches before any throw, whose owner is active, which is enabled and which is playing, gets exactly one tick; every other animator, including those after a throw, is unchanged |
| Passes.AnimateKeepsSprites | Engine/Systems.cs:144-146 | the pass never creates or removes a sprite record and changes at most a sprite's source rectangle |
| Passes.AnimateUntouched | Engine/Systems.cs:144-146 | a sprite that no processed animator's owner points at is unchanged |
| Passes.AnimateLastShown | Engine/Systems.cs:144-146 | the sprite at an owner's id ends with the frame shown by the last processed animator of that owner, taken before that animator's tick |
| Passes.AnimationPass | Engine/Systems.cs:130-173 | the Animation pass changes neither the scene, the Movement array, the counters nor the free stacks, and it fails exactly when a slot below the Animator high-water mark is broken |
| Passes.AnimationPassKeepsFrames | Engine/Systems.cs:142-164 | if every stored animator's frame indices are in range before the pass, they are in range after it, whether or not the pass throws |
| Passes.Update | Engine/Scene.cs:103-108 | Update runs the Movement pass; when that throws, the update ends with its result, and otherwise the result is the Animation pass run on the moved world |
| Passes.UpdateMeaning | Engine/Scene.cs:103-108 | the two systems of an update act on disjoint stores: the scene is unchanged and the Movement store is the Movement pass's; if that pass completes, the sprites, animators and status are those of the Animation pass on the original world, and if it throws they are as before |
| Passes.UpdateClearsDeltas | Engine/Scene.cs:103-108 | after an update every Movement record the pass reached before any throw and processed has moved by its old deltas and has zero deltas |
| Passes.SpriteDraws | Engine/Systems.cs:110-127 | the sprite loop fails if and only if some slot lies past the array, has an owner that is gone, or is selected while no Movement record sits at its owner's entity id. Every request it makes is for a sprite whose owner is active, which is enabled and whose owner has Movement, reached before any throw, drawn at the position of the Movement record at the owner's id |
| Passes.SpriteDrawsOrdered | Engine/Systems.cs:112-125 | draw requests come in strictly increasing slot order |
| Passes.SpriteDrawsComplete | Engine/Systems.cs:112-125 | every selected sprite below the high-water mark that the loop reaches before any throw gets a draw request |
| Passes.SpriteDrawsError | Engine/Systems.cs:112-124 | a sprite loop that throws raises the exception of the first broken slot: an index error past the array, GetEntityWithID's failure, an index error for an owner id past the Movement array, or a null reference for a missing Movement record |
| Passes.SpriteRenderPass | Engine/Systems.cs:110-127 | the pass runs the sprite loop from slot 0 to the SpriteRenderer high-water mark, and fails exactly when a slot below that mark is broken |
| Passes.DrawReadsSlotOfEntityId | Engine/Systems.cs:118-124 | a lone enabled sprite owned by the active entity at id 0, which holds Movement, is drawn at the position of the Movement record in slot 0, whoever owns it |
| Passes.SpriteDrawnAtOthersPosition | Engine/Systems.cs:120-124 | when entity B receives Movement before entity A, A's Movement sits in slot 1 at (0, 0), B's in slot 0 at (5, 5), and A's sprite is drawn at (5, 5) |
| PrimitiveBatching.NumVertsPerPrimitive | Engine/PrimitiveBatch.cs:223-238 | LineList needs 2 vertices and TriangleList 3; every other type is an invalid-operation error |
| PrimitiveBatching.NewBatch | Engine/PrimitiveBatch.cs:70-88 | without a graphics device construction fails; otherwise the batch is idle, empty, undisposed and satisfies the batch invariant |
| PrimitiveBatching.Begin | Engine/PrimitiveBatch.cs:109-138 | fails when already begun, rejects the strip types as unsupported and PointList as invalid; otherwise begins with the type and changes nothing else |
| PrimitiveBatching.AddVertex | Engine/PrimitiveBatch.cs:145-169 | fails before Begin; on a valid begun batch it always succeeds, either appending the vertex, or (only at a primitive boundary with pos+nvp >= 500) first drawing the whole buffer and starting a fresh one with the vertex |
| PrimitiveBatching.Flush | Engine/PrimitiveBatch.cs:193-217 | fails before Begin; an empty buffer issues no draw; otherwise one draw of pos/nvp primitives over the whole primitives of the buffer is appended, a trailing partial primitive is dropped, and the buffer is emptied |
| PrimitiveBatching.FlushDrawn | Engine/PrimitiveBatch.cs:207-216 | flushing adds to the drawn vertices exactly the buffer's whole primitives |
| PrimitiveBatching.End | Engine/PrimitiveBatch.cs:174-186 | fails before Begin; otherwise flushes, leaves the batch idle with an empty buffer, and the drawn vertices grow by the buffer's whole primitives |
| PrimitiveBatching.Dispose | Engine/PrimitiveBatch.cs:90-105 | a disposing call marks the batch disposed and releases the effect only on the first such call; a non-disposing call changes nothing; nothing else changes |
| PrimitiveBatching.DisposeIdempotent | Engine/PrimitiveBatch.cs:96-105 | disposing again changes nothing, and the effect is released at most once |
| PrimitiveBatching.OperationsKeepValid | Engine/PrimitiveBatch.cs:109-217 | Begin, AddVertex, End and Dispose keep the batch invariant: the buffer stays below 500 and is empty when not begun, a primitive being filled fits, and every draw covers whole primitives |
| PrimitiveBatching.AddVertexConserves | Engine/PrimitiveBatch.cs:155-168 | adding a vertex loses nothing: the drawn vertices followed by the buffer grow by exactly that vertex |
| PrimitiveBatching.AddVerticesKeepValid | Engine/PrimitiveBatch.cs:145-169 | any sequence of vertices added to a begun batch is accepted and keeps the invariant and the primitive type |
| PrimitiveBatching.AddVerticesConserve | Engine/PrimitiveBatch.cs:155-168 | automatic flushes never drop or reorder vertices: the drawn vertices followed by the buffer grow by exactly the added sequence |
| PrimitiveBatching.AddVerticesPhase | Engine/PrimitiveBatch.cs:155-161 | automatic flushes never split a primitive: the buffer's position within the current primitive is the same as if no flush had happened |
| PrimitiveBatching.SessionDrawsAll | Engine/PrimitiveBatch.cs:109-217 | Begin, adding a whole number of primitives, then End draws exactly those vertices, in order, and leaves a valid idle batch |
| PrimitiveBatching.OutlineVertices | Engine/PrimitiveBatch.cs:256-266 | the outline is 8 vertices forming four segments (top, right, bottom, left), each starting where the previous one ended, closing the loop |
| PrimitiveBatching.SolidVertices | Engine/PrimitiveBatch.cs:273-281 | the filled rectangle is 6 vertices, two triangles that share the top-left/bottom-right diagonal |
| PrimitiveBatching.DrawRectangle | Engine/PrimitiveBatch.cs:256-266 | drawing an outline before Begin fails |
| PrimitiveBatching.DrawRectangleSolid | Engine/PrimitiveBatch.cs:273-281 | drawing a filled rectangle before Begin fails |
| PrimitiveBatching.RectangleVertexCounts | Engine/PrimitiveBatch.cs:256-281 | on a begun batch DrawRectangle adds exactly its 8 vertices and DrawRectangleSolid exactly its 6, in order (whole line and triangle primitives) |

## Left out

- Floating point: positions, deltas, times and speeds are exact `real`s. IEEE rounding, infinities and NaN are not modelled.
- Integer width: counters such as `nextFreeID` and `lastAllocatedIndex` are unbounded. The source's 32-bit `int` only wraps after about two billion allocations.
- Graphics device, `BasicEffect`, `SpriteBatch` and `SpriteFont`: these are an external API. A flush becomes a draw-call entry in a trace. A sprite draw becomes a draw request holding only the slot, source rectangle and position. The device's null check in the `PrimitiveBatch` constructor becomes a flag.
- Begin or AddVertex on a disposed batch: what the released effect and device then do is external, so disposal is tracked only as a flag and an effect-release count.
- PrimitiveBatch shape routines other than the two rectangles: arcs, circles, rounded rectangles, rotated lines, Bezier curves and the pipe helpers use trigonometry and float geometry.
- `Main.cs`: the game loop, input polling and content loading are I/O.
- `Scene.Destroy` and `Scene.Draw`: content unloading, garbage collection and SpriteBatch begin/end are runtime and renderer calls.
- The TextRendering pass, the Text component and the Particle components: renderer and random-number calls. `Systems.cs` declares no particle array. Their tags keep a counter and a free stack like every tag, but no array is modelled for them.
- Texture, colour, rotation, origin, scale, effects and layer of a SpriteRenderer: renderer parameters. The sprite record holds only its header and source rectangle.
- The `Insert`/`Add` calls of the Movement and SpriteRenderer constructors: these are superseded list APIs on fixed arrays. Every kind registers the Animator's way instead (`WorldModel.Register`).
- Null strings: a C# `string` may be null, and `GetEntityWithName(null)` would take the empty-name error path. Names here are plain sequences.
- Begin with PointList assigns the primitive type before it throws. No caller can observe that assignment, because the batch is not begun, so the failed Begin returns only the error.
- Passes.MovementPass: its own contract says what stays unchanged and when it fails. What happens to each record is stated by `Passes.MoveFrom` and `Passes.MovementPassMeaning`.
- Passes.AnimationPass: its own contract says what stays unchanged and when it fails. What happens to animators and sprites is stated by the `Passes.AnimateFrom*`, `Passes.AnimateKeepsSprites`, `Passes.AnimateUntouched` and `Passes.AnimateLastShown` lemmas.
- AnimationModel.Animator: the table maps names to animation values and the current animation is a name in that table, where the C# holds references to Animation objects. The model assumes every table entry is a distinct object and that the table is not changed while an animation is current. With shared entries, Play of one name would also restart the animation shown under another name; with the table changed after Play, C# would keep playing the old object while the model reads the new entry.
- The texture of a SpriteRenderer is kept only as the size that `NewTexturedSprite` reads; the sprite record does not carry it, so a request made for a sprite built without a texture does not show that the C# passes a null texture to SpriteBatch.Draw.
- Passes.AnimateLastShown: stated only for a pass that runs to the end. After a throw, the sprites written before it are covered by `Passes.AnimateKeepsSprites` and `Passes.AnimateUntouched` but not by a last-writer statement.
- Object identity: `oid` stands for a C# reference. The model does not check that callers pick fresh identities for new entities; only the scene invariant forbids two slots sharing one.
- The entity-id indexing of the Sprite and Animation systems is kept as written, with no corrected variant, for the reason given above.
- PrimitiveBatching.DrawRectangle and PrimitiveBatching.DrawRectangleSolid: their own contracts state only the not-begun failure. The vertices they add are stated by `PrimitiveBatching.RectangleVertexCounts`.

## Findings

| source | as written | input that shows it | evidently intended | confidence | as-written member | corrected member |
|---|---|---|---|---|---|---|
| Engine/Scene.cs:34-51 | AddEntity draws a new id and writes it into the entity object without checking whether the scene already stores that object, although the comment above it says it checks whether the entity already exists | a valid scene holding entity object X at slot 0 with an empty free stack and nextFreeID 1; `AddEntity(X)` sets X.ID to 1 and stores X at slot 1, so slot 0 now refers to an entity whose ID is 1 and the same object sits in two slots | an entity already stored in the scene is refused and nothing changes | high, not executed | ScenePool.AddEntity, ScenePool.ReAddBreaksValid | ScenePool.AddEntityChecked, ScenePool.AddEntityCheckedKeepsValid |

The rest of the model adds entities through `ScenePool.AddEntityChecked`; `WorldModel.AddEntityKeepsConsistent` is stated for it.
