/** The engine's global state as one value: the active scene (Scene.ActiveScene)
    and the static Systems stores. Component registration and release are
    world operations because they touch both. */
module WorldModel {
  import opened Common
  import opened ComponentTags
  import opened EntityModel
  import opened ScenePool
  import opened MovementModel
  import opened SpriteModel
  import opened AnimationModel
  import opened SystemStores

  datatype World = World(scene: Scene, stores: Stores)

  /** A scene just made active, with the stores just initialised: no entity,
      and for every kind a zero high-water mark and no free slot. */
  function NewWorld(sceneName: string): (w: World)
    ensures w.scene.name == sceneName && Valid(w.scene)
    ensures forall i :: 0 <= i < MaxEntities ==> !Occupied(w.scene, i)
    ensures forall t :: HighWater(w.stores, t) == 0 && FreeSlots(w.stores, t) == []
  {
    World(NewNamedScene(sceneName), Init())
  }

  /** A freshly built component of a kind that has a store. */
  datatype Payload =
    | MovementPayload(movement: Movement)
    | SpritePayload(sprite: Sprite)
    | AnimatorPayload(animator: Animator)
  {
    function Hdr(): Header {
      match this
      case MovementPayload(m) => m.hdr
      case SpritePayload(s) => s.hdr
      case AnimatorPayload(a) => a.hdr
    }

    /** The object as Entity.AddComponent sees it: a concrete subclass. */
    function Ref(): ComponentRef {
      ComponentRef(Hdr(), false)
    }

    /** The header names the kind of the record: every constructor of a
        component class sets ComponentID to its own kind. */
    predicate WellKinded() {
      match this
      case MovementPayload(m) => m.hdr.componentId == Tag.Movement
      case SpritePayload(s) => s.hdr.componentId == Tag.SpriteRenderer
      case AnimatorPayload(a) => a.hdr.componentId == Tag.Animator
    }
  }

  /** The records the component constructors build are well kinded. */
  lemma ConstructedPayloadsWellKinded(entityId: int, posX: real, posY: real)
    ensures MovementPayload(NewMovement(entityId)).WellKinded()
    ensures MovementPayload(NewMovementAt(entityId, posX, posY)).WellKinded()
    ensures SpritePayload(NewSprite(entityId)).WellKinded()
    ensures forall t :: NewTexturedSprite(entityId, t).Ok? ==> SpritePayload(NewTexturedSprite(entityId, t).value).WellKinded()
    ensures AnimatorPayload(NewAnimator(entityId)).WellKinded()
  {
  }

  /** Scene s' differs from s at most in the entity stored at index id. */
  predicate SceneKeptBut(s: Scene, s': Scene, id: int) {
    && s'.name == s.name && s'.freed == s.freed && s'.nextFreeId == s.nextFreeId
    && forall i :: 0 <= i < MaxEntities && i != id ==> s'.entities[i] == s.entities[i]
  }

  /** The arrays of r differ from those of st at most in element slot of
      kind t's array. */
  predicate ArraysKeptBut(st: Stores, r: Stores, t: Tag, slot: int) {
    && (t != Tag.Movement ==> r.movements == st.movements)
    && (t != Tag.SpriteRenderer ==> r.sprites == st.sprites)
    && (t != Tag.Animator ==> r.animators == st.animators)
    && forall k :: 0 <= k < MaxEntities && k != slot ==>
         r.movements[k] == st.movements[k] && r.sprites[k] == st.sprites[k] && r.animators[k] == st.animators[k]
  }

  /** The state a world operation leaves behind and what it returned or threw.
      A throw can come after some state has already changed. */
  datatype Step = Step(world: World, result: Result<int>)

  /** `Systems.XComps[slot] = component` for the payload's store. */
  function Put(st: Stores, p: Payload, slot: int): Stores
    requires 0 <= slot < MaxEntities
  {
    match p
    case MovementPayload(m) => st.(movements := st.movements[slot := Some(m)])
    case SpritePayload(s) => st.(sprites := st.sprites[slot := Some(s)])
    case AnimatorPayload(a) => st.(animators := st.animators[slot := Some(a)])
  }

  /** `Systems.XComps[slot] = null` for kind t; kinds without a modelled array
      have nothing to clear. */
  function Clear(st: Stores, t: Tag, slot: int): Stores
    requires 0 <= slot < MaxEntities
  {
    match t
    case Movement => st.(movements := st.movements[slot := None])
    case SpriteRenderer => st.(sprites := st.sprites[slot := None])
    case Animator => st.(animators := st.animators[slot := None])
    case _ => st
  }

  function SetEntity(s: Scene, id: int, e: Entity): Scene
    requires 0 <= id < MaxEntities
  {
    s.(entities := s.entities[id := Some(e)])
  }

  /** What a component constructor does to register itself (the Animator
      constructor's last line, used for every kind with a store):
      `XComps[Systems.AddComponent(GetEntityWithID(entityID), this)] = this`.
      The owner lookup and the duplicate check can throw before any change; a
      slot past the array end throws after the allocation has happened. */
  function Register(w: World, p: Payload): (r: Step)
    requires p.WellKinded()
    ensures GetEntityWithId(w.scene, p.Hdr().entityId).Err? ==> r.world == w && r.result.Err?
    ensures Holds(w.scene, p.Hdr().entityId, p.Hdr().componentId) ==> r == Step(w, Err(DuplicateComponent))
    ensures r.result.Ok? <==>
              && Occupied(w.scene, p.Hdr().entityId)
              && SystemStores.AddComponent(w.stores, w.scene.entities[p.Hdr().entityId].value, p.Hdr()).Ok?
              && 0 <= SystemStores.AddComponent(w.stores, w.scene.entities[p.Hdr().entityId].value, p.Hdr()).value.slot < MaxEntities
    ensures r.result.Ok? ==>
              && Stored(r.world.stores, p, r.result.value)
              && Occupied(r.world.scene, p.Hdr().entityId)
              && HeldSlot(r.world.scene, p.Hdr().entityId, p.Hdr().componentId) == r.result.value
    ensures Occupied(w.scene, p.Hdr().entityId) && !Holds(w.scene, p.Hdr().entityId, p.Hdr().componentId) ==>
              var alloc := SystemStores.AddComponent(w.stores, w.scene.entities[p.Hdr().entityId].value, p.Hdr()).value;
              && r.world.stores.lastAllocated == alloc.stores.lastAllocated
              && r.world.stores.freed == alloc.stores.freed
              && r.world.scene.entities[p.Hdr().entityId] == Some(alloc.entity)
              && SceneKeptBut(w.scene, r.world.scene, p.Hdr().entityId)
              && ArraysKeptBut(w.stores, r.world.stores, p.Hdr().componentId, alloc.slot)
  {
    var id := p.Hdr().entityId;
    match GetEntityWithId(w.scene, id)
    case Err(err) => Step(w, Err(err))
    case Ok(e) =>
      match SystemStores.AddComponent(w.stores, e, p.Hdr())
      case Err(err) => Step(w, Err(err))
      case Ok(alloc) =>
        var w' := World(SetEntity(w.scene, id, alloc.entity), alloc.stores);
        if 0 <= alloc.slot < MaxEntities then Step(w'.(stores := Put(alloc.stores, p, alloc.slot)), Ok(alloc.slot))
        else Step(w', Err(IndexOutOfRange))
  }

  /** The payload sits at that slot of its store. */
  predicate Stored(st: Stores, p: Payload, slot: int) {
    0 <= slot < MaxEntities &&
    match p
    case MovementPayload(m) => st.movements[slot] == Some(m)
    case SpritePayload(s) => st.sprites[slot] == Some(s)
    case AnimatorPayload(a) => st.animators[slot] == Some(a)
  }

  /** `entity.AddComponent(new X(entity.ID, ...))`: the constructor registers
      the component, then the entity sets the has-bit of its kind. */
  function Attach(w: World, p: Payload): (r: Step)
    requires p.WellKinded()
    ensures Register(w, p).result.Err? ==> r == Register(w, p)
    ensures r.result.Ok? ==>
              && Holds(r.world.scene, p.Hdr().entityId, p.Hdr().componentId)
              && HeldSlot(r.world.scene, p.Hdr().entityId, p.Hdr().componentId) == r.result.value
              && Stored(r.world.stores, p, r.result.value)
    ensures r.result.Ok? ==>
              var e := w.scene.entities[p.Hdr().entityId].value;
              var e' := r.world.scene.entities[p.Hdr().entityId].value;
              && r.world.stores == Register(w, p).world.stores
              && SceneKeptBut(w.scene, r.world.scene, p.Hdr().entityId)
              && e'.(bits := e.bits, slots := e.slots) == e
              && SameBitsExcept(e', e, p.Hdr().componentId)
              && (forall u :: u != p.Hdr().componentId ==> SlotOf(e', u) == SlotOf(e, u))
  {
    var reg := Register(w, p);
    if reg.result.Err? then reg
    else
      var id := p.Hdr().entityId;
      var e := reg.world.scene.entities[id].value;
      var e' := SetBit(e, p.Hdr().componentId, true);
      Step(reg.world.(scene := SetEntity(reg.world.scene, id, e')), reg.result)
  }

  /** Releasing a component of kind t from the entity with the given id, in
      the order the engine expects of callers: Systems.RemoveComponent, then
      Entity.RemoveComponent(t), then clearing the array element. */
  function Detach(w: World, id: int, t: Tag): (r: Step)
    ensures GetEntityWithId(w.scene, id).Err? ==> r.world == w && r.result.Err?
    ensures Occupied(w.scene, id) && !Holds(w.scene, id, t) ==> r == Step(w, Err(MissingComponent))
    ensures Holds(w.scene, id, t) ==>
              && (r.result.Ok? <==> 0 <= HeldSlot(w.scene, id, t) < MaxEntities)
              && (r.result.Ok? ==> r.result.value == HeldSlot(w.scene, id, t))
              && Occupied(r.world.scene, id) && !Holds(r.world.scene, id, t)
              && FreeSlots(r.world.stores, t) == Push(FreeSlots(w.stores, t), HeldSlot(w.scene, id, t))
              && HighWater(r.world.stores, t) == HighWater(w.stores, t)
              && OthersKept(w.stores, r.world.stores, t)
    ensures Holds(w.scene, id, t) ==>
              var slot := HeldSlot(w.scene, id, t);
              && SceneKeptBut(w.scene, r.world.scene, id)
              && SameButBits(r.world.scene.entities[id].value, w.scene.entities[id].value)
              && SameBitsExcept(r.world.scene.entities[id].value, w.scene.entities[id].value, t)
              && ArraysKeptBut(w.stores, r.world.stores, t, slot)
              && (r.result.Ok? && t == Tag.Movement ==> r.world.stores.movements[slot].None?)
              && (r.result.Ok? && t == Tag.SpriteRenderer ==> r.world.stores.sprites[slot].None?)
              && (r.result.Ok? && t == Tag.Animator ==> r.world.stores.animators[slot].None?)
              && (r.result.Err? ==> ArraysKept(w.stores, r.world.stores))
  {
    match GetEntityWithId(w.scene, id)
    case Err(err) => Step(w, Err(err))
    case Ok(e) =>
      match SystemStores.RemoveComponent(w.stores, e, t)
      case Err(err) => Step(w, Err(err))
      case Ok(rel) =>
        var scene' := SetEntity(w.scene, id, RemoveComponentOfType(e, t));
        if 0 <= rel.slot < MaxEntities then Step(World(scene', Clear(rel.stores, t, rel.slot)), Ok(rel.slot))
        else Step(World(scene', rel.stores), Err(IndexOutOfRange))
  }

  /** The entity at index i carries kind t. */
  predicate Holds(s: Scene, i: int, t: Tag) {
    Occupied(s, i) && HasComponent(s.entities[i].value, t)
  }

  function HeldSlot(s: Scene, i: int, t: Tag): int
    requires Occupied(s, i)
  {
    SlotOf(s.entities[i].value, t)
  }

  /** The slot bookkeeping of kind t: every freed slot is below the high-water
      mark and the array length, and is freed once; every entity carrying t
      holds such a slot that is not free; no two entities hold the same slot. */
  ghost predicate StoreConsistent(w: World, t: Tag) {
    var free := FreeSlots(w.stores, t);
    && HighWater(w.stores, t) >= 0
    && (forall k :: 0 <= k < |free| ==> 0 <= free[k] < HighWater(w.stores, t) && free[k] < MaxEntities)
    && (forall j, k :: 0 <= j < k < |free| ==> free[j] != free[k])
    && (forall i :: Holds(w.scene, i, t) ==>
          0 <= HeldSlot(w.scene, i, t) < HighWater(w.stores, t) && HeldSlot(w.scene, i, t) < MaxEntities
          && HeldSlot(w.scene, i, t) !in free)
    && (forall i, j :: Holds(w.scene, i, t) && Holds(w.scene, j, t) && i != j ==>
          HeldSlot(w.scene, i, t) != HeldSlot(w.scene, j, t))
  }

  ghost predicate SlotsConsistent(w: World) {
    forall t :: StoreConsistent(w, t)
  }

  lemma NewWorldConsistent(name: string)
    ensures SlotsConsistent(NewWorld(name)) && Valid(NewWorld(name).scene)
  {
  }

  /** Registering (with or without setting the has-bit) keeps every kind's
      slot bookkeeping: a slot is handed to at most one entity. */
  lemma AttachKeepsConsistent(w: World, p: Payload)
    requires p.WellKinded() && SlotsConsistent(w)
    ensures SlotsConsistent(Register(w, p).world)
    ensures SlotsConsistent(Attach(w, p).world)
  {
    var id := p.Hdr().entityId;
    var c := p.Hdr().componentId;
    if GetEntityWithId(w.scene, id).Ok? && SystemStores.AddComponent(w.stores, w.scene.entities[id].value, p.Hdr()).Ok? {
      var e := w.scene.entities[id].value;
      var alloc := SystemStores.AddComponent(w.stores, e, p.Hdr()).value;
      var reg := Register(w, p).world;
      assert reg.scene == SetEntity(w.scene, id, alloc.entity);
      assert reg.stores.lastAllocated == alloc.stores.lastAllocated;
      assert reg.stores.freed == alloc.stores.freed;
      AllocationKeeps(w, id, p.Hdr(), reg, alloc.entity);
      if Register(w, p).result.Ok? {
        var e' := SetBit(alloc.entity, c, true);
        assert Attach(w, p).world.scene == SetEntity(w.scene, id, e');
        AllocationKeeps(w, id, p.Hdr(), Attach(w, p).world, e');
      }
    }
  }

  /** w' is w after an allocation of kind h.componentId for the entity at id,
      with that entity replaced by e', whose has-bit of the kind may or may
      not be set yet. */
  ghost predicate AllocatedTo(w: World, id: int, h: Header, w': World, e': Entity) {
    && Occupied(w.scene, id)
    && SystemStores.AddComponent(w.stores, w.scene.entities[id].value, h).Ok?
    && var alloc := SystemStores.AddComponent(w.stores, w.scene.entities[id].value, h).value;
       && w'.stores.lastAllocated == alloc.stores.lastAllocated
       && w'.stores.freed == alloc.stores.freed
       && w'.scene == SetEntity(w.scene, id, e')
       && e'.slots == alloc.entity.slots
       && SameBitsExcept(e', alloc.entity, h.componentId)
       && (HasComponent(e', h.componentId) ==> 0 <= alloc.slot < MaxEntities)
  }

  /** A kind whose free stack and high-water mark are unchanged, and whose
      holders in w' held the same slots in w, stays consistent. */
  lemma ConsistentByHolders(w: World, w': World, u: Tag)
    requires StoreConsistent(w, u)
    requires FreeSlots(w'.stores, u) == FreeSlots(w.stores, u) && HighWater(w'.stores, u) == HighWater(w.stores, u)
    requires forall i :: Holds(w'.scene, i, u) ==> Holds(w.scene, i, u) && HeldSlot(w'.scene, i, u) == HeldSlot(w.scene, i, u)
    ensures StoreConsistent(w', u)
  {
  }

  /** After an allocation for the entity at id, the slot table of that entity
      holds the new slot; whether its has-bit is then set or not, no slot is
      shared. */
  lemma AllocationKeeps(w: World, id: int, h: Header, w': World, e': Entity)
    requires SlotsConsistent(w)
    requires AllocatedTo(w, id, h, w', e')
    ensures SlotsConsistent(w')
  {
    forall t ensures StoreConsistent(w', t) {
      if t == h.componentId {
        AllocationKeepsKind(w, id, h, w', e');
      } else {
        AllocationKeepsOther(w, id, h, w', e', t);
      }
    }
  }

  /** An allocation leaves every other kind's bookkeeping as it was. */
  lemma AllocationKeepsOther(w: World, id: int, h: Header, w': World, e': Entity, t: Tag)
    requires SlotsConsistent(w)
    requires AllocatedTo(w, id, h, w', e')
    requires t != h.componentId
    ensures StoreConsistent(w', t)
  {
    assert StoreConsistent(w, t);
    assert FreeSlots(w'.stores, t) == FreeSlots(w.stores, t);
    assert HighWater(w'.stores, t) == HighWater(w.stores, t);
    forall i | Holds(w'.scene, i, t) ensures Holds(w.scene, i, t) && HeldSlot(w'.scene, i, t) == HeldSlot(w.scene, i, t) {
    }
    ConsistentByHolders(w, w', t);
  }

  /** An allocation keeps the bookkeeping of its own kind: the slot handed
      out was free or fresh, so no one else holds it. */
  lemma AllocationKeepsKind(w: World, id: int, h: Header, w': World, e': Entity)
    requires SlotsConsistent(w)
    requires AllocatedTo(w, id, h, w', e')
    ensures StoreConsistent(w', h.componentId)
  {
    var t := h.componentId;
    var e := w.scene.entities[id].value;
    var alloc := SystemStores.AddComponent(w.stores, e, h).value;
    assert StoreConsistent(w, t);
    var free := FreeSlots(w.stores, t);
    var free' := FreeSlots(w'.stores, t);
    if |free| > 0 {
      assert free == free' + [alloc.slot];
      forall k | 0 <= k < |free'| ensures free'[k] != alloc.slot {
        assert free'[k] == free[k];
      }
    }
    forall i | Holds(w'.scene, i, t)
      ensures 0 <= HeldSlot(w'.scene, i, t) < HighWater(w'.stores, t) && HeldSlot(w'.scene, i, t) < MaxEntities
              && HeldSlot(w'.scene, i, t) !in free'
    {
      if i != id {
        assert Holds(w.scene, i, t);
        assert HeldSlot(w'.scene, i, t) == HeldSlot(w.scene, i, t);
        assert HeldSlot(w.scene, i, t) !in free;
      } else {
        assert HeldSlot(w'.scene, i, t) == alloc.slot;
      }
    }
    forall i, j | Holds(w'.scene, i, t) && Holds(w'.scene, j, t) && i != j
      ensures HeldSlot(w'.scene, i, t) != HeldSlot(w'.scene, j, t)
    {
      if i != id && j != id {
        assert Holds(w.scene, i, t) && Holds(w.scene, j, t);
      } else if i == id {
        assert Holds(w.scene, j, t);
        assert HeldSlot(w'.scene, j, t) == HeldSlot(w.scene, j, t);
      } else {
        assert Holds(w.scene, i, t);
        assert HeldSlot(w'.scene, i, t) == HeldSlot(w.scene, i, t);
      }
    }
  }

  /** w' is w after the entity at id released its slot of kind t: the
      entity lost its has-bit, the slot was pushed on t's free stack, and no
      other counter or free stack changed. */
  ghost predicate ReleasedFrom(w: World, id: int, t: Tag, w': World) {
    && Holds(w.scene, id, t)
    && w'.scene == SetEntity(w.scene, id, RemoveComponentOfType(w.scene.entities[id].value, t))
    && FreeSlots(w'.stores, t) == Push(FreeSlots(w.stores, t), HeldSlot(w.scene, id, t))
    && HighWater(w'.stores, t) == HighWater(w.stores, t)
    && OthersKept(w.stores, w'.stores, t)
  }

  /** Releasing through the full protocol keeps every kind's slot bookkeeping:
      the released slot was held by that entity only, so it is freed once. */
  lemma DetachKeepsConsistent(w: World, id: int, t: Tag)
    requires SlotsConsistent(w)
    ensures SlotsConsistent(Detach(w, id, t).world)
  {
    if Holds(w.scene, id, t) {
      var w' := Detach(w, id, t).world;
      assert ReleasedFrom(w, id, t, w');
      forall u ensures StoreConsistent(w', u) {
        if u == t {
          ReleaseKeepsKind(w, id, t, w');
        } else {
          ReleaseKeepsOther(w, id, t, w', u);
        }
      }
    }
  }

  /** After a release every holder of kind u held the same slot before, and
      the releasing entity no longer holds kind t. */
  lemma ReleaseHolders(w: World, id: int, t: Tag, w': World, u: Tag)
    requires ReleasedFrom(w, id, t, w')
    ensures forall i :: Holds(w'.scene, i, u) ==>
              && Holds(w.scene, i, u) && HeldSlot(w'.scene, i, u) == HeldSlot(w.scene, i, u)
              && (u == t ==> i != id)
  {
    forall i | Holds(w'.scene, i, u)
      ensures Holds(w.scene, i, u) && HeldSlot(w'.scene, i, u) == HeldSlot(w.scene, i, u) && (u == t ==> i != id)
    {
    }
  }

  /** A release leaves every other kind's bookkeeping as it was. */
  lemma ReleaseKeepsOther(w: World, id: int, t: Tag, w': World, u: Tag)
    requires SlotsConsistent(w) && ReleasedFrom(w, id, t, w') && u != t
    ensures StoreConsistent(w', u)
  {
    assert StoreConsistent(w, u);
    ReleaseHolders(w, id, t, w', u);
    ConsistentByHolders(w, w', u);
  }

  /** A release keeps the bookkeeping of its own kind: the pushed slot was
      held by the releasing entity alone, which no longer holds it. */
  lemma ReleaseKeepsKind(w: World, id: int, t: Tag, w': World)
    requires SlotsConsistent(w) && ReleasedFrom(w, id, t, w')
    ensures StoreConsistent(w', t)
  {
    var slot := HeldSlot(w.scene, id, t);
    assert StoreConsistent(w, t);
    ReleaseHolders(w, id, t, w', t);
    var free := FreeSlots(w.stores, t);
    var free' := FreeSlots(w'.stores, t);
    assert free' == free + [slot];
    forall j, k | 0 <= j < k < |free'| ensures free'[j] != free'[k] {
      if k == |free| {
        assert free'[j] == free[j];
      }
    }
    forall i | Holds(w'.scene, i, t) ensures HeldSlot(w'.scene, i, t) !in free' {
      assert HeldSlot(w.scene, i, t) != slot;
    }
  }

  /** Adding an entity fresh from its constructor (no has-bits) through the
      checked add, and removing an entity, both keep the slot bookkeeping;
      removal leaves the entity's slots allocated but held by no one. */
  lemma AddEntityKeepsConsistent(w: World, e: Entity)
    requires SlotsConsistent(w)
    requires forall t :: !HasComponent(e, t)
    ensures SlotsConsistent(w.(scene := AddEntityChecked(w.scene, Some(e)).scene))
  {
    var r := AddEntityChecked(w.scene, Some(e));
    var w' := w.(scene := r.scene);
    if !InScene(w.scene, e) {
      forall t ensures StoreConsistent(w', t) {
        assert StoreConsistent(w, t);
        forall i | 0 <= i < MaxEntities
          ensures Holds(w'.scene, i, t) ==> Holds(w.scene, i, t) && HeldSlot(w'.scene, i, t) == HeldSlot(w.scene, i, t)
        {
          if r.status.Pass? && i == r.entity.value.id {
            assert r.entity.value.bits == e.bits && !HasComponent(e, t);
            assert !Holds(w'.scene, i, t);
          } else {
            assert w'.scene.entities[i] == w.scene.entities[i];
          }
        }
      }
    }
  }

  lemma RemoveEntityKeepsConsistent(w: World, e: Entity)
    requires SlotsConsistent(w)
    requires RemoveEntity(w.scene, Some(e)).Ok?
    ensures SlotsConsistent(w.(scene := RemoveEntity(w.scene, Some(e)).value.scene))
  {
    var w' := w.(scene := RemoveEntity(w.scene, Some(e)).value.scene);
    forall t ensures StoreConsistent(w', t) {
      assert StoreConsistent(w, t);
      forall i | Holds(w'.scene, i, t) ensures Holds(w.scene, i, t) && HeldSlot(w'.scene, i, t) == HeldSlot(w.scene, i, t) {
      }
    }
  }

  /** Attaching a second component of a kind an entity already carries fails
      and changes nothing: its slot and every store stay as they were. */
  lemma DuplicateAttachRefused(w: World, p: Payload)
    requires p.WellKinded()
    requires Holds(w.scene, p.Hdr().entityId, p.Hdr().componentId)
    ensures Attach(w, p) == Step(w, Err(DuplicateComponent))
  {
  }

  /** Rewriting the entity at one index, keeping its id and identity, keeps
      the entity pool's bookkeeping. */
  lemma ReplaceKeepsValid(s: Scene, s': Scene, id: int)
    requires Valid(s) && Occupied(s, id) && SceneKeptBut(s, s', id) && Occupied(s', id)
    requires s'.entities[id].value.id == s.entities[id].value.id && s'.entities[id].value.oid == s.entities[id].value.oid
    ensures Valid(s')
  {
    assert forall i :: Occupied(s', i) <==> Occupied(s, i);
  }

  /** Registering, attaching and detaching keep the entity pool's
      bookkeeping: the entity they rewrite keeps its id and identity. */
  lemma RegisterKeepsValid(w: World, p: Payload)
    requires p.WellKinded() && Valid(w.scene)
    ensures Valid(Register(w, p).world.scene)
    ensures Valid(Attach(w, p).world.scene)
  {
    var id := p.Hdr().entityId;
    if Occupied(w.scene, id) && !Holds(w.scene, id, p.Hdr().componentId) {
      ReplaceKeepsValid(w.scene, Register(w, p).world.scene, id);
      if Attach(w, p).result.Ok? {
        ReplaceKeepsValid(w.scene, Attach(w, p).world.scene, id);
      }
    }
  }

  lemma DetachKeepsValid(w: World, id: int, t: Tag)
    requires Valid(w.scene)
    ensures Valid(Detach(w, id, t).world.scene)
  {
    if Holds(w.scene, id, t) {
      ReplaceKeepsValid(w.scene, Detach(w, id, t).world.scene, id);
    }
  }

  /** With no free slot of its kind and the high-water mark inside the array,
      attaching a component to an entity that lacks the kind hands out the
      high-water slot and advances the mark; the entity's other kinds, the
      other entities, the other kinds' counters and the other array
      elements are untouched. */
  lemma AttachAtHighWater(w: World, p: Payload)
    requires p.WellKinded() && Occupied(w.scene, p.Hdr().entityId) && !Holds(w.scene, p.Hdr().entityId, p.Hdr().componentId)
    requires FreeSlots(w.stores, p.Hdr().componentId) == [] && 0 <= HighWater(w.stores, p.Hdr().componentId) < MaxEntities
    ensures
      var t := p.Hdr().componentId;
      var id := p.Hdr().entityId;
      var h := HighWater(w.stores, t);
      var r := Attach(w, p);
      var e := w.scene.entities[id].value;
      && r.result == Ok(h)
      && Stored(r.world.stores, p, h)
      && HighWater(r.world.stores, t) == h + 1 && FreeSlots(r.world.stores, t) == []
      && OthersKept(w.stores, r.world.stores, t)
      && ArraysKeptBut(w.stores, r.world.stores, t, h)
      && SceneKeptBut(w.scene, r.world.scene, id)
      && Holds(r.world.scene, id, t) && HeldSlot(r.world.scene, id, t) == h
      && r.world.scene.entities[id].value.(bits := e.bits, slots := e.slots) == e
      && (forall u :: u != t ==> (Holds(r.world.scene, id, u) <==> Holds(w.scene, id, u)))
      && (forall u :: u != t ==> SlotOf(r.world.scene.entities[id].value, u) == SlotOf(e, u))
  {
    var id := p.Hdr().entityId;
    var alloc := SystemStores.AddComponent(w.stores, w.scene.entities[id].value, p.Hdr()).value;
    assert Register(w, p).world.stores.lastAllocated == alloc.stores.lastAllocated;
    assert Register(w, p).world.stores.freed == alloc.stores.freed;
  }
}
