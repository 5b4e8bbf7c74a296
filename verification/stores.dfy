/** The per-kind component stores of Engine/Systems.cs: for every kind a
    high-water counter (lastAllocatedIndex) and a LIFO stack of freed slot
    indices, plus the dense arrays of the kinds this model keeps. */
module SystemStores {
  import opened Common
  import opened ComponentTags
  import opened EntityModel
  import opened ScenePool
  import opened MovementModel
  import opened SpriteModel
  import opened AnimationModel

  datatype Stores = Stores(
    lastAllocated: IntTable,
    freed: StackTable,
    movements: SlotArray<Movement>,
    sprites: SlotArray<Sprite>,
    animators: SlotArray<Animator>)

  function HighWater(st: Stores, t: Tag): int { st.lastAllocated[Ordinal(t)] }
  function FreeSlots(st: Stores, t: Tag): seq<int> { st.freed[Ordinal(t)] }

  /** Systems.Init (also what Systems.Reset does): every counter at zero,
      every free stack empty, every array slot null. */
  function Init(): (st: Stores)
    ensures forall t :: HighWater(st, t) == 0 && FreeSlots(st, t) == []
    ensures forall i :: 0 <= i < MaxEntities ==>
              st.movements[i].None? && st.sprites[i].None? && st.animators[i].None?
  {
    Stores([0, 0, 0, 0, 0], [[], [], [], [], []], EmptySlots(), EmptySlots(), EmptySlots())
  }

  /** st and r agree on the counter and free stack of every kind but t. */
  predicate OthersKept(st: Stores, r: Stores, t: Tag) {
    forall u :: u != t ==> HighWater(r, u) == HighWater(st, u) && FreeSlots(r, u) == FreeSlots(st, u)
  }

  /** st and r hold the same component arrays. */
  predicate ArraysKept(st: Stores, r: Stores) {
    r.movements == st.movements && r.sprites == st.sprites && r.animators == st.animators
  }

  /** The result of Systems.AddComponent: the stores, the caller's entity with
      its slot table updated, and the slot handed out. */
  datatype Allocation = Allocation(stores: Stores, entity: Entity, slot: int)

  /** Systems.AddComponent: refuses an entity whose has-bit for the kind is
      already set; otherwise reuses the most recently freed slot of that kind,
      or else hands out the high-water index and advances it, and records the
      slot in the entity's table. The has-bit itself is left to the caller. */
  function AddComponent(st: Stores, e: Entity, c: Header): (r: Result<Allocation>)
    ensures r.Err? <==> HasComponent(e, c.componentId)
    ensures r.Err? ==> r.error == DuplicateComponent
    ensures r.Ok? && |FreeSlots(st, c.componentId)| > 0 ==>
              && r.value.slot == Top(FreeSlots(st, c.componentId))
              && FreeSlots(r.value.stores, c.componentId) == Pop(FreeSlots(st, c.componentId))
              && HighWater(r.value.stores, c.componentId) == HighWater(st, c.componentId)
    ensures r.Ok? && |FreeSlots(st, c.componentId)| == 0 ==>
              && r.value.slot == HighWater(st, c.componentId)
              && HighWater(r.value.stores, c.componentId) == HighWater(st, c.componentId) + 1
              && FreeSlots(r.value.stores, c.componentId) == []
    ensures r.Ok? ==> SlotOf(r.value.entity, c.componentId) == r.value.slot
    ensures r.Ok? ==> r.value.entity.(slots := e.slots) == e
    ensures r.Ok? ==> forall u :: u != c.componentId ==> SlotOf(r.value.entity, u) == SlotOf(e, u)
    ensures r.Ok? ==> OthersKept(st, r.value.stores, c.componentId) && ArraysKept(st, r.value.stores)
  {
    var t := Ordinal(c.componentId);
    if HasComponent(e, c.componentId) then Err(DuplicateComponent)
    else
      var (slot, st') :=
        if |st.freed[t]| > 0 then (Top(st.freed[t]), st.(freed := st.freed[t := Pop(st.freed[t])]))
        else (st.lastAllocated[t], st.(lastAllocated := st.lastAllocated[t := st.lastAllocated[t] + 1]));
      Ok(Allocation(st', e.(slots := e.slots[t := slot]), slot))
  }

  /** The result of Systems.RemoveComponent: the stores and the slot released. */
  datatype Release = Release(stores: Stores, slot: int)

  /** Systems.RemoveComponent: refuses an entity without the kind's has-bit;
      otherwise pushes the entity's slot of that kind on the free stack and
      returns it. It clears neither the has-bit, nor the slot table entry, nor
      the array element: the caller must do the first (or a second call would
      free the same slot twice) and is told to do the last. */
  function RemoveComponent(st: Stores, e: Entity, t: Tag): (r: Result<Release>)
    ensures r.Err? <==> !HasComponent(e, t)
    ensures r.Err? ==> r.error == MissingComponent
    ensures r.Ok? ==> r.value.slot == SlotOf(e, t)
    ensures r.Ok? ==> FreeSlots(r.value.stores, t) == Push(FreeSlots(st, t), SlotOf(e, t))
    ensures r.Ok? ==> HighWater(r.value.stores, t) == HighWater(st, t)
    ensures r.Ok? ==> OthersKept(st, r.value.stores, t) && ArraysKept(st, r.value.stores)
  {
    if !HasComponent(e, t) then Err(MissingComponent)
    else
      var k := Ordinal(t);
      Ok(Release(st.(freed := st.freed[k := Push(st.freed[k], e.slots[k])]), e.slots[k]))
  }

  /** Releasing a slot and allocating again for the same kind hands the same
      slot back (LIFO reuse), and restores the free stack. */
  lemma ReleaseThenAllocate(st: Stores, e: Entity, f: Entity, c: Header)
    requires HasComponent(e, c.componentId) && !HasComponent(f, c.componentId)
    ensures
      var rel := RemoveComponent(st, e, c.componentId).value;
      var alloc := AddComponent(rel.stores, f, c);
      && alloc.Ok?
      && alloc.value.slot == SlotOf(e, c.componentId)
      && alloc.value.stores == st
  {
    var t := c.componentId;
    var rel := RemoveComponent(st, e, t).value;
    var alloc := AddComponent(rel.stores, f, c).value;
    assert FreeSlots(alloc.stores, t) == FreeSlots(st, t);
    assert alloc.stores.freed == st.freed by {
      forall k | 0 <= k < TagCount ensures alloc.stores.freed[k] == st.freed[k] {
        OrdinalBijective(TagAt(k), t, k);
      }
    }
  }

  /** Without clearing the has-bit in between, two releases push the same slot
      twice, so two later allocations hand one slot to two owners. */
  lemma DoubleReleaseDuplicates(st: Stores, e: Entity, t: Tag)
    requires HasComponent(e, t)
    ensures
      var once := RemoveComponent(st, e, t).value.stores;
      var twice := RemoveComponent(once, e, t);
      && twice.Ok?
      && FreeSlots(twice.value.stores, t) == FreeSlots(st, t) + [SlotOf(e, t), SlotOf(e, t)]
  {
  }
}
