/** An entity: an identity with one has-bit and one slot index per component
    kind (Engine/Entity.cs, plus the componentIndex table Systems.cs uses). */
module EntityModel {
  import opened Common
  import opened ComponentTags

  /** oid is the object's identity: two values with the same oid are the same
      C# object, so a change made through one reference shows through every
      other. bits is the entity's BitArray; slots is the componentIndex table
      the systems read and write (an int[] of TagCount zeros when new). A slot
      is meaningful only while the matching bit is set. */
  datatype Entity = Entity(oid: nat, id: int, name: string, active: bool, destroyed: bool, bits: Bits, slots: IntTable)

  const NoBits: Bits := [false, false, false, false, false]
  const ZeroSlots: IntTable := [0, 0, 0, 0, 0]

  predicate HasComponent(e: Entity, t: Tag) {
    e.bits[Ordinal(t)]
  }

  function SlotOf(e: Entity, t: Tag): int {
    e.slots[Ordinal(t)]
  }

  /** e and f agree on everything except possibly the has-bits. */
  predicate SameButBits(e: Entity, f: Entity) {
    e.oid == f.oid && e.id == f.id && e.name == f.name && e.active == f.active
    && e.destroyed == f.destroyed && e.slots == f.slots
  }

  /** e and f carry the same has-bit for every tag other than t. */
  predicate SameBitsExcept(e: Entity, f: Entity, t: Tag) {
    forall u :: u != t ==> HasComponent(e, u) == HasComponent(f, u)
  }

  /** `new Entity(name)` and `new Entity()`; oid stands for the fresh
      reference `new` returns. The ID field keeps its default of zero until a
      scene assigns one. */
  function NewNamedEntity(oid: nat, name: string): (e: Entity)
    ensures e.oid == oid && e.id == 0 && e.name == name && e.active && !e.destroyed
    ensures forall t :: !HasComponent(e, t)
  {
    Entity(oid, 0, name, true, false, NoBits, ZeroSlots)
  }

  function NewEntity(oid: nat): (e: Entity)
    ensures e.oid == oid && e.id == 0 && e.name == "Entity" && e.active && !e.destroyed
    ensures forall t :: !HasComponent(e, t)
  {
    NewNamedEntity(oid, "Entity")
  }

  /** `Components.Set((int)t, b)`. HasComponent reads one bit per kind, so
      the bits of different kinds are independent: afterwards the query
      answers b for t and what it answered before for every other kind. */
  function SetBit(e: Entity, t: Tag, b: bool): (r: Entity)
    ensures forall u :: HasComponent(r, u) == (if u == t then b else HasComponent(e, u))
    ensures SameButBits(r, e)
  {
    e.(bits := e.bits[Ordinal(t) := b])
  }

  /** Entity.AddComponent(component): refuses an object whose class is the
      base Component; otherwise sets exactly the bit of its kind. */
  function AddComponent(e: Entity, c: ComponentRef): (r: Result<Entity>)
    ensures r.Err? <==> c.isBase
    ensures r.Err? ==> r.error == BaseComponent
    ensures r.Ok? ==> HasComponent(r.value, c.hdr.componentId)
    ensures r.Ok? ==> SameBitsExcept(r.value, e, c.hdr.componentId) && SameButBits(r.value, e)
  {
    if c.isBase then Err(BaseComponent) else Ok(SetBit(e, c.hdr.componentId, true))
  }

  /** Entity.RemoveComponent(componentType): clears exactly that kind's bit. */
  function RemoveComponentOfType(e: Entity, t: Tag): (r: Entity)
    ensures !HasComponent(r, t)
    ensures SameBitsExcept(r, e, t) && SameButBits(r, e)
  {
    SetBit(e, t, false)
  }

  /** Entity.RemoveComponent(component): refuses a base Component object,
      otherwise behaves as the by-type overload on the object's kind. */
  function RemoveComponent(e: Entity, c: ComponentRef): (r: Result<Entity>)
    ensures r.Err? <==> c.isBase
    ensures r.Err? ==> r.error == BaseComponent
    ensures r.Ok? ==> !HasComponent(r.value, c.hdr.componentId)
    ensures r.Ok? ==> SameBitsExcept(r.value, e, c.hdr.componentId) && SameButBits(r.value, e)
  {
    if c.isBase then Err(BaseComponent) else Ok(RemoveComponentOfType(e, c.hdr.componentId))
  }

  /** Entity.Destroy: marks the entity destroyed and touches nothing else; in
      particular no component slot is given back. */
  function Destroy(e: Entity): (r: Entity)
    ensures r.destroyed
    ensures r.oid == e.oid && r.id == e.id && r.name == e.name && r.active == e.active
    ensures forall t :: HasComponent(r, t) == HasComponent(e, t) && SlotOf(r, t) == SlotOf(e, t)
  {
    e.(destroyed := true)
  }

  lemma DestroyIdempotent(e: Entity)
    ensures Destroy(Destroy(e)) == Destroy(e)
  {
  }

  /** Adding a component and then removing the same one restores the bit set
      exactly when the entity did not carry that kind before. */
  lemma AddThenRemoveRestores(e: Entity, c: ComponentRef)
    requires !c.isBase
    ensures AddComponent(e, c).Ok?
    ensures RemoveComponent(AddComponent(e, c).value, c) == Ok(e) <==> !HasComponent(e, c.hdr.componentId)
  {
    var t := c.hdr.componentId;
    var r := RemoveComponent(AddComponent(e, c).value, c).value;
    if !HasComponent(e, t) {
      assert r.bits == e.bits by {
        forall k | 0 <= k < TagCount
          ensures r.bits[k] == e.bits[k]
        {
          OrdinalBijective(TagAt(k), t, k);
        }
      }
    } else {
      assert !HasComponent(r, t);
    }
  }
}
