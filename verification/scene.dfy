/** The entity pool (Engine/Scene.cs): a fixed array of MaxEntities slots, a
    counter for the next never-used id and a LIFO stack of freed ids. */
module ScenePool {
  import opened Common
  import opened EntityModel

  /** Scene.MAX_ENTITIES, also the length of every component array. */
  const MaxEntities := 1000

  /** A C# array of MaxEntities references, each possibly null. */
  type SlotArray<T> = s: seq<Option<T>> | |s| == MaxEntities witness seq(MaxEntities, _ => None)

  function EmptySlots<T>(): (s: SlotArray<T>)
    ensures forall i :: 0 <= i < MaxEntities ==> s[i].None?
  {
    seq(MaxEntities, _ => None)
  }

  /** A stack is a sequence whose last element is the top. */
  function Push(s: seq<int>, x: int): seq<int> { s + [x] }

  function Top(s: seq<int>): int
    requires |s| > 0
  {
    s[|s| - 1]
  }

  function Pop(s: seq<int>): seq<int>
    requires |s| > 0
  {
    s[..|s| - 1]
  }

  lemma PopPush(s: seq<int>, x: int)
    ensures Top(Push(s, x)) == x && Pop(Push(s, x)) == s
  {
  }

  datatype Scene = Scene(name: string, entities: SlotArray<Entity>, freed: seq<int>, nextFreeId: int)

  /** `new Scene()` and `new Scene(name)`. */
  function NewNamedScene(name: string): (s: Scene)
    ensures s.name == name && s.nextFreeId == 0 && s.freed == []
    ensures forall i :: 0 <= i < MaxEntities ==> s.entities[i].None?
    ensures Valid(s)
  {
    Scene(name, EmptySlots(), [], 0)
  }

  function NewScene(): (s: Scene)
    ensures s.name == "Default Scene" && s.nextFreeId == 0 && s.freed == []
    ensures forall i :: 0 <= i < MaxEntities ==> s.entities[i].None?
    ensures Valid(s)
  {
    NewNamedScene("Default Scene")
  }

  predicate Occupied(s: Scene, i: int) {
    0 <= i < MaxEntities && s.entities[i].Some?
  }

  /** The pool's bookkeeping: every stored entity sits at the index equal to
      its id, and no object is stored twice; every id handed out so far (below min(nextFreeId, MaxEntities))
      is occupied or on the free stack, never both and never twice; nothing
      at or above nextFreeId has been handed out. */
  ghost predicate Valid(s: Scene) {
    && s.nextFreeId >= 0
    && (forall i :: Occupied(s, i) ==> s.entities[i].value.id == i && i < s.nextFreeId)
    && (forall i, j :: Occupied(s, i) && Occupied(s, j) && i != j ==> s.entities[i].value.oid != s.entities[j].value.oid)
    && (forall k :: 0 <= k < |s.freed| ==>
          0 <= s.freed[k] < s.nextFreeId && s.freed[k] < MaxEntities && !Occupied(s, s.freed[k]))
    && (forall j, k :: 0 <= j < k < |s.freed| ==> s.freed[j] != s.freed[k])
    && (forall i :: 0 <= i < s.nextFreeId && i < MaxEntities ==> Occupied(s, i) || i in s.freed)
  }

  /** What AddEntity leaves behind: the scene, the caller's entity object
      (whose ID it overwrote, even when it then throws) and how it ended. */
  datatype Added = Added(scene: Scene, entity: Option<Entity>, status: Outcome)

  /** The id AddEntity draws: the top of the free stack if any, otherwise
      nextFreeId, which is then advanced. */
  function DrawId(s: Scene): (r: (int, Scene))
  {
    if |s.freed| > 0 then (Top(s.freed), s.(freed := Pop(s.freed)))
    else (s.nextFreeId, s.(nextFreeId := s.nextFreeId + 1))
  }

  /** Some slot of the scene refers to the object e. */
  predicate InScene(s: Scene, e: Entity) {
    exists i :: 0 <= i < MaxEntities && Occupied(s, i) && s.entities[i].value.oid == e.oid
  }

  /** A slot after the object e has been given a new ID: if it refers to that
      object it shows the change. */
  function Relabel(slot: Option<Entity>, e: Entity): Option<Entity> {
    if slot.Some? && slot.value.oid == e.oid then Some(e) else slot
  }

  function RelabelAll(a: SlotArray<Entity>, e: Entity): (r: SlotArray<Entity>)
    ensures forall i :: 0 <= i < MaxEntities ==> r[i] == Relabel(a[i], e)
  {
    seq(MaxEntities, i requires 0 <= i < MaxEntities => Relabel(a[i], e))
  }

  /** Scene.AddEntity. It writes the drawn id into the object it is given
      without asking whether the scene already stores that object, so a slot
      that already refers to it shows the new ID too. */
  function AddEntity(s: Scene, e: Option<Entity>): (r: Added)
    ensures e.None? ==> r == Added(s, None, Fail(NullArgument))
    ensures e.Some? ==> r.entity.Some? && r.entity.value == e.value.(id := r.entity.value.id)
    ensures e.Some? && |s.freed| > 0 ==>
              r.entity.value.id == Top(s.freed) && r.scene.freed == Pop(s.freed)
              && r.scene.nextFreeId == s.nextFreeId
    ensures e.Some? && |s.freed| == 0 ==>
              r.entity.value.id == s.nextFreeId && r.scene.freed == s.freed
              && r.scene.nextFreeId == s.nextFreeId + 1
    ensures r.status.Pass? <==> e.Some? && 0 <= r.entity.value.id < MaxEntities
    ensures r.status.Pass? ==> r.scene.entities[r.entity.value.id] == r.entity
    ensures e.Some? ==> forall i :: 0 <= i < MaxEntities && !(r.status.Pass? && i == r.entity.value.id) ==>
              r.scene.entities[i] == (if Occupied(s, i) && s.entities[i].value.oid == e.value.oid then r.entity else s.entities[i])
    ensures e.Some? && r.entity.value.id >= MaxEntities ==> r.status == Fail(CapacityExceeded)
    ensures r.scene.name == s.name
  {
    if e.None? then Added(s, None, Fail(NullArgument))
    else
      var (id, s1) := DrawId(s);
      var placed := e.value.(id := id);
      var shown := RelabelAll(s.entities, placed);
      if id >= MaxEntities then Added(s1.(entities := shown), Some(placed), Fail(CapacityExceeded))
      else if id < 0 then Added(s1.(entities := shown), Some(placed), Fail(IndexOutOfRange))
      else Added(s1.(entities := shown[id := Some(placed)]), Some(placed), Pass)
  }

  /** Scene.AddEntity as its comment describes it: an entity object the scene
      already stores is refused before any id is drawn; anything else is
      added as above. */
  function AddEntityChecked(s: Scene, e: Option<Entity>): (r: Added)
    ensures e.Some? && InScene(s, e.value) ==> r == Added(s, e, Fail(AlreadyInScene))
    ensures e.None? || !InScene(s, e.value) ==> r == AddEntity(s, e)
  {
    if e.Some? && InScene(s, e.value) then Added(s, e, Fail(AlreadyInScene)) else AddEntity(s, e)
  }

  /** What RemoveEntity leaves behind: the scene and the caller's entity object,
      now marked destroyed. */
  datatype Removed = Removed(scene: Scene, entity: Entity)

  /** Scene.RemoveEntity: the entity's id must name an occupied slot; the slot
      is cleared, the id pushed on the free stack and the entity destroyed.
      The occupant is not compared with the argument, only its id is used. */
  function RemoveEntity(s: Scene, e: Option<Entity>): (r: Result<Removed>)
    ensures e.None? ==> r == Err(NullArgument)
    ensures e.Some? && e.value.id >= MaxEntities ==> r == Err(NotInScene)
    ensures e.Some? && 0 <= e.value.id < MaxEntities && !Occupied(s, e.value.id) ==> r == Err(NotInScene)
    ensures r.Ok? <==> e.Some? && Occupied(s, e.value.id)
    ensures r.Ok? ==>
              && r.value.scene.entities[e.value.id].None?
              && (forall i :: 0 <= i < MaxEntities && i != e.value.id ==> r.value.scene.entities[i] == s.entities[i])
              && r.value.scene.freed == Push(s.freed, e.value.id)
              && r.value.scene.nextFreeId == s.nextFreeId
              && r.value.entity == Destroy(e.value)
  {
    if e.None? then Err(NullArgument)
    else if e.value.id >= MaxEntities then Err(NotInScene)
    else if e.value.id < 0 then Err(IndexOutOfRange)
    else if s.entities[e.value.id].None? then Err(NotInScene)
    else
      var id := e.value.id;
      Ok(Removed(s.(entities := s.entities[id := None], freed := Push(s.freed, id)), Destroy(e.value)))
  }

  /** Scene.GetEntityWithID: the occupant of an in-range, occupied id. */
  function GetEntityWithId(s: Scene, id: int): (r: Result<Entity>)
    ensures r.Ok? <==> Occupied(s, id)
    ensures r.Ok? ==> s.entities[id] == Some(r.value)
    ensures Valid(s) && r.Ok? ==> r.value.id == id
    ensures id >= MaxEntities ==> r == Err(NoSuchEntity)
  {
    if id >= MaxEntities then Err(NoSuchEntity)
    else if id < 0 then Err(IndexOutOfRange)
    else if s.entities[id].None? then Err(NoSuchEntity)
    else Ok(s.entities[id].value)
  }

  predicate NamedAt(s: Scene, i: int, name: string) {
    Occupied(s, i) && s.entities[i].value.name == name
  }

  /** Scene.GetEntityWithName: the first occupied slot, in index order, whose
      entity carries the name. */
  method GetEntityWithName(s: Scene, name: string) returns (r: Result<Entity>)
    ensures name == [] ==> r == Err(EmptyName)
    ensures r.Ok? <==> name != [] && exists i :: NamedAt(s, i, name)
    ensures r.Ok? ==> exists i :: NamedAt(s, i, name) && s.entities[i] == Some(r.value)
                                  && forall j :: 0 <= j < i ==> !NamedAt(s, j, name)
    ensures r.Err? && name != [] ==> r.error == NoSuchEntity
  {
    if name == [] {
      return Err(EmptyName);
    }
    var i := 0;
    while i < MaxEntities
      invariant 0 <= i <= MaxEntities
      invariant forall j :: 0 <= j < i ==> !NamedAt(s, j, name)
    {
      if s.entities[i].Some? && s.entities[i].value.name == name {
        assert NamedAt(s, i, name);
        return Ok(s.entities[i].value);
      }
      i := i + 1;
    }
    return Err(NoSuchEntity);
  }

  /** AddEntity keeps the pool's bookkeeping exactly when the object it is
      given is not one the scene already stores. */
  lemma AddEntityKeepsValid(s: Scene, e: Option<Entity>)
    requires Valid(s)
    ensures Valid(AddEntity(s, e).scene) <==> e.None? || !InScene(s, e.value)
  {
    if e.Some? && InScene(s, e.value) {
      ReAddBreaksValid(s, e.value);
    } else if e.Some? {
      RelabelAbsent(s, e.value.(id := DrawId(s).0));
      if |s.freed| > 0 {
        AddFromFreedKeepsValid(s, e.value);
      } else {
        AddFreshKeepsValid(s, e.value);
      }
    }
  }

  /** Giving a new ID to an object no slot refers to changes no slot. */
  lemma RelabelAbsent(s: Scene, e: Entity)
    requires !InScene(s, e)
    ensures RelabelAll(s.entities, e) == s.entities
  {
    forall i | 0 <= i < MaxEntities ensures Relabel(s.entities[i], e) == s.entities[i] {
      if Occupied(s, i) {
        assert s.entities[i].value.oid != e.oid;
      }
    }
  }

  /** Adding a new object with an id taken from the free stack. */
  lemma AddFromFreedKeepsValid(s: Scene, e: Entity)
    requires Valid(s) && !InScene(s, e) && |s.freed| > 0
    requires RelabelAll(s.entities, e.(id := Top(s.freed))) == s.entities
    ensures Valid(AddEntity(s, Some(e)).scene)
  {
    var r := AddEntity(s, Some(e));
    var id := Top(s.freed);
    var rest := Pop(s.freed);
    assert s.freed == rest + [id];
    assert r.scene == s.(entities := s.entities[id := Some(e.(id := id))], freed := rest);
    forall k | 0 <= k < |rest| ensures rest[k] != id {
      assert rest[k] == s.freed[k];
    }
    forall i | 0 <= i < r.scene.nextFreeId && i < MaxEntities
      ensures Occupied(r.scene, i) || i in r.scene.freed
    {
      if i != id && !Occupied(s, i) {
        assert i in s.freed;
        var k :| 0 <= k < |s.freed| && s.freed[k] == i;
        assert k < |rest|;
      }
    }
  }

  /** Adding a new object with a never-used id. */
  lemma AddFreshKeepsValid(s: Scene, e: Entity)
    requires Valid(s) && !InScene(s, e) && |s.freed| == 0
    requires RelabelAll(s.entities, e.(id := s.nextFreeId)) == s.entities
    ensures Valid(AddEntity(s, Some(e)).scene)
  {
    var r := AddEntity(s, Some(e));
    if s.nextFreeId < MaxEntities {
      assert r.scene == s.(entities := s.entities[s.nextFreeId := Some(e.(id := s.nextFreeId))], nextFreeId := s.nextFreeId + 1);
    } else {
      assert r.scene == s.(nextFreeId := s.nextFreeId + 1);
    }
  }

  /** Re-adding an object the scene already stores (as in
      `scene.AddEntity(scene.Entities[i])`) leaves its old slot referring to
      it under the newly drawn id, which differs from the slot's index, so
      the bookkeeping is broken whether or not the add itself succeeds. */
  lemma ReAddBreaksValid(s: Scene, e: Entity)
    requires Valid(s) && InScene(s, e)
    ensures var r := AddEntity(s, Some(e));
            forall i :: 0 <= i < MaxEntities && Occupied(s, i) && s.entities[i].value.oid == e.oid ==>
              r.scene.entities[i] == r.entity && r.entity.value.id != i
    ensures !Valid(AddEntity(s, Some(e)).scene)
  {
    var r := AddEntity(s, Some(e));
    var id := r.entity.value.id;
    forall i | 0 <= i < MaxEntities && Occupied(s, i) && s.entities[i].value.oid == e.oid
      ensures r.scene.entities[i] == r.entity && id != i
    {
      if |s.freed| > 0 {
        assert s.freed[|s.freed| - 1] == id;
      }
    }
    var i :| 0 <= i < MaxEntities && Occupied(s, i) && s.entities[i].value.oid == e.oid;
    assert Occupied(r.scene, i) && r.scene.entities[i].value.id != i;
  }

  /** The checked add keeps the pool's bookkeeping for every argument. */
  lemma AddEntityCheckedKeepsValid(s: Scene, e: Option<Entity>)
    requires Valid(s)
    ensures Valid(AddEntityChecked(s, e).scene)
    ensures e.Some? && InScene(s, e.value) ==> AddEntityChecked(s, e).status == Fail(AlreadyInScene)
  {
    if e.None? || !InScene(s, e.value) {
      AddEntityKeepsValid(s, e);
    }
  }

  lemma RemoveEntityKeepsValid(s: Scene, e: Option<Entity>)
    requires Valid(s)
    requires RemoveEntity(s, e).Ok?
    ensures Valid(RemoveEntity(s, e).value.scene)
  {
    var s' := RemoveEntity(s, e).value.scene;
    var id := e.value.id;
    assert s'.freed == s.freed + [id];
    forall j, k | 0 <= j < k < |s'.freed| ensures s'.freed[j] != s'.freed[k] {
      if k == |s.freed| {
        assert s'.freed[j] == s.freed[j];
      }
    }
  }

  /** Ids are reused most-recently-freed first: removing a then b and adding
      two entities hands out b's id, then a's. */
  lemma LifoReuse(s: Scene, a: Entity, b: Entity, x: Entity, y: Entity)
    requires Valid(s)
    requires RemoveEntity(s, Some(a)).Ok?
    requires RemoveEntity(RemoveEntity(s, Some(a)).value.scene, Some(b)).Ok?
    ensures
      var s2 := RemoveEntity(RemoveEntity(s, Some(a)).value.scene, Some(b)).value.scene;
      var r1 := AddEntity(s2, Some(x));
      var r2 := AddEntity(r1.scene, Some(y));
      && r1.status.Pass? && r1.entity.value.id == b.id
      && r2.status.Pass? && r2.entity.value.id == a.id
  {
    var s1 := RemoveEntity(s, Some(a)).value.scene;
    var s2 := RemoveEntity(s1, Some(b)).value.scene;
    assert s2.freed == s.freed + [a.id] + [b.id];
    var r1 := AddEntity(s2, Some(x));
    assert r1.scene.freed == s.freed + [a.id];
  }

  /** Once every id has been handed out and none is free, AddEntity fails
      with CapacityExceeded, although the counter has moved on; for an object
      the scene does not store, the array is left as it was. */
  lemma AddWhenFull(s: Scene, e: Entity)
    requires s.freed == [] && s.nextFreeId >= MaxEntities
    ensures AddEntity(s, Some(e)).status == Fail(CapacityExceeded)
    ensures AddEntity(s, Some(e)).scene.nextFreeId == s.nextFreeId + 1 && AddEntity(s, Some(e)).scene.freed == []
    ensures !InScene(s, e) ==> AddEntity(s, Some(e)).scene == s.(nextFreeId := s.nextFreeId + 1)
  {
    var r := AddEntity(s, Some(e));
    if !InScene(s, e) {
      assert r.scene.entities == s.entities;
    }
  }
}
