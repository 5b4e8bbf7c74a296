/** The per-tick system passes of Engine/Systems.cs and Scene.Update: each walks
    its store from slot 0 up to the kind's high-water mark, skips null slots,
    looks the owner up by id (which throws for a missing owner) and acts only
    when the owner is active and the component enabled. */
module Passes {
  import opened Common
  import opened ComponentTags
  import opened EntityModel
  import opened ScenePool
  import opened MovementModel
  import opened SpriteModel
  import opened AnimationModel
  import opened SystemStores
  import opened WorldModel

  /** The entity the component at this slot names as its owner, when there is one. */
  predicate OwnerPresent(s: Scene, h: Header) {
    Occupied(s, h.entityId)
  }

  function Owner(s: Scene, h: Header): Entity
    requires OwnerPresent(s, h)
  {
    s.entities[h.entityId].value
  }

  /** How far a pass over [i, hw) still has to go. */
  function Remaining(i: nat, hw: int): nat {
    if hw > i then hw - i else 0
  }

  // ---------------------------------------------------------------- Movement

  /** Slot j of the Movement store makes the pass throw: it lies past the
      array end, or holds a record whose owner cannot be looked up. */
  predicate MoveBroken(s: Scene, ms: SlotArray<Movement>, j: int) {
    j >= MaxEntities || (0 <= j && ms[j].Some? && !OwnerPresent(s, ms[j].value.hdr))
  }

  /** Slot j holds a record the pass integrates. */
  predicate MoveProcessed(s: Scene, ms: SlotArray<Movement>, j: int) {
    && 0 <= j < MaxEntities && ms[j].Some? && OwnerPresent(s, ms[j].value.hdr)
    && Owner(s, ms[j].value.hdr).active && ms[j].value.hdr.enabled
  }

  /** No slot in [i, j) makes the Movement pass throw. */
  predicate MoveClearBefore(s: Scene, ms: SlotArray<Movement>, i: int, j: int) {
    forall k :: i <= k < j ==> !MoveBroken(s, ms, k)
  }

  /** The Movement system from slot i up to hw. A throw ends the loop; the
      records integrated before it stay integrated. */
  function MoveFrom(s: Scene, ms: SlotArray<Movement>, i: nat, hw: int): (r: Run<SlotArray<Movement>>)
    ensures r.status.Fail? <==> exists j :: i <= j < hw && MoveBroken(s, ms, j)
    ensures forall j :: 0 <= j < MaxEntities ==>
              r.value[j] == (if i <= j < hw && MoveProcessed(s, ms, j) && MoveClearBefore(s, ms, i, j)
                             then Some(Integrate(ms[j].value)) else ms[j])
    decreases Remaining(i, hw)
  {
    if i >= hw then Run(ms, Pass)
    else if i >= MaxEntities then assert MoveBroken(s, ms, i); Run(ms, Fail(IndexOutOfRange))
    else match ms[i]
      case None => MoveClearStep(s, ms, i); MoveFrom(s, ms, i + 1, hw)
      case Some(m) =>
        match GetEntityWithId(s, m.hdr.entityId)
        case Err(err) => assert MoveBroken(s, ms, i); Run(ms, Fail(err))
        case Ok(owner) =>
          MoveClearStep(s, ms, i);
          if owner.active && m.hdr.enabled then
            MoveRestAgrees(s, ms, ms[i := Some(Integrate(m))], i);
            MoveFrom(s, ms[i := Some(Integrate(m))], i + 1, hw)
          else MoveFrom(s, ms, i + 1, hw)
  }

  /** Past a slot that does not throw, being clear from it is being clear
      from the next one. */
  lemma MoveClearStep(s: Scene, ms: SlotArray<Movement>, i: nat)
    requires !MoveBroken(s, ms, i)
    ensures forall j :: MoveClearBefore(s, ms, i, j) <==> MoveClearBefore(s, ms, i + 1, j)
  {
  }

  /** Integrating the record at slot i leaves the judgement of every later
      slot as it was. */
  lemma MoveRestAgrees(s: Scene, ms: SlotArray<Movement>, ms': SlotArray<Movement>, i: nat)
    requires forall j :: i < j < MaxEntities ==> ms'[j] == ms[j]
    ensures forall j :: j > i ==> (MoveBroken(s, ms', j) <==> MoveBroken(s, ms, j))
    ensures forall j :: j > i ==> (MoveProcessed(s, ms', j) <==> MoveProcessed(s, ms, j))
    ensures forall lo, j :: lo > i ==> (MoveClearBefore(s, ms', lo, j) <==> MoveClearBefore(s, ms, lo, j))
  {
  }

  /** The exception a broken Movement slot raises: reading past the array,
      or GetEntityWithID's own failure for an owner it cannot find. */
  function MoveError(s: Scene, ms: SlotArray<Movement>, j: int): Error
    requires MoveBroken(s, ms, j)
  {
    if j >= MaxEntities then IndexOutOfRange else GetEntityWithId(s, ms[j].value.hdr.entityId).error
  }

  /** A Movement loop that throws raises the exception of its first broken slot. */
  lemma {:induction false} MoveFromError(s: Scene, ms: SlotArray<Movement>, i: nat, hw: int)
    ensures var r := MoveFrom(s, ms, i, hw);
            r.status.Fail? ==>
              exists j :: i <= j < hw && MoveBroken(s, ms, j) && MoveClearBefore(s, ms, i, j) && r.status.error == MoveError(s, ms, j)
    decreases Remaining(i, hw)
  {
    if i < hw && !MoveBroken(s, ms, i) {
      MoveClearStep(s, ms, i);
      var ms' := if MoveProcessed(s, ms, i) then ms[i := Some(Integrate(ms[i].value))] else ms;
      MoveRestAgrees(s, ms, ms', i);
      assert MoveFrom(s, ms, i, hw) == MoveFrom(s, ms', i + 1, hw);
      MoveFromError(s, ms', i + 1, hw);
      if MoveFrom(s, ms, i, hw).status.Fail? {
        var j :| i + 1 <= j < hw && MoveBroken(s, ms', j) && MoveClearBefore(s, ms', i + 1, j)
                 && MoveFrom(s, ms', i + 1, hw).status.error == MoveError(s, ms', j);
        assert j >= MaxEntities || ms'[j] == ms[j];
      }
    }
  }

  /** Systems.Movement: the store after the loop, and whether it threw. */
  function MovementPass(w: World): (r: Run<World>)
    ensures r.value.scene == w.scene && r.value.stores == w.stores.(movements := r.value.stores.movements)
    ensures r.status.Fail? <==> exists j :: 0 <= j < HighWater(w.stores, Tag.Movement) && MoveBroken(w.scene, w.stores.movements, j)
  {
    var m := MoveFrom(w.scene, w.stores.movements, 0, HighWater(w.stores, Tag.Movement));
    Run(w.(stores := w.stores.(movements := m.value)), m.status)
  }

  /** Every record the pass reaches, before any throw, with an active owner
      and its enable flag set is moved by its pending displacement, which is
      then cleared; every other slot is left as it was. The pass throws
      exactly when a reached record's owner is missing or the high-water mark
      runs past the array. */
  lemma MovementPassMeaning(w: World)
    ensures
      var hw := HighWater(w.stores, Tag.Movement);
      var ms := w.stores.movements;
      var r := MovementPass(w);
      && (r.status.Fail? <==> exists j :: 0 <= j < hw && MoveBroken(w.scene, ms, j))
      && (forall j :: 0 <= j < MaxEntities ==>
            if j < hw && MoveProcessed(w.scene, ms, j) && MoveClearBefore(w.scene, ms, 0, j) then
              && r.value.stores.movements[j].Some?
              && Still(r.value.stores.movements[j].value)
              && r.value.stores.movements[j].value.x == ms[j].value.x + ms[j].value.dx
              && r.value.stores.movements[j].value.y == ms[j].value.y + ms[j].value.dy
            else r.value.stores.movements[j] == ms[j])
  {
    var hw := HighWater(w.stores, Tag.Movement);
    var r := MoveFrom(w.scene, w.stores.movements, 0, hw);
    forall j | 0 <= j < MaxEntities && j < hw && MoveProcessed(w.scene, w.stores.movements, j)
      ensures Still(Integrate(w.stores.movements[j].value))
    {
      IntegrateMeaning(w.stores.movements[j].value);
    }
  }

  /** A Movement record left behind by a removed entity (Scene.RemoveEntity
      gives no component back) makes every Movement pass throw once the loop
      reaches it: its owner can no longer be looked up. */
  lemma OrphanBreaksMovement(w: World, e: Entity, slot: int)
    requires RemoveEntity(w.scene, Some(e)).Ok?
    requires 0 <= slot < HighWater(w.stores, Tag.Movement) && slot < MaxEntities
    requires w.stores.movements[slot].Some? && w.stores.movements[slot].value.hdr.entityId == e.id
    ensures MovementPass(w.(scene := RemoveEntity(w.scene, Some(e)).value.scene)).status.Fail?
  {
    var s' := RemoveEntity(w.scene, Some(e)).value.scene;
    assert MoveBroken(s', w.stores.movements, slot);
  }

  // --------------------------------------------------------------- Animation

  /** The animation's last step has been shown: the last frame going forward,
      the first going backward. */
  predicate Finished(an: Animation) {
    if an.reversed then an.currentFrame <= 0 else an.currentFrame + 1 >= |an.frames|
  }

  /** The accumulator after dt seconds at the animation's speed. */
  function Elapsed(an: Animation, dt: real): real {
    an.accumulator + dt * an.speed
  }

  /** The next frame in playing direction. */
  function NextFrame(an: Animation): int {
    if an.reversed then an.currentFrame - 1 else an.currentFrame + 1
  }

  /** The animations of r other than the one under key k are those of a. */
  predicate OthersUnchanged(a: Animator, r: Animator, k: string) {
    forall k' :: k' in a.animations && k' != k ==> k' in r.animations && r.animations[k'] == a.animations[k']
  }

  /** One tick of the Animation system for an animator with a current
      animation. The threshold is compared BEFORE this tick's time is added.
      Below it, the tick's time (dt times the speed) is added and nothing else
      happens. At or above it, an unfinished animation clears its accumulator
      and steps one frame in its direction; a finished one that does not loop
      stops being current where it stands; a finished looping one restarts,
      from its starting frame, the animation registered under its Name. */
  function Advance(a: Animator, dt: real): (r: Animator)
    requires HasCurrent(a)
    ensures r.hdr == a.hdr && r.animations.Keys == a.animations.Keys
    ensures Current(a).accumulator < Current(a).frameDelay ==>
              && r.current == a.current
              && Current(r).accumulator == Current(a).accumulator + dt * Current(a).speed
              && Current(r).(accumulator := Current(a).accumulator) == Current(a)
              && OthersUnchanged(a, r, a.current.value)
    ensures Current(a).accumulator >= Current(a).frameDelay && !Finished(Current(a)) ==>
              && r.current == a.current
              && Current(r).currentFrame == Current(a).currentFrame + (if Current(a).reversed then -1 else 1)
              && Current(r).accumulator == 0.0
              && Current(r).(currentFrame := Current(a).currentFrame, accumulator := Current(a).accumulator) == Current(a)
              && OthersUnchanged(a, r, a.current.value)
    ensures Current(a).accumulator >= Current(a).frameDelay && Finished(Current(a)) && !Current(a).loop ==>
              r.current.None? && r.animations == a.animations && !IsSomethingPlaying(r)
    ensures Current(a).accumulator >= Current(a).frameDelay && Finished(Current(a)) && Current(a).loop ==>
              if Current(a).name in a.animations then
                && r.current == Some(Current(a).name) && IsSomethingPlaying(r)
                && Current(r).currentFrame == StartFrame(a.animations[Current(a).name])
                && Current(r).accumulator == 0.0
                && OthersUnchanged(a, r, Current(a).name)
              else r == a
  {
    var k := a.current.value;
    var an := Current(a);
    if an.accumulator >= an.frameDelay then
      if Finished(an) then
        if an.loop then Play(a, an.name) else a.(current := None)
      else a.(animations := a.animations[k := an.(accumulator := 0.0, currentFrame := NextFrame(an))])
    else a.(animations := a.animations[k := an.(accumulator := Elapsed(an, dt))])
  }

  /** A tick keeps every animation showable, moves the current frame by at
      most one step unless a looping animation restarted, and ends playback
      only when a non-looping animation has finished. */
  lemma AdvanceKeepsFrames(a: Animator, dt: real)
    requires HasCurrent(a) && AnimatorOk(a)
    ensures AnimatorOk(Advance(a, dt))
    ensures var r := Advance(a, dt);
            r.current == a.current ==>
              -1 <= Current(r).currentFrame - Current(a).currentFrame <= 1
              || Current(r).currentFrame == StartFrame(Current(a))
    ensures IsSomethingPlaying(a) && !IsSomethingPlaying(Advance(a, dt)) ==>
              && Current(a).accumulator >= Current(a).frameDelay && Finished(Current(a))
              && (!Current(a).loop || Current(a).name !in a.animations || !IsSomethingPlaying(Play(a, Current(a).name)))
  {
    var k := a.current.value;
    var an := a.animations[k];
    var r := Advance(a, dt);
    if an.accumulator >= an.frameDelay && Finished(an) && an.loop {
      ControlsKeepAnimatorOk(a, an.name);
    }
  }

  /** When one tick's worth of time (dt times the speed) equals the frame
      delay, a frame reached with a cleared accumulator is shown for two
      ticks, not one: the first tick only fills the accumulator, because the
      threshold is compared before the tick's time is added, and the second
      steps the frame. */
  lemma TwoTicksPerFrame(a: Animator, dt: real)
    requires HasCurrent(a) && !Finished(Current(a))
    requires Current(a).accumulator == 0.0 && Current(a).frameDelay > 0.0
    requires dt * Current(a).speed == Current(a).frameDelay
    ensures var a1 := Advance(a, dt);
            && a1.current == a.current && HasCurrent(a1)
            && Current(a1) == Current(a).(accumulator := Current(a).frameDelay)
    ensures var a2 := Advance(Advance(a, dt), dt);
            && a2.current == a.current && HasCurrent(a2)
            && Current(a2) == Current(a).(currentFrame := NextFrame(Current(a)))
            && a2.animations.Keys == a.animations.Keys
  {
    var a1 := Advance(a, dt);
    assert Current(a1) == Current(a).(accumulator := Current(a).frameDelay);
  }

  /** n ticks of the Animation system for one animator whose owner stays
      active and which stays enabled: the pass leaves an animator alone once
      nothing is playing. */
  function Ticks(a: Animator, dt: real, n: nat): Animator
    decreases n
  {
    if n == 0 || !IsSomethingPlaying(a) then a else Ticks(Advance(a, dt), dt, n - 1)
  }

  /** Over any number of ticks every animation stays showable. */
  lemma {:induction false} TicksKeepFrames(a: Animator, dt: real, n: nat)
    requires AnimatorOk(a)
    ensures AnimatorOk(Ticks(a, dt, n))
    decreases n
  {
    if n > 0 && IsSomethingPlaying(a) {
      AdvanceKeepsFrames(a, dt);
      TicksKeepFrames(Advance(a, dt), dt, n - 1);
    }
  }

  /** When one tick's worth of time equals the frame delay, an animation
      playing from a cleared accumulator is k frames further on after 2k
      ticks, in its direction, as long as it does not reach its last step. */
  lemma {:induction false} FrameAfterTicks(a: Animator, dt: real, k: nat)
    requires IsSomethingPlaying(a)
    requires Current(a).accumulator == 0.0 && Current(a).frameDelay > 0.0
    requires dt * Current(a).speed == Current(a).frameDelay
    requires if Current(a).reversed then k <= Current(a).currentFrame else Current(a).currentFrame + k < |Current(a).frames|
    ensures var r := Ticks(a, dt, 2 * k);
            && r.current == a.current && HasCurrent(r)
            && r.animations.Keys == a.animations.Keys
            && Current(r) == Current(a).(currentFrame := if Current(a).reversed then Current(a).currentFrame - k
                                                         else Current(a).currentFrame + k)
    decreases k
  {
    if k > 0 {
      TwoTicksPerFrame(a, dt);
      var a1 := Advance(a, dt);
      var a2 := Advance(a1, dt);
      assert Ticks(a, dt, 2 * k) == Ticks(a1, dt, 2 * k - 1);
      assert Ticks(a1, dt, 2 * k - 1) == Ticks(a2, dt, 2 * (k - 1));
      FrameAfterTicks(a2, dt, k - 1);
    }
  }

  /** Slot j of the Animator store makes the pass throw: past the array end,
      an owner that cannot be looked up, or (for an animator the pass acts
      on) no sprite record at the owner's id or a current frame outside the
      frame sequence. */
  predicate AnimBroken(s: Scene, sprites: SlotArray<Sprite>, anims: SlotArray<Animator>, j: int) {
    j >= MaxEntities
    || (0 <= j && anims[j].Some? && !OwnerPresent(s, anims[j].value.hdr))
    || (AnimProcessed(s, anims, j)
        && (!(0 <= Owner(s, anims[j].value.hdr).id < MaxEntities)
            || sprites[Owner(s, anims[j].value.hdr).id].None?
            || !FrameInRange(Current(anims[j].value))))
  }

  /** Slot j holds an animator the pass acts on: its owner is active, it is
      enabled and something is playing. */
  predicate AnimProcessed(s: Scene, anims: SlotArray<Animator>, j: int) {
    && 0 <= j < MaxEntities && anims[j].Some? && OwnerPresent(s, anims[j].value.hdr)
    && Owner(s, anims[j].value.hdr).active && anims[j].value.hdr.enabled
    && IsSomethingPlaying(anims[j].value)
  }

  /** Slot j holds an animator the pass acts on without throwing. */
  predicate Shows(s: Scene, sprites: SlotArray<Sprite>, anims: SlotArray<Animator>, j: int) {
    AnimProcessed(s, anims, j) && !AnimBroken(s, sprites, anims, j)
  }

  /** The frame the animator at slot j shows this tick. */
  function ShownFrame(anims: SlotArray<Animator>, j: int): Rect
    requires 0 <= j < MaxEntities && anims[j].Some? && HasCurrent(anims[j].value)
    requires FrameInRange(Current(anims[j].value))
  {
    Current(anims[j].value).frames[Current(anims[j].value).currentFrame]
  }

  /** The two stores the Animation system writes. */
  datatype Animated = Animated(sprites: SlotArray<Sprite>, animators: SlotArray<Animator>)

  /** r differs from the sprite array only in source rectangles. */
  predicate OnlySourcesChanged(sprites: SlotArray<Sprite>, r: SlotArray<Sprite>) {
    forall k :: 0 <= k < MaxEntities ==>
      (r[k].Some? <==> sprites[k].Some?) && (r[k].Some? ==> r[k].value.hdr == sprites[k].value.hdr)
  }

  /** What an animator the pass acts on does to the sprite array: the
      sprite record at its owner's id takes the current frame as its source. */
  function ShowFrame(sprites: SlotArray<Sprite>, id: int, a: Animator): SlotArray<Sprite>
    requires 0 <= id < MaxEntities && sprites[id].Some? && HasCurrent(a) && FrameInRange(Current(a))
  {
    sprites[id := Some(sprites[id].value.(source := Current(a).frames[Current(a).currentFrame]))]
  }

  /** No slot in [i, j) makes the Animation pass throw. */
  predicate AnimClearBefore(s: Scene, sprites: SlotArray<Sprite>, anims: SlotArray<Animator>, i: int, j: int) {
    forall k :: i <= k < j ==> !AnimBroken(s, sprites, anims, k)
  }

  /** The Animation system from slot i up to hw. Each animator it acts on
      first copies its current frame into the sprite record at its owner's
      id, then advances one tick. A throw ends the loop with the writes made
      so far; the frame is read before the sprite record is written, so a bad
      frame index is reported before a missing sprite record. */
  function AnimateFrom(s: Scene, sprites: SlotArray<Sprite>, anims: SlotArray<Animator>, i: nat, hw: int, dt: real): (r: Run<Animated>)
    ensures r.status.Fail? <==> exists j :: i <= j < hw && AnimBroken(s, sprites, anims, j)
    decreases Remaining(i, hw)
  {
    if i >= hw then Run(Animated(sprites, anims), Pass)
    else if i >= MaxEntities then assert AnimBroken(s, sprites, anims, i); Run(Animated(sprites, anims), Fail(IndexOutOfRange))
    else match anims[i]
      case None => AnimateFrom(s, sprites, anims, i + 1, hw, dt)
      case Some(a) =>
        match GetEntityWithId(s, a.hdr.entityId)
        case Err(err) => assert AnimBroken(s, sprites, anims, i); Run(Animated(sprites, anims), Fail(err))
        case Ok(owner) =>
          if !(owner.active && a.hdr.enabled && IsSomethingPlaying(a)) then AnimateFrom(s, sprites, anims, i + 1, hw, dt)
          else if !(0 <= owner.id < MaxEntities) then
            assert AnimBroken(s, sprites, anims, i); Run(Animated(sprites, anims), Fail(IndexOutOfRange))
          else if !FrameInRange(Current(a)) then
            assert AnimBroken(s, sprites, anims, i); Run(Animated(sprites, anims), Fail(IndexOutOfRange))
          else if sprites[owner.id].None? then
            assert AnimBroken(s, sprites, anims, i); Run(Animated(sprites, anims), Fail(NullReference))
          else
            var sprites' := ShowFrame(sprites, owner.id, a);
            var anims' := anims[i := Some(Advance(a, dt))];
            AnimatedRestAgrees(s, sprites, sprites', anims, anims', i);
            AnimateFrom(s, sprites', anims', i + 1, hw, dt)
  }

  /** The exception a broken Animator slot raises, in the order the loop body
      meets them: reading past the array, GetEntityWithID's failure, an owner
      id past the sprite array, a frame index outside the frames, and last a
      null sprite record. */
  function AnimError(s: Scene, sprites: SlotArray<Sprite>, anims: SlotArray<Animator>, j: int): Error
    requires AnimBroken(s, sprites, anims, j)
  {
    if j >= MaxEntities then IndexOutOfRange
    else if !OwnerPresent(s, anims[j].value.hdr) then GetEntityWithId(s, anims[j].value.hdr.entityId).error
    else if !(0 <= Owner(s, anims[j].value.hdr).id < MaxEntities) then IndexOutOfRange
    else if !FrameInRange(Current(anims[j].value)) then IndexOutOfRange
    else NullReference
  }

  /** An Animation loop that throws raises the exception of its first broken slot. */
  lemma {:induction false} AnimateFromError(s: Scene, sprites: SlotArray<Sprite>, anims: SlotArray<Animator>, i: nat, hw: int, dt: real)
    ensures var r := AnimateFrom(s, sprites, anims, i, hw, dt);
            r.status.Fail? ==>
              exists j :: i <= j < hw && AnimBroken(s, sprites, anims, j) && AnimClearBefore(s, sprites, anims, i, j)
                          && r.status.error == AnimError(s, sprites, anims, j)
    decreases Remaining(i, hw)
  {
    if i < hw && !AnimBroken(s, sprites, anims, i) {
      var r := AnimateFrom(s, sprites, anims, i, hw, dt);
      if AnimProcessed(s, anims, i) {
        AnimateStep(s, sprites, anims, i, hw, dt);
        var a := anims[i].value;
        var sprites' := ShowFrame(sprites, Owner(s, a.hdr).id, a);
        var anims' := anims[i := Some(Advance(a, dt))];
        AnimatedRestAgrees(s, sprites, sprites', anims, anims', i);
        AnimateFromError(s, sprites', anims', i + 1, hw, dt);
        if r.status.Fail? {
          var j :| i + 1 <= j < hw && AnimBroken(s, sprites', anims', j) && AnimClearBefore(s, sprites', anims', i + 1, j)
                   && AnimateFrom(s, sprites', anims', i + 1, hw, dt).status.error == AnimError(s, sprites', anims', j);
          AnimErrorAgrees(s, sprites, sprites', anims, anims', i, j);
        }
      } else {
        AnimateSkip(s, sprites, anims, i, hw, dt);
        AnimateFromError(s, sprites, anims, i + 1, hw, dt);
      }
    }
  }

  /** Writing a source rectangle and advancing slot i leaves the exception of
      every later broken slot as it was. */
  lemma AnimErrorAgrees(s: Scene, sprites: SlotArray<Sprite>, sprites': SlotArray<Sprite>,
                        anims: SlotArray<Animator>, anims': SlotArray<Animator>, i: nat, j: int)
    requires forall k :: 0 <= k < MaxEntities ==> (sprites'[k].Some? <==> sprites[k].Some?)
    requires forall k :: i < k < MaxEntities ==> anims'[k] == anims[k]
    requires j > i && AnimBroken(s, sprites', anims', j)
    ensures AnimBroken(s, sprites, anims, j) && AnimError(s, sprites', anims', j) == AnimError(s, sprites, anims, j)
  {
    AnimatedRestAgrees(s, sprites, sprites', anims, anims', i);
  }

  /** The animators the pass acts on before any throw are advanced one tick
      each; every other slot of the Animator store is left as it was. */
  lemma {:induction false} AnimateFromAnimators(s: Scene, sprites: SlotArray<Sprite>, anims: SlotArray<Animator>, i: nat, hw: int, dt: real)
    ensures forall j :: 0 <= j < MaxEntities ==>
              AnimateFrom(s, sprites, anims, i, hw, dt).value.animators[j]
                == (if i <= j < hw && Shows(s, sprites, anims, j) && AnimClearBefore(s, sprites, anims, i, j)
                    then Some(Advance(anims[j].value, dt)) else anims[j])
    decreases Remaining(i, hw)
  {
    if i < hw {
      if AnimBroken(s, sprites, anims, i) {
        AnimateStop(s, sprites, anims, i, hw, dt);
      } else if AnimProcessed(s, anims, i) {
        AnimateStep(s, sprites, anims, i, hw, dt);
        var a := anims[i].value;
        var sprites' := ShowFrame(sprites, Owner(s, a.hdr).id, a);
        var anims' := anims[i := Some(Advance(a, dt))];
        AnimateFromAnimators(s, sprites', anims', i + 1, hw, dt);
      } else {
        AnimateSkip(s, sprites, anims, i, hw, dt);
        AnimateFromAnimators(s, sprites, anims, i + 1, hw, dt);
      }
    }
  }

  /** A slot that throws ends the pass with both arrays as they were. */
  lemma AnimateStop(s: Scene, sprites: SlotArray<Sprite>, anims: SlotArray<Animator>, i: nat, hw: int, dt: real)
    requires i < hw && AnimBroken(s, sprites, anims, i)
    ensures AnimateFrom(s, sprites, anims, i, hw, dt).value == Animated(sprites, anims)
    ensures forall j :: !AnimClearBefore(s, sprites, anims, i, j) || j <= i
  {
  }

  /** One step of the pass at slot i, when the animator there acts without
      throwing: the recursive call sees the shown frame and the advanced
      animator. */
  lemma AnimateStep(s: Scene, sprites: SlotArray<Sprite>, anims: SlotArray<Animator>, i: nat, hw: int, dt: real)
    requires i < hw && Shows(s, sprites, anims, i)
    ensures var sprites' := ShowFrame(sprites, Owner(s, anims[i].value.hdr).id, anims[i].value);
            var anims' := anims[i := Some(Advance(anims[i].value, dt))];
            && AnimateFrom(s, sprites, anims, i, hw, dt) == AnimateFrom(s, sprites', anims', i + 1, hw, dt)
            && (forall j :: j > i ==> (Shows(s, sprites', anims', j) <==> Shows(s, sprites, anims, j)))
            && (forall j :: AnimClearBefore(s, sprites', anims', i + 1, j) <==> AnimClearBefore(s, sprites, anims, i, j))
  {
    var a := anims[i].value;
    var sprites' := ShowFrame(sprites, Owner(s, a.hdr).id, a);
    AnimatedRestAgrees(s, sprites, sprites', anims, anims[i := Some(Advance(a, dt))], i);
  }

  /** A step the animator at slot i neither acts on nor throws at passes both
      arrays on. */
  lemma AnimateSkip(s: Scene, sprites: SlotArray<Sprite>, anims: SlotArray<Animator>, i: nat, hw: int, dt: real)
    requires i < hw && !AnimBroken(s, sprites, anims, i) && !AnimProcessed(s, anims, i)
    ensures AnimateFrom(s, sprites, anims, i, hw, dt) == AnimateFrom(s, sprites, anims, i + 1, hw, dt)
    ensures forall j :: AnimClearBefore(s, sprites, anims, i + 1, j) <==> AnimClearBefore(s, sprites, anims, i, j)
  {
  }

  /** The pass changes only source rectangles. */
  lemma {:induction false} AnimateKeepsSprites(s: Scene, sprites: SlotArray<Sprite>, anims: SlotArray<Animator>, i: nat, hw: int, dt: real)
    ensures OnlySourcesChanged(sprites, AnimateFrom(s, sprites, anims, i, hw, dt).value.sprites)
    decreases Remaining(i, hw)
  {
    if i < hw {
      if AnimBroken(s, sprites, anims, i) {
        AnimateStop(s, sprites, anims, i, hw, dt);
      } else if AnimProcessed(s, anims, i) {
        AnimateStep(s, sprites, anims, i, hw, dt);
        var a := anims[i].value;
        AnimateKeepsSprites(s, ShowFrame(sprites, Owner(s, a.hdr).id, a), anims[i := Some(Advance(a, dt))], i + 1, hw, dt);
      } else {
        AnimateSkip(s, sprites, anims, i, hw, dt);
        AnimateKeepsSprites(s, sprites, anims, i + 1, hw, dt);
      }
    }
  }

  /** A sprite record that no acting animator's owner points at is left as it was. */
  lemma {:induction false} AnimateUntouched(s: Scene, sprites: SlotArray<Sprite>, anims: SlotArray<Animator>, i: nat, hw: int, dt: real, k: int)
    requires 0 <= k < MaxEntities
    requires forall j :: i <= j < hw && Shows(s, sprites, anims, j) ==> Owner(s, anims[j].value.hdr).id != k
    ensures AnimateFrom(s, sprites, anims, i, hw, dt).value.sprites[k] == sprites[k]
    decreases Remaining(i, hw)
  {
    if i < hw {
      if AnimBroken(s, sprites, anims, i) {
        AnimateStop(s, sprites, anims, i, hw, dt);
      } else if AnimProcessed(s, anims, i) {
        AnimateStep(s, sprites, anims, i, hw, dt);
        var a := anims[i].value;
        AnimateUntouched(s, ShowFrame(sprites, Owner(s, a.hdr).id, a), anims[i := Some(Advance(a, dt))], i + 1, hw, dt, k);
      } else {
        AnimateSkip(s, sprites, anims, i, hw, dt);
        AnimateUntouched(s, sprites, anims, i + 1, hw, dt, k);
      }
    }
  }

  /** In a pass that runs to the end, the sprite record of an acting
      animator's owner ends up showing that animator's frame unless a later
      acting animator has the same owner: the last one wins. */
  lemma {:induction false} AnimateLastShown(s: Scene, sprites: SlotArray<Sprite>, anims: SlotArray<Animator>, i: nat, hw: int, dt: real, j: int)
    requires AnimateFrom(s, sprites, anims, i, hw, dt).status.Pass?
    requires i <= j < hw && Shows(s, sprites, anims, j) && LastShowing(s, sprites, anims, j, hw)
    ensures var id := Owner(s, anims[j].value.hdr).id;
            AnimateFrom(s, sprites, anims, i, hw, dt).value.sprites[id] == Some(sprites[id].value.(source := ShownFrame(anims, j)))
    decreases Remaining(i, hw)
  {
    assert !AnimBroken(s, sprites, anims, i);
    if !AnimProcessed(s, anims, i) {
      AnimateSkip(s, sprites, anims, i, hw, dt);
      AnimateLastShown(s, sprites, anims, i + 1, hw, dt, j);
    } else {
      AnimateStep(s, sprites, anims, i, hw, dt);
      var a := anims[i].value;
      var id := Owner(s, a.hdr).id;
      var sprites' := ShowFrame(sprites, id, a);
      var anims' := anims[i := Some(Advance(a, dt))];
      if j == i {
        AnimateUntouched(s, sprites', anims', i + 1, hw, dt, id);
      } else {
        assert anims'[j] == anims[j];
        AnimateLastShown(s, sprites', anims', i + 1, hw, dt, j);
      }
    }
  }

  /** No acting animator after slot j, up to hw, has the same owner as j. */
  predicate LastShowing(s: Scene, sprites: SlotArray<Sprite>, anims: SlotArray<Animator>, j: int, hw: int)
    requires Shows(s, sprites, anims, j)
  {
    forall j' :: j < j' < hw && Shows(s, sprites, anims, j') ==> Owner(s, anims[j'].value.hdr).id != Owner(s, anims[j].value.hdr).id
  }

  /** Writing a source rectangle and advancing slot i leaves the judgement
      of every later slot as it was. */
  lemma AnimatedRestAgrees(s: Scene, sprites: SlotArray<Sprite>, sprites': SlotArray<Sprite>,
                           anims: SlotArray<Animator>, anims': SlotArray<Animator>, i: nat)
    requires forall k :: 0 <= k < MaxEntities ==> (sprites'[k].Some? <==> sprites[k].Some?)
    requires forall j :: i < j < MaxEntities ==> anims'[j] == anims[j]
    ensures forall j :: j > i ==> (AnimBroken(s, sprites', anims', j) <==> AnimBroken(s, sprites, anims, j))
    ensures forall j :: j > i ==> (AnimProcessed(s, anims', j) <==> AnimProcessed(s, anims, j))
    ensures forall j :: j > i ==> (Shows(s, sprites', anims', j) <==> Shows(s, sprites, anims, j))
  {
  }

  /** Systems.Animation: the two stores after the loop, and whether it threw. */
  function AnimationPass(w: World, dt: real): (r: Run<World>)
    ensures r.value.scene == w.scene && r.value.stores.movements == w.stores.movements
    ensures r.value.stores.lastAllocated == w.stores.lastAllocated && r.value.stores.freed == w.stores.freed
    ensures r.status.Fail? <==>
              exists j :: 0 <= j < HighWater(w.stores, Tag.Animator) && AnimBroken(w.scene, w.stores.sprites, w.stores.animators, j)
  {
    var res := AnimateFrom(w.scene, w.stores.sprites, w.stores.animators, 0, HighWater(w.stores, Tag.Animator), dt);
    Run(w.(stores := w.stores.(sprites := res.value.sprites, animators := res.value.animators)), res.status)
  }

  /** Scene.Update: the Movement pass, then the Animation pass, which does not
      run when the first one throws. */
  function Update(w: World, dt: real): (r: Run<World>)
    ensures MovementPass(w).status.Fail? ==> r == MovementPass(w)
    ensures MovementPass(w).status.Pass? ==> r == AnimationPass(MovementPass(w).value, dt)
  {
    var moved := MovementPass(w);
    if moved.status.Fail? then moved else AnimationPass(moved.value, dt)
  }

  /** The two systems of an Update work on disjoint stores: when the Movement
      pass completes, the result is what the Animation pass does to the
      original world, with the moved Movement store in place; when it throws,
      the sprites and animators are as they were. */
  lemma UpdateMeaning(w: World, dt: real)
    ensures
      var m := MovementPass(w);
      var a := AnimationPass(w, dt);
      var r := Update(w, dt);
      && r.value.scene == w.scene
      && r.value.stores.movements == m.value.stores.movements
      && (m.status.Pass? ==> r.status == a.status && r.value.stores == a.value.stores.(movements := m.value.stores.movements))
      && (m.status.Fail? ==> r.status == m.status && r.value.stores == w.stores.(movements := m.value.stores.movements))
  {
  }

  /** After an Update every record the Movement pass reached before any throw
      has nothing pending and has moved by exactly what was pending: the
      Animation pass that follows does not touch the Movement store. */
  lemma UpdateClearsDeltas(w: World, dt: real)
    ensures
      var ms := w.stores.movements;
      var r := Update(w, dt).value;
      forall j :: 0 <= j < HighWater(w.stores, Tag.Movement) && MoveProcessed(w.scene, ms, j) && MoveClearBefore(w.scene, ms, 0, j) ==>
        && r.stores.movements[j].Some?
        && Still(r.stores.movements[j].value)
        && r.stores.movements[j].value.x == ms[j].value.x + ms[j].value.dx
        && r.stores.movements[j].value.y == ms[j].value.y + ms[j].value.dy
  {
    MovementPassMeaning(w);
  }

  /** The Animation pass keeps every animator in the store showable, whether
      or not it runs to the end. */
  lemma AnimationPassKeepsFrames(w: World, dt: real)
    requires forall j :: 0 <= j < MaxEntities && w.stores.animators[j].Some? ==> AnimatorOk(w.stores.animators[j].value)
    ensures forall j :: 0 <= j < MaxEntities && AnimationPass(w, dt).value.stores.animators[j].Some? ==>
              AnimatorOk(AnimationPass(w, dt).value.stores.animators[j].value)
  {
    var r := AnimationPass(w, dt).value;
    AnimateFromAnimators(w.scene, w.stores.sprites, w.stores.animators, 0, HighWater(w.stores, Tag.Animator), dt);
    forall j | 0 <= j < MaxEntities && r.stores.animators[j].Some?
      ensures AnimatorOk(r.stores.animators[j].value)
    {
      if j < HighWater(w.stores, Tag.Animator) && Shows(w.scene, w.stores.sprites, w.stores.animators, j) {
        AdvanceKeepsFrames(w.stores.animators[j].value, dt);
      }
    }
  }

  // ------------------------------------------------------ Sprite selection

  /** What the sprite render pass hands the renderer for one sprite: its
      source rectangle and the position of the Movement record at the owner's
      id. Texture, colour and transform parameters are outside this model. */
  datatype DrawRequest = DrawRequest(slot: int, source: Rect, x: real, y: real)

  /** Slot j of the SpriteRenderer store is drawn: its owner is active, it is
      enabled and the owner carries a Movement component. */
  predicate SpriteSelected(s: Scene, st: Stores, j: int) {
    && 0 <= j < MaxEntities && st.sprites[j].Some? && OwnerPresent(s, st.sprites[j].value.hdr)
    && Owner(s, st.sprites[j].value.hdr).active && st.sprites[j].value.hdr.enabled
    && HasComponent(Owner(s, st.sprites[j].value.hdr), Tag.Movement)
  }

  /** Slot j makes the sprite pass throw: past the array end, an owner that
      cannot be looked up, or a selected sprite with no Movement record at
      its owner's id. */
  predicate SpriteBroken(s: Scene, st: Stores, j: int) {
    j >= MaxEntities
    || (0 <= j && st.sprites[j].Some? && !OwnerPresent(s, st.sprites[j].value.hdr))
    || (SpriteSelected(s, st, j)
        && (!(0 <= Owner(s, st.sprites[j].value.hdr).id < MaxEntities)
            || st.movements[Owner(s, st.sprites[j].value.hdr).id].None?))
  }

  function RequestFor(s: Scene, st: Stores, j: int): DrawRequest
    requires SpriteSelected(s, st, j) && !SpriteBroken(s, st, j)
  {
    var m := st.movements[Owner(s, st.sprites[j].value.hdr).id].value;
    DrawRequest(j, st.sprites[j].value.source, m.x, m.y)
  }

  /** No slot in [i, j) makes the sprite pass throw. */
  predicate SpriteClearBefore(s: Scene, st: Stores, i: int, j: int) {
    forall k :: i <= k < j ==> !SpriteBroken(s, st, k)
  }

  /** The selection of Systems.SpriteRenderer from slot i up to hw: one
      request per selected sprite, in slot order. A throw ends the loop; the
      requests already submitted stay submitted. */
  function SpriteDraws(s: Scene, st: Stores, i: nat, hw: int): (r: Run<seq<DrawRequest>>)
    ensures r.status.Fail? <==> exists j :: i <= j < hw && SpriteBroken(s, st, j)
    ensures forall k :: 0 <= k < |r.value| ==>
              && i <= r.value[k].slot < hw
              && SpriteSelected(s, st, r.value[k].slot) && !SpriteBroken(s, st, r.value[k].slot)
              && SpriteClearBefore(s, st, i, r.value[k].slot)
              && r.value[k] == RequestFor(s, st, r.value[k].slot)
    decreases Remaining(i, hw)
  {
    if i >= hw then Run([], Pass)
    else if i >= MaxEntities then assert SpriteBroken(s, st, i); Run([], Fail(IndexOutOfRange))
    else match st.sprites[i]
      case None => SpriteDraws(s, st, i + 1, hw)
      case Some(sr) =>
        match GetEntityWithId(s, sr.hdr.entityId)
        case Err(err) => assert SpriteBroken(s, st, i); Run([], Fail(err))
        case Ok(owner) =>
          if !(owner.active && sr.hdr.enabled && HasComponent(owner, Tag.Movement)) then SpriteDraws(s, st, i + 1, hw)
          else if !(0 <= owner.id < MaxEntities) then assert SpriteBroken(s, st, i); Run([], Fail(IndexOutOfRange))
          else if st.movements[owner.id].None? then assert SpriteBroken(s, st, i); Run([], Fail(NullReference))
          else
            var rest := SpriteDraws(s, st, i + 1, hw);
            Run([RequestFor(s, st, i)] + rest.value, rest.status)
  }

  /** The exception a broken SpriteRenderer slot raises: reading past the
      array, GetEntityWithID's failure, an owner id past the Movement array,
      or a null Movement record. */
  function SpriteError(s: Scene, st: Stores, j: int): Error
    requires SpriteBroken(s, st, j)
  {
    if j >= MaxEntities then IndexOutOfRange
    else if !OwnerPresent(s, st.sprites[j].value.hdr) then GetEntityWithId(s, st.sprites[j].value.hdr.entityId).error
    else if !(0 <= Owner(s, st.sprites[j].value.hdr).id < MaxEntities) then IndexOutOfRange
    else NullReference
  }

  /** One step of the selection at a slot that does not throw: a selected
      sprite puts its request in front of the rest, any other slot adds
      nothing. */
  lemma SpriteDrawsUnfold(s: Scene, st: Stores, i: nat, hw: int)
    requires i < hw && !SpriteBroken(s, st, i)
    ensures SpriteSelected(s, st, i) ==>
              SpriteDraws(s, st, i, hw) == Run([RequestFor(s, st, i)] + SpriteDraws(s, st, i + 1, hw).value, SpriteDraws(s, st, i + 1, hw).status)
    ensures !SpriteSelected(s, st, i) ==> SpriteDraws(s, st, i, hw) == SpriteDraws(s, st, i + 1, hw)
    ensures forall j :: SpriteClearBefore(s, st, i + 1, j) <==> SpriteClearBefore(s, st, i, j)
  {
  }

  /** The requests come in strictly increasing slot order. */
  lemma {:induction false} SpriteDrawsOrdered(s: Scene, st: Stores, i: nat, hw: int)
    ensures var r := SpriteDraws(s, st, i, hw).value;
            forall k, k' :: 0 <= k < k' < |r| ==> r[k].slot < r[k'].slot
    decreases Remaining(i, hw)
  {
    if i < hw && !SpriteBroken(s, st, i) {
      SpriteDrawsUnfold(s, st, i, hw);
      SpriteDrawsOrdered(s, st, i + 1, hw);
    }
  }

  /** Some request in r is for slot j. */
  predicate DrawnIn(r: seq<DrawRequest>, j: int) {
    exists k :: 0 <= k < |r| && r[k].slot == j
  }

  /** Every selected sprite below the high-water mark that the loop reaches
      before any throw gets a request. */
  lemma {:induction false} SpriteDrawsComplete(s: Scene, st: Stores, i: nat, hw: int)
    ensures var r := SpriteDraws(s, st, i, hw).value;
            forall j :: i <= j < hw && SpriteSelected(s, st, j) && !SpriteBroken(s, st, j) && SpriteClearBefore(s, st, i, j) ==>
              DrawnIn(r, j)
    decreases Remaining(i, hw)
  {
    if i < hw && !SpriteBroken(s, st, i) {
      SpriteDrawsUnfold(s, st, i, hw);
      SpriteDrawsComplete(s, st, i + 1, hw);
      forall j | i <= j < hw && SpriteSelected(s, st, j) && !SpriteBroken(s, st, j) && SpriteClearBefore(s, st, i, j)
        ensures DrawnIn(SpriteDraws(s, st, i, hw).value, j)
      {
        SpriteDrawnAt(s, st, i, hw, j);
      }
    }
  }

  /** One step of SpriteDrawsComplete: slot j is drawn from slot i on once it
      is drawn from slot i + 1 on (or j is i itself and selected). */
  lemma SpriteDrawnAt(s: Scene, st: Stores, i: nat, hw: int, j: int)
    requires i < hw && !SpriteBroken(s, st, i) && i <= j < hw && SpriteSelected(s, st, j)
    requires j > i ==> DrawnIn(SpriteDraws(s, st, i + 1, hw).value, j)
    ensures DrawnIn(SpriteDraws(s, st, i, hw).value, j)
  {
    SpriteDrawsUnfold(s, st, i, hw);
    if SpriteSelected(s, st, i) {
      DrawnInCons(RequestFor(s, st, i), SpriteDraws(s, st, i + 1, hw).value, j);
    }
  }

  /** A request put in front keeps every slot already drawn, and adds its own. */
  lemma DrawnInCons(x: DrawRequest, rest: seq<DrawRequest>, j: int)
    ensures DrawnIn([x] + rest, j) <==> x.slot == j || DrawnIn(rest, j)
  {
    if DrawnIn(rest, j) {
      var k :| 0 <= k < |rest| && rest[k].slot == j;
      assert ([x] + rest)[k + 1].slot == j;
    }
    if x.slot == j {
      assert ([x] + rest)[0].slot == j;
    }
    if DrawnIn([x] + rest, j) && x.slot != j {
      var k :| 0 <= k < |[x] + rest| && ([x] + rest)[k].slot == j;
      assert rest[k - 1].slot == j;
    }
  }

  /** A sprite loop that throws raises the exception of its first broken slot. */
  lemma {:induction false} SpriteDrawsError(s: Scene, st: Stores, i: nat, hw: int)
    ensures var r := SpriteDraws(s, st, i, hw);
            r.status.Fail? ==>
              exists j :: i <= j < hw && SpriteBroken(s, st, j) && SpriteClearBefore(s, st, i, j) && r.status.error == SpriteError(s, st, j)
    decreases Remaining(i, hw)
  {
    if i < hw && !SpriteBroken(s, st, i) {
      SpriteDrawsUnfold(s, st, i, hw);
      SpriteDrawsError(s, st, i + 1, hw);
    }
  }

  /** Systems.SpriteRenderer, reduced to the requests it submits. */
  function SpriteRenderPass(w: World): (r: Run<seq<DrawRequest>>)
    ensures r == SpriteDraws(w.scene, w.stores, 0, HighWater(w.stores, Tag.SpriteRenderer))
    ensures r.status.Fail? <==> exists j :: 0 <= j < HighWater(w.stores, Tag.SpriteRenderer) && SpriteBroken(w.scene, w.stores, j)
  {
    SpriteDraws(w.scene, w.stores, 0, HighWater(w.stores, Tag.SpriteRenderer))
  }

  // ------------------------------------------- Reading by entity id

  /** A scene holding entity A (object 1) at id 0 and entity B (object 2) at id 1. */
  function TwoEntityScene(): Scene {
    var a := AddEntityChecked(NewNamedScene("level"), Some(NewEntity(1)));
    AddEntityChecked(a.scene, Some(NewEntity(2))).scene
  }

  /** B gets its Movement component first, so it takes slot 0; A's takes slot 1. */
  function BothMoving(): World {
    var w := Attach(World(TwoEntityScene(), Init()), MovementPayload(NewMovementAt(1, 5.0, 5.0))).world;
    Attach(w, MovementPayload(NewMovementAt(0, 0.0, 0.0))).world
  }

  /** Then A gets a sprite. */
  function SpriteOnA(): World {
    Attach(BothMoving(), SpritePayload(NewSprite(0))).world
  }

  lemma TwoEntitySceneFacts()
    ensures TwoEntityScene().entities[0] == Some(NewEntity(1).(id := 0))
    ensures TwoEntityScene().entities[1] == Some(NewEntity(2).(id := 1))
  {
    var s0 := NewNamedScene("level");
    assert !InScene(s0, NewEntity(1));
    var a := AddEntityChecked(s0, Some(NewEntity(1)));
    assert forall i :: 1 <= i < MaxEntities ==> !Occupied(a.scene, i);
    assert !InScene(a.scene, NewEntity(2));
  }

  /** Attaching B's Movement component to a fresh world: slot 0, entity 0 untouched. */
  lemma FirstMovementFacts(w: World, p: Payload)
    requires w.stores == Init() && Occupied(w.scene, 1) && !Holds(w.scene, 1, Tag.Movement)
    requires p == MovementPayload(NewMovementAt(1, 5.0, 5.0))
    ensures var w' := Attach(w, p).world;
            && w'.scene.entities[0] == w.scene.entities[0]
            && w'.stores.movements[0] == Some(NewMovementAt(1, 5.0, 5.0))
            && HighWater(w'.stores, Tag.Movement) == 1 && FreeSlots(w'.stores, Tag.Movement) == []
            && HighWater(w'.stores, Tag.SpriteRenderer) == 0 && FreeSlots(w'.stores, Tag.SpriteRenderer) == []
  {
    AttachAtHighWater(w, p);
  }

  /** Then A's Movement component: slot 1, slot 0 kept. */
  lemma SecondMovementFacts(w: World, p: Payload)
    requires Occupied(w.scene, 0) && !Holds(w.scene, 0, Tag.Movement) && !Holds(w.scene, 0, Tag.SpriteRenderer)
    requires HighWater(w.stores, Tag.Movement) == 1 && FreeSlots(w.stores, Tag.Movement) == []
    requires p == MovementPayload(NewMovementAt(0, 0.0, 0.0))
    ensures var w' := Attach(w, p).world;
            && w'.stores.movements[0] == w.stores.movements[0]
            && w'.stores.movements[1] == Some(NewMovementAt(0, 0.0, 0.0))
            && Holds(w'.scene, 0, Tag.Movement) && HeldSlot(w'.scene, 0, Tag.Movement) == 1
            && w'.scene.entities[0].value.id == w.scene.entities[0].value.id
            && w'.scene.entities[0].value.active == w.scene.entities[0].value.active
            && !Holds(w'.scene, 0, Tag.SpriteRenderer)
            && HighWater(w'.stores, Tag.SpriteRenderer) == HighWater(w.stores, Tag.SpriteRenderer)
            && FreeSlots(w'.stores, Tag.SpriteRenderer) == FreeSlots(w.stores, Tag.SpriteRenderer)
  {
    AttachAtHighWater(w, p);
  }

  lemma BothMovingFacts()
    ensures var w := BothMoving();
            && w.stores.movements[0] == Some(NewMovementAt(1, 5.0, 5.0))
            && w.stores.movements[1] == Some(NewMovementAt(0, 0.0, 0.0))
            && Holds(w.scene, 0, Tag.Movement) && HeldSlot(w.scene, 0, Tag.Movement) == 1
            && w.scene.entities[0].value.id == 0 && w.scene.entities[0].value.active
            && !Holds(w.scene, 0, Tag.SpriteRenderer)
            && HighWater(w.stores, Tag.SpriteRenderer) == 0 && FreeSlots(w.stores, Tag.SpriteRenderer) == []
  {
    TwoEntitySceneFacts();
    var w1 := World(TwoEntityScene(), Init());
    FirstMovementFacts(w1, MovementPayload(NewMovementAt(1, 5.0, 5.0)));
    SecondMovementFacts(Attach(w1, MovementPayload(NewMovementAt(1, 5.0, 5.0))).world, MovementPayload(NewMovementAt(0, 0.0, 0.0)));
  }

  /** Attaching a first sprite to entity 0 leaves the Movement store alone. */
  lemma FirstSpriteFacts(w: World, p: Payload)
    requires Occupied(w.scene, 0) && w.scene.entities[0].value.id == 0
    requires p == SpritePayload(NewSprite(0))
    requires !Holds(w.scene, 0, Tag.SpriteRenderer)
    requires HighWater(w.stores, Tag.SpriteRenderer) == 0 && FreeSlots(w.stores, Tag.SpriteRenderer) == []
    ensures var w' := Attach(w, p).world;
            && w'.stores.movements == w.stores.movements
            && w'.stores.sprites[0] == Some(NewSprite(0))
            && HighWater(w'.stores, Tag.SpriteRenderer) == 1
            && w'.scene.entities[0].value.id == 0
            && w'.scene.entities[0].value.active == w.scene.entities[0].value.active
            && (Holds(w.scene, 0, Tag.Movement) ==>
                  Holds(w'.scene, 0, Tag.Movement) && HeldSlot(w'.scene, 0, Tag.Movement) == HeldSlot(w.scene, 0, Tag.Movement))
  {
    AttachAtHighWater(w, p);
  }

  lemma SpriteOnAFacts()
    ensures var w := SpriteOnA();
            && w.stores.movements == BothMoving().stores.movements
            && w.stores.sprites[0] == Some(NewSprite(0))
            && HighWater(w.stores, Tag.SpriteRenderer) == 1
            && Holds(w.scene, 0, Tag.Movement) && HeldSlot(w.scene, 0, Tag.Movement) == 1
            && w.scene.entities[0].value.id == 0 && w.scene.entities[0].value.active
  {
    BothMovingFacts();
    FirstSpriteFacts(BothMoving(), SpritePayload(NewSprite(0)));
  }

  /** The sprite pass reads the Movement record at the owner's entity id, not
      at the slot the owner's table records for its Movement component: a
      sole sprite whose owner sits at id 0 is drawn at the position of the
      record in slot 0, whichever entity that record belongs to. */
  lemma DrawReadsSlotOfEntityId(w: World, m: Movement, sp: Sprite)
    requires Occupied(w.scene, 0) && w.scene.entities[0].value.id == 0 && w.scene.entities[0].value.active
    requires Holds(w.scene, 0, Tag.Movement)
    requires HighWater(w.stores, Tag.SpriteRenderer) == 1
    requires w.stores.sprites[0] == Some(sp) && sp.hdr.entityId == 0 && sp.hdr.enabled
    requires w.stores.movements[0] == Some(m)
    ensures SpriteRenderPass(w) == Run([DrawRequest(0, sp.source, m.x, m.y)], Pass)
  {
    assert SpriteSelected(w.scene, w.stores, 0) && !SpriteBroken(w.scene, w.stores, 0);
    SpriteDrawsUnfold(w.scene, w.stores, 0, 1);
    var req := RequestFor(w.scene, w.stores, 0);
    assert [req] + [] == [req];
  }

  /** The two differ once components are attached in different orders: in
      SpriteOnA, A (id 0) holds its Movement in slot 1 at (0, 0), B's sits in
      slot 0 at (5, 5), and A's sprite is drawn at B's position. A's sprite
      comes from the constructor without a texture, so in the C# the request
      reaches SpriteBatch.Draw with a null texture; the request here records
      only slot, source rectangle and position. */
  lemma SpriteDrawnAtOthersPosition()
    ensures Holds(SpriteOnA().scene, 0, Tag.Movement) && HeldSlot(SpriteOnA().scene, 0, Tag.Movement) == 1
    ensures SpriteOnA().stores.movements[1] == Some(NewMovementAt(0, 0.0, 0.0))
    ensures SpriteOnA().stores.movements[0] == Some(NewMovementAt(1, 5.0, 5.0))
    ensures SpriteRenderPass(SpriteOnA()) == Run([DrawRequest(0, EmptyRect, 5.0, 5.0)], Pass)
  {
    SpriteOnAFacts();
    BothMovingFacts();
    DrawReadsSlotOfEntityId(SpriteOnA(), NewMovementAt(1, 5.0, 5.0), NewSprite(0));
  }
}
