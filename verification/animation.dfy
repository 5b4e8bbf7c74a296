/** Animation records and the Animator component that plays them
    (Components/Utility/Animation.cs, Components/Animator.cs). */
module AnimationModel {
  import opened Common
  import opened ComponentTags

  /** One named frame sequence with its playback state. Times are seconds. */
  datatype Animation = Animation(
    name: string,
    frameDelay: real,
    reversed: bool,
    isPlaying: bool,
    loop: bool,
    currentFrame: int,
    accumulator: real,
    speed: real,
    frames: seq<Rect>)

  /** The current frame indexes the frame sequence. */
  predicate FrameInRange(a: Animation) {
    0 <= a.currentFrame < |a.frames|
  }

  /** `new Animation(name, frames)`: the given name and frames, frame 0, half
      a second per frame, forward, not looping, not playing, unit speed. */
  function NewAnimation(name: string, frames: seq<Rect>): (a: Animation)
    ensures a.name == name && a.frames == frames
    ensures a.currentFrame == 0 && a.frameDelay == 0.5 && a.accumulator == 0.0 && a.speed == 1.0
    ensures !a.reversed && !a.loop && !a.isPlaying
    ensures FrameInRange(a) <==> |frames| > 0
  {
    Animation(name, 0.5, false, false, false, 0, 0.0, 1.0, frames)
  }

  /** Animation.Stop and Animation.Resume. */
  function StopAnimation(a: Animation): (r: Animation)
    ensures !r.isPlaying
    ensures r.(isPlaying := a.isPlaying) == a
  {
    a.(isPlaying := false)
  }

  function ResumeAnimation(a: Animation): (r: Animation)
    ensures r.isPlaying
    ensures r.(isPlaying := a.isPlaying) == a
  {
    a.(isPlaying := true)
  }

  /** Stop and Resume are idempotent and undo each other. */
  lemma StopResumeLaws(a: Animation)
    ensures StopAnimation(StopAnimation(a)) == StopAnimation(a)
    ensures ResumeAnimation(ResumeAnimation(a)) == ResumeAnimation(a)
    ensures a.isPlaying ==> ResumeAnimation(StopAnimation(a)) == a
    ensures !a.isPlaying ==> StopAnimation(ResumeAnimation(a)) == a
  {
  }

  /** The Animator component: a table of animations by name and the key of
      the current one. The C# field currentAnimation is a reference into the
      table; holding its key keeps every update visible through the table. */
  datatype Animator = Animator(hdr: Header, animations: map<string, Animation>, current: Option<string>)

  /** The current key names an entry of the table. */
  predicate HasCurrent(a: Animator) {
    a.current.Some? && a.current.value in a.animations
  }

  function Current(a: Animator): Animation
    requires HasCurrent(a)
  {
    a.animations[a.current.value]
  }

  /** Every animation in the table can be shown: it has frames and its
      current frame indexes them; and the current key, if any, is in the table. */
  predicate AnimatorOk(a: Animator) {
    && (a.current.Some? ==> a.current.value in a.animations)
    && forall k :: k in a.animations ==> FrameInRange(a.animations[k])
  }

  /** `new Animator(entityID)` as a record: an empty table and nothing current.
      Registration in the Animator store is modelled in WorldModel.Register. */
  function NewAnimator(entityId: int): (a: Animator)
    ensures a.hdr == NewHeader(entityId, Tag.Animator)
    ensures a.animations == map[] && a.current.None?
    ensures !IsSomethingPlaying(a) && AnimatorOk(a)
  {
    Animator.Animator(NewHeader(entityId, Tag.Animator), map[], None)
  }

  /** Animator.IsSomethingPlaying. */
  predicate IsSomethingPlaying(a: Animator) {
    HasCurrent(a) && Current(a).isPlaying
  }

  /** Where Play puts the frame: the first frame, or the last when reversed. */
  function StartFrame(an: Animation): int {
    if an.reversed then |an.frames| - 1 else 0
  }

  /** Animator.Play: a known name becomes current and restarts from its
      starting frame with a cleared accumulator, even if it was already
      playing; an unknown name changes nothing. */
  function Play(a: Animator, name: string): (r: Animator)
    ensures name !in a.animations ==> r == a
    ensures name in a.animations ==>
              && r.current == Some(name) && r.hdr == a.hdr
              && r.animations.Keys == a.animations.Keys
              && r.animations[name] == a.animations[name].(accumulator := 0.0, currentFrame := StartFrame(a.animations[name]), isPlaying := true)
              && (forall k :: k in a.animations && k != name ==> r.animations[k] == a.animations[k])
    ensures name in a.animations ==> IsSomethingPlaying(r)
  {
    if name in a.animations then
      var an := a.animations[name];
      a.(current := Some(name),
         animations := a.animations[name := an.(accumulator := 0.0, currentFrame := StartFrame(an), isPlaying := true)])
    else a
  }

  /** r differs from a at most in the playing flag of a's current animation. */
  predicate OnlyFlagChanged(a: Animator, r: Animator)
    requires HasCurrent(a)
  {
    && r.hdr == a.hdr && r.current == a.current && r.animations.Keys == a.animations.Keys
    && (forall k :: k in a.animations && k != a.current.value ==> r.animations[k] == a.animations[k])
    && r.animations[a.current.value].(isPlaying := Current(a).isPlaying) == Current(a)
  }

  /** Animator.Stop and Animator.Resume: flip the current animation's
      playing flag, and do nothing when there is no current animation. */
  function Stop(a: Animator): (r: Animator)
    ensures !HasCurrent(a) ==> r == a
    ensures HasCurrent(a) ==> HasCurrent(r) && !Current(r).isPlaying && OnlyFlagChanged(a, r)
  {
    if HasCurrent(a) then a.(animations := a.animations[a.current.value := StopAnimation(Current(a))]) else a
  }

  function Resume(a: Animator): (r: Animator)
    ensures !HasCurrent(a) ==> r == a
    ensures HasCurrent(a) ==> HasCurrent(r) && Current(r).isPlaying && OnlyFlagChanged(a, r)
  {
    if HasCurrent(a) then a.(animations := a.animations[a.current.value := ResumeAnimation(Current(a))]) else a
  }

  /** IsSomethingPlaying is true exactly when there is a current animation and
      it is playing; Play with a known name, Stop and Resume each decide it. */
  lemma PlayingQuery(a: Animator, name: string)
    ensures IsSomethingPlaying(a) <==> a.current.Some? && a.current.value in a.animations && a.animations[a.current.value].isPlaying
    ensures name in a.animations ==> IsSomethingPlaying(Play(a, name))
    ensures !IsSomethingPlaying(Stop(a))
    ensures IsSomethingPlaying(Resume(a)) <==> HasCurrent(a)
  {
  }

  /** Stop then Resume restores playback where it was: same frame, same
      accumulator, same current animation. */
  lemma StopThenResume(a: Animator)
    requires IsSomethingPlaying(a)
    ensures Resume(Stop(a)) == a
  {
    var k := a.current.value;
    assert Resume(Stop(a)).animations == a.animations;
  }

  /** Stop and Resume are idempotent. */
  lemma StopResumeIdempotent(a: Animator)
    ensures Stop(Stop(a)) == Stop(a)
    ensures Resume(Resume(a)) == Resume(a)
  {
  }

  /** Play, Stop and Resume keep every animation showable. */
  lemma ControlsKeepAnimatorOk(a: Animator, name: string)
    requires AnimatorOk(a)
    ensures AnimatorOk(Play(a, name)) && AnimatorOk(Stop(a)) && AnimatorOk(Resume(a))
  {
  }

  /** Playing the same name twice is the same as playing it once: Play is a
      restart, not a resume. */
  lemma PlayRestarts(a: Animator, name: string)
    ensures Play(Play(a, name), name) == Play(a, name)
  {
  }
}
