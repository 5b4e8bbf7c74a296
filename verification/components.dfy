/** The closed enumeration of component kinds and the fields every component
    shares (Engine/Component.cs). */
module ComponentTags {

  /** Every component kind the engine knows, in declaration order. */
  datatype Tag = Movement | SpriteRenderer | Animator | ParticleGenerator | Text

  /** Enum.GetValues(typeof(Components)).Length: the size of every per-kind table. */
  const TagCount := 5

  /** The integer value of the enum member, which indexes every per-kind table. */
  function Ordinal(t: Tag): (n: nat)
    ensures n < TagCount
  {
    match t
    case Movement => 0
    case SpriteRenderer => 1
    case Animator => 2
    case ParticleGenerator => 3
    case Text => 4
  }

  /** The enum member with integer value n (the C# cast from int). */
  function TagAt(n: nat): (t: Tag)
    requires n < TagCount
    ensures Ordinal(t) == n
  {
    if n == 0 then Movement
    else if n == 1 then SpriteRenderer
    else if n == 2 then Animator
    else if n == 3 then ParticleGenerator
    else Text
  }

  /** The numbering is a bijection between the tags and 0 .. TagCount-1, so a
      table of TagCount entries has exactly one entry per tag. */
  lemma OrdinalBijective(t: Tag, u: Tag, n: nat)
    requires n < TagCount
    ensures TagAt(Ordinal(t)) == t
    ensures Ordinal(t) == Ordinal(u) ==> t == u
    ensures Ordinal(TagAt(n)) == n
  {
  }

  /** A table with one entry per tag (the BitArray of an entity, the
      lastAllocatedIndex array, ...); its length makes every tag a valid index. */
  type Bits = s: seq<bool> | |s| == TagCount witness [false, false, false, false, false]
  type IntTable = s: seq<int> | |s| == TagCount witness [0, 0, 0, 0, 0]
  type StackTable = s: seq<seq<int>> | |s| == TagCount witness [[], [], [], [], []]

  /** The fields of the Component base class: the owning entity, the enable
      flag and the fixed kind tag. */
  datatype Header = Header(entityId: int, enabled: bool, componentId: Tag)

  /** The header every concrete constructor produces: Enabled starts true,
      EntityID is the argument, and ComponentID is the constructor's kind. */
  function NewHeader(entityId: int, kind: Tag): (h: Header)
    ensures h.enabled
    ensures h.entityId == entityId && h.componentId == kind
  {
    Header(entityId, true, kind)
  }

  /** A component object seen through the base class: its header and whether
      its runtime class is Component itself rather than a subclass. */
  datatype ComponentRef = ComponentRef(hdr: Header, isBase: bool)

  /** `new Component()`: EntityID and ComponentID take their defaults (0 and
      the first enum member), Enabled its initialiser. */
  function NewBaseComponent(): (c: ComponentRef)
    ensures c.isBase && c.hdr.enabled
    ensures c.hdr.entityId == 0 && Ordinal(c.hdr.componentId) == 0
  {
    ComponentRef(Header(0, true, Movement), true)
  }
}
