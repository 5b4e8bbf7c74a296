/** The Movement component (Components/Movement.cs): a position and the
    pending per-tick displacement, with float fields modelled as reals. */
module MovementModel {
  import opened ComponentTags

  datatype Movement = Movement(hdr: Header, x: real, y: real, dx: real, dy: real)

  /** `new Movement(entityID)`. */
  function NewMovement(entityId: int): (m: Movement)
    ensures m.x == 0.0 && m.y == 0.0 && Still(m)
    ensures m.hdr == NewHeader(entityId, Tag.Movement)
  {
    NewMovementAt(entityId, 0.0, 0.0)
  }

  /** `new Movement(entityID, posX, posY)`. */
  function NewMovementAt(entityId: int, posX: real, posY: real): (m: Movement)
    ensures m.x == posX && m.y == posY && Still(m)
    ensures m.hdr.entityId == entityId && m.hdr.componentId == Tag.Movement && m.hdr.enabled
  {
    Movement.Movement(NewHeader(entityId, Tag.Movement), posX, posY, 0.0, 0.0)
  }

  /** No displacement is pending. */
  predicate Still(m: Movement) {
    m.dx == 0.0 && m.dy == 0.0
  }

  /** What the Movement system does to one record it processes: apply the
      pending displacement, then clear it. */
  function Integrate(m: Movement): Movement {
    m.(x := m.x + m.dx, y := m.y + m.dy, dx := 0.0, dy := 0.0)
  }

  /** Integrating leaves nothing pending, moves by exactly the pending
      displacement, and a record with nothing pending stays where it is. */
  lemma IntegrateMeaning(m: Movement)
    ensures Still(Integrate(m))
    ensures Integrate(m).x - m.x == m.dx && Integrate(m).y - m.y == m.dy
    ensures Integrate(m).hdr == m.hdr
    ensures Still(m) <==> Integrate(m) == m
    ensures Integrate(Integrate(m)) == Integrate(m)
  {
  }

  /** A freshly built Movement is not displaced by its first integration. */
  lemma FreshMovementStays(entityId: int, posX: real, posY: real)
    ensures Integrate(NewMovementAt(entityId, posX, posY)) == NewMovementAt(entityId, posX, posY)
    ensures Integrate(NewMovement(entityId)) == NewMovement(entityId)
  {
  }
}

/** The sprite record, reduced to what the animation pass writes: the source
    rectangle (Components/SpriteRenderer.cs; textures, colours and transforms
    are renderer parameters outside this model). */
module SpriteModel {
  import opened Common
  import opened ComponentTags

  datatype Sprite = Sprite(hdr: Header, source: Rect)

  /** `new SpriteRenderer(entityID)`: an empty source rectangle. */
  function NewSprite(entityId: int): (s: Sprite)
    ensures s.source == EmptyRect
    ensures s.hdr == NewHeader(entityId, SpriteRenderer)
  {
    Sprite(NewHeader(entityId, SpriteRenderer), EmptyRect)
  }

  /** The size of a loaded Texture2D; its pixels are the renderer's business. */
  datatype Texture = Texture(width: int, height: int)

  /** `new SpriteRenderer(entityID, texture)`: the source rectangle covers the
      whole texture. Reading the size of a null texture throws. */
  function NewTexturedSprite(entityId: int, texture: Option<Texture>): (r: Result<Sprite>)
    ensures r.Err? <==> texture.None?
    ensures r.Err? ==> r.error == NullReference
    ensures r.Ok? ==> r.value.hdr == NewSprite(entityId).hdr
    ensures r.Ok? ==> r.value.source.x == 0 && r.value.source.y == 0
                      && r.value.source.Right() == texture.value.width && r.value.source.Bottom() == texture.value.height
  {
    match texture
    case None => Err(NullReference)
    case Some(t) => Ok(Sprite(NewHeader(entityId, SpriteRenderer), Rect(0, 0, t.width, t.height)))
  }
}
