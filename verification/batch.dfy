/** The batching protocol of Engine/PrimitiveBatch.cs: Begin fixes a primitive
    type, AddVertex fills a fixed buffer of vertices and flushes it to the
    graphics device at a primitive boundary when the next primitive might not
    fit, End flushes what is left, and Dispose releases the shader effect once.
    The device is represented by the trace of draw calls it would receive. */
module PrimitiveBatching {
  import opened Common

  /** The length of the vertex buffer. */
  const BufferSize := 500

  /** The graphics API's primitive kinds, in declaration order, so that the
      first one is the value an unset field holds. */
  datatype PrimitiveType = TriangleList | TriangleStrip | LineList | LineStrip | PointList

  /** A colour, as its packed 32-bit value. */
  datatype Color = Color(packed: int)

  /** A screen-space vertex with its colour. */
  datatype Vertex = Vertex(x: real, y: real, color: Color)

  /** One DrawUserPrimitives call: the type, the primitive count passed, and
      the vertices that count covers, taken from the front of the buffer. */
  datatype DrawCall = DrawCall(ptype: PrimitiveType, primitiveCount: int, vertices: seq<Vertex>)

  /** The batch's state. `buffer` holds the vertices written since the last
      flush (positionInBuffer is its length); `trace` is every draw call issued
      so far, oldest first; `effectReleases` counts how often the effect has
      been disposed. */
  datatype Batch = Batch(
    hasBegun: bool,
    ptype: PrimitiveType,
    vertsPerPrimitive: nat,
    buffer: seq<Vertex>,
    trace: seq<DrawCall>,
    disposed: bool,
    effectReleases: nat)

  /** PrimitiveBatch.NumVertsPerPrimitive: two for a line list, three for a
      triangle list; every other type is refused. */
  function NumVertsPerPrimitive(t: PrimitiveType): (r: Result<nat>)
    ensures r.Ok? <==> t == LineList || t == TriangleList
    ensures r.Ok? ==> 2 <= r.value <= 3
    ensures r.Err? ==> r.error == InvalidOperation
  {
    match t
    case LineList => Ok(2)
    case TriangleList => Ok(3)
    case _ => Err(InvalidOperation)
  }

  /** Where the primitive the buffer is filling started. */
  function PrimitiveStart(b: Batch): int
    requires b.vertsPerPrimitive > 0
  {
    |b.buffer| - |b.buffer| % b.vertsPerPrimitive
  }

  /** A draw call covers whole primitives of its own type. */
  predicate WholePrimitives(d: DrawCall) {
    NumVertsPerPrimitive(d.ptype).Ok? && |d.vertices| == d.primitiveCount * NumVertsPerPrimitive(d.ptype).value
  }

  /** The state every sequence of calls keeps: the buffer is never full; it
      is empty outside a Begin/End pair; inside one the vertex count matches
      the type and a primitive being filled fits in the buffer; every draw
      call covers whole primitives; the effect was released once exactly
      when the batch is disposed. */
  predicate Valid(b: Batch) {
    && |b.buffer| < BufferSize
    && (!b.hasBegun ==> b.buffer == [])
    && (b.hasBegun ==>
          && NumVertsPerPrimitive(b.ptype) == Ok(b.vertsPerPrimitive)
          && (|b.buffer| % b.vertsPerPrimitive != 0 ==> PrimitiveStart(b) + b.vertsPerPrimitive < BufferSize))
    && (forall k :: 0 <= k < |b.trace| ==> WholePrimitives(b.trace[k]))
    && b.effectReleases == (if b.disposed then 1 else 0)
  }

  /** Every vertex the device has been asked to draw, in order. */
  function Drawn(trace: seq<DrawCall>): seq<Vertex> {
    if trace == [] then [] else Drawn(trace[..|trace| - 1]) + trace[|trace| - 1].vertices
  }

  lemma DrawnAppend(trace: seq<DrawCall>, d: DrawCall)
    ensures Drawn(trace + [d]) == Drawn(trace) + d.vertices
  {
    assert (trace + [d])[..|trace|] == trace;
  }

  /** The constructor: refuses a missing device; otherwise not begun, nothing
      buffered or drawn, not disposed. */
  function NewBatch(hasDevice: bool): (r: Result<Batch>)
    ensures r.Err? <==> !hasDevice
    ensures r.Err? ==> r.error == NullArgument
    ensures r.Ok? ==> Valid(r.value)
    ensures r.Ok? ==> !r.value.hasBegun && r.value.buffer == [] && r.value.trace == [] && !r.value.disposed
  {
    if !hasDevice then Err(NullArgument)
    else Ok(Batch(false, TriangleList, 0, [], [], false, 0))
  }

  /** PrimitiveBatch.Begin: refuses a second Begin, the strip types and (by
      way of NumVertsPerPrimitive) the point list; otherwise records the type
      and its vertex count. */
  function Begin(b: Batch, t: PrimitiveType): (r: Result<Batch>)
    ensures b.hasBegun ==> r == Err(InvalidOperation)
    ensures !b.hasBegun && (t == LineStrip || t == TriangleStrip) ==> r == Err(NotSupported)
    ensures !b.hasBegun && t == PointList ==> r == Err(InvalidOperation)
    ensures r.Ok? <==> !b.hasBegun && (t == LineList || t == TriangleList)
    ensures r.Ok? ==> r.value.hasBegun && r.value.ptype == t
    ensures r.Ok? ==> r.value.buffer == b.buffer && r.value.trace == b.trace
    ensures r.Ok? ==> r.value.disposed == b.disposed && r.value.effectReleases == b.effectReleases
  {
    if b.hasBegun then Err(InvalidOperation)
    else if t == LineStrip || t == TriangleStrip then Err(NotSupported)
    else match NumVertsPerPrimitive(t)
      case Err(e) => Err(e)
      case Ok(n) => Ok(b.(hasBegun := true, ptype := t, vertsPerPrimitive := n))
  }

  /** PrimitiveBatch.Flush: refused before Begin; an empty buffer issues no
      draw call; otherwise one call for the whole primitives in the buffer,
      dropping a trailing partial one, and the buffer starts over. */
  function Flush(b: Batch): (r: Result<Batch>)
    ensures r.Err? <==> !b.hasBegun || (b.buffer != [] && b.vertsPerPrimitive == 0)
    ensures !b.hasBegun ==> r == Err(InvalidOperation)
    ensures r.Ok? && b.buffer == [] ==> r.value == b
    ensures r.Ok? && b.buffer != [] ==>
              && r.value == b.(buffer := [], trace := r.value.trace)
              && r.value.trace == b.trace + [DrawCall(b.ptype, |b.buffer| / b.vertsPerPrimitive, b.buffer[..PrimitiveStart(b)])]
              && (|b.buffer| / b.vertsPerPrimitive) * b.vertsPerPrimitive == PrimitiveStart(b)
  {
    if !b.hasBegun then Err(InvalidOperation)
    else if b.buffer == [] then Ok(b)
    else if b.vertsPerPrimitive == 0 then Err(DivideByZero)
    else
      var count := |b.buffer| / b.vertsPerPrimitive;
      Ok(b.(buffer := [], trace := b.trace + [DrawCall(b.ptype, count, b.buffer[..count * b.vertsPerPrimitive])]))
  }

  /** PrimitiveBatch.AddVertex: refused before Begin. When the buffer is at a
      primitive boundary and the next primitive might not fit, the buffer is
      flushed first; then the vertex is written at the buffer position, which
      throws if that position is past the end. */
  function AddVertex(b: Batch, v: Vertex): (r: Result<Batch>)
    ensures !b.hasBegun ==> r == Err(InvalidOperation)
    ensures Valid(b) && b.hasBegun ==> r.Ok?
    ensures r.Ok? ==> r.value.hasBegun && r.value.ptype == b.ptype && r.value.vertsPerPrimitive == b.vertsPerPrimitive
    ensures r.Ok? ==> r.value.disposed == b.disposed && r.value.effectReleases == b.effectReleases
    ensures r.Ok? ==>
              || (r.value.trace == b.trace && r.value.buffer == b.buffer + [v])
              || (&& b.vertsPerPrimitive > 0 && |b.buffer| % b.vertsPerPrimitive == 0
                  && |b.buffer| + b.vertsPerPrimitive >= BufferSize
                  && r.value.trace == b.trace + [DrawCall(b.ptype, |b.buffer| / b.vertsPerPrimitive, b.buffer)]
                  && r.value.buffer == [v])
  {
    if !b.hasBegun then Err(InvalidOperation)
    else if b.vertsPerPrimitive == 0 then Err(DivideByZero)
    else
      var pos := |b.buffer|;
      var boundary := pos % b.vertsPerPrimitive == 0 && pos + b.vertsPerPrimitive >= BufferSize;
      var flushed := if boundary then Flush(b) else Ok(b);
      match flushed
      case Err(e) => Err(e)
      case Ok(b') =>
        WholeBufferAtBoundary(b);
        assert boundary ==> PrimitiveStart(b) == pos && b.buffer[..PrimitiveStart(b)] == b.buffer;
        assert boundary && pos > 0 ==> b'.trace == b.trace + [DrawCall(b.ptype, pos / b.vertsPerPrimitive, b.buffer)] && b'.buffer == [];
        assert !(boundary && pos > 0) ==> b' == b;
        if |b'.buffer| >= BufferSize then Err(IndexOutOfRange)
        else Ok(b'.(buffer := b'.buffer + [v]))
  }

  /** PrimitiveBatch.End: refused before Begin; otherwise flushes and closes
      the pair. */
  function End(b: Batch): (r: Result<Batch>)
    ensures !b.hasBegun ==> r == Err(InvalidOperation)
    ensures Valid(b) && b.hasBegun ==> r.Ok?
    ensures r.Ok? ==> !r.value.hasBegun && r.value.buffer == []
    ensures r.Ok? && Valid(b) ==> Drawn(r.value.trace) == Drawn(b.trace) + b.buffer[..PrimitiveStart(b)]
    ensures r.Ok? ==> r.value.disposed == b.disposed && r.value.effectReleases == b.effectReleases
  {
    if !b.hasBegun then Err(InvalidOperation)
    else if b.vertsPerPrimitive == 0 then (if b.buffer == [] then Ok(b.(hasBegun := false)) else Err(DivideByZero))
    else match Flush(b)
      case Err(e) => Err(e)
      case Ok(b') =>
        FlushDrawn(b);
        Ok(b'.(hasBegun := false))
  }

  /** A flush hands the device exactly the whole primitives of the buffer. */
  lemma FlushDrawn(b: Batch)
    requires b.vertsPerPrimitive > 0 && Flush(b).Ok?
    ensures Drawn(Flush(b).value.trace) == Drawn(b.trace) + b.buffer[..PrimitiveStart(b)]
  {
    if b.buffer != [] {
      var t := Flush(b).value.trace;
      assert t == b.trace + [t[|b.trace|]];
      DrawnAppend(b.trace, t[|b.trace|]);
    }
  }

  /** PrimitiveBatch.Dispose(disposing): with disposing set and not yet
      disposed, releases the effect and marks the batch disposed; otherwise
      does nothing. Dispose() is Dispose(true). */
  function Dispose(b: Batch, disposing: bool): (r: Batch)
    ensures disposing ==> r.disposed
    ensures !disposing ==> r == b
    ensures r.effectReleases == b.effectReleases + (if disposing && !b.disposed then 1 else 0)
    ensures r.(disposed := b.disposed, effectReleases := b.effectReleases) == b
  {
    if disposing && !b.disposed then b.(disposed := true, effectReleases := b.effectReleases + 1) else b
  }

  /** A second Dispose changes nothing, so the effect is released at most once. */
  lemma DisposeIdempotent(b: Batch, disposing: bool)
    requires Valid(b)
    ensures Dispose(Dispose(b, true), disposing) == Dispose(b, true)
    ensures Valid(Dispose(b, disposing)) && Dispose(b, disposing).effectReleases <= 1
  {
  }

  /** Begin, AddVertex, Flush, End and Dispose keep the batch valid. */
  lemma OperationsKeepValid(b: Batch, t: PrimitiveType, v: Vertex)
    requires Valid(b)
    ensures Begin(b, t).Ok? ==> Valid(Begin(b, t).value)
    ensures AddVertex(b, v).Ok? ==> Valid(AddVertex(b, v).value)
    ensures End(b).Ok? ==> Valid(End(b).value)
    ensures Valid(Dispose(b, true))
  {
    AddVertexKeepsValid(b, v);
    EndKeepsValid(b);
  }

  lemma AddVertexKeepsValid(b: Batch, v: Vertex)
    requires Valid(b)
    ensures AddVertex(b, v).Ok? ==> Valid(AddVertex(b, v).value)
  {
    if AddVertex(b, v).Ok? {
      var r := AddVertex(b, v).value;
      if r.trace != b.trace {
        assert |b.buffer| % b.vertsPerPrimitive == 0;
        assert WholePrimitives(r.trace[|b.trace|]);
      } else {
        AddWithinPrimitive(b, v);
      }
    }
  }

  lemma EndKeepsValid(b: Batch)
    requires Valid(b)
    ensures End(b).Ok? ==> Valid(End(b).value)
  {
    if End(b).Ok? && b.buffer != [] {
      var f := Flush(b).value;
      assert WholePrimitives(f.trace[|b.trace|]);
    }
  }

  /** Writing without a flush keeps the primitive being filled inside the
      buffer: a new primitive starts only when it fits, and the rest of it
      lands before that primitive's end. */
  lemma AddWithinPrimitive(b: Batch, v: Vertex)
    requires Valid(b) && b.hasBegun
    requires AddVertex(b, v).Ok? && AddVertex(b, v).value.trace == b.trace
    ensures Valid(AddVertex(b, v).value)
  {
    var r := AddVertex(b, v).value;
    var n := b.vertsPerPrimitive;
    var p := |b.buffer|;
    assert r.buffer == b.buffer + [v];
    if n == 2 {
      assert p % 2 == 0 ==> p + 2 < BufferSize;
    } else {
      assert n == 3;
      assert p % 3 == 0 ==> p + 3 < BufferSize;
    }
  }

  /** At a primitive boundary the whole primitives are the whole buffer. */
  lemma WholeBufferAtBoundary(b: Batch)
    requires b.vertsPerPrimitive > 0
    ensures |b.buffer| % b.vertsPerPrimitive == 0 ==>
              (|b.buffer| / b.vertsPerPrimitive) * b.vertsPerPrimitive == |b.buffer| == PrimitiveStart(b)
  {
  }

  /** Feeds vertices to AddVertex in order, stopping at the first failure. */
  function AddVertices(b: Batch, vs: seq<Vertex>): (r: Result<Batch>)
    ensures vs != [] && !b.hasBegun ==> r == Err(InvalidOperation)
    decreases |vs|
  {
    if vs == [] then Ok(b)
    else match AddVertex(b, vs[0])
      case Err(e) => Err(e)
      case Ok(b') => AddVertices(b', vs[1..])
  }

  /** One AddVertex inside a Begin/End pair loses no vertex: the vertex is
      appended to what was drawn and buffered, and the buffer either grows by
      one or, after a flush at a primitive boundary, holds just that vertex. */
  lemma AddVertexConserves(b: Batch, v: Vertex)
    requires Valid(b) && b.hasBegun
    ensures var r := AddVertex(b, v).value;
            && Valid(r)
            && Drawn(r.trace) + r.buffer == Drawn(b.trace) + b.buffer + [v]
            && (|r.buffer| == |b.buffer| + 1 || (|b.buffer| % b.vertsPerPrimitive == 0 && |r.buffer| == 1))
  {
    var r := AddVertex(b, v).value;
    AddVertexKeepsValid(b, v);
    if r.trace != b.trace {
      DrawnAppend(b.trace, DrawCall(b.ptype, |b.buffer| / b.vertsPerPrimitive, b.buffer));
    }
  }

  /** Inside a Begin/End pair adding vertices never fails and keeps the batch
      valid, begun, and of the same primitive type. */
  lemma {:induction false} AddVerticesKeepValid(b: Batch, vs: seq<Vertex>)
    requires Valid(b) && b.hasBegun
    ensures AddVertices(b, vs).Ok?
    ensures var r := AddVertices(b, vs).value;
            && Valid(r) && r.hasBegun && r.ptype == b.ptype && r.vertsPerPrimitive == b.vertsPerPrimitive
            && r.disposed == b.disposed
    decreases |vs|
  {
    if vs != [] {
      AddVertexConserves(b, vs[0]);
      AddVerticesKeepValid(AddVertex(b, vs[0]).value, vs[1..]);
    }
  }

  /** Inside a Begin/End pair no vertex is lost: every vertex added is either
      drawn or still buffered, in order, and the buffered count stays in step
      with the count added modulo the vertices per primitive, because an
      automatic flush happens only at a primitive boundary. */
  lemma {:induction false} AddVerticesConserve(b: Batch, vs: seq<Vertex>)
    requires Valid(b) && b.hasBegun
    ensures AddVertices(b, vs).Ok?
    ensures var r := AddVertices(b, vs).value;
            && Drawn(r.trace) + r.buffer == Drawn(b.trace) + b.buffer + vs
    decreases |vs|
  {
    AddVerticesKeepValid(b, vs);
    if vs != [] {
      var b' := AddVertex(b, vs[0]).value;
      AddVertexConserves(b, vs[0]);
      AddVerticesConserve(b', vs[1..]);
      assert Drawn(b'.trace) + b'.buffer + vs[1..] == Drawn(b.trace) + b.buffer + vs by {
        assert vs == [vs[0]] + vs[1..];
      }
    }
  }

  /** The buffered count stays in step with the count added, modulo the
      vertices per primitive: an automatic flush happens only at a primitive
      boundary. */
  lemma {:induction false} AddVerticesPhase(b: Batch, vs: seq<Vertex>)
    requires Valid(b) && b.hasBegun
    ensures AddVertices(b, vs).Ok?
    ensures (|b.buffer| + |vs|) % b.vertsPerPrimitive == |AddVertices(b, vs).value.buffer| % b.vertsPerPrimitive
    decreases |vs|
  {
    AddVerticesKeepValid(b, vs);
    if vs != [] {
      var b' := AddVertex(b, vs[0]).value;
      AddVertexConserves(b, vs[0]);
      AddVerticesPhase(b', vs[1..]);
      PhaseShift(|b.buffer|, |b'.buffer|, |vs| - 1, b.vertsPerPrimitive);
    }
  }

  /** Restarting the count at one from a multiple of n, or counting on by
      one, keeps the count modulo n. */
  lemma PhaseShift(p: int, p': int, q: int, n: int)
    requires n == 2 || n == 3
    requires p' == p + 1 || (p % n == 0 && p' == 1)
    ensures (p + 1 + q) % n == (p' + q) % n
  {
  }

  /** A whole Begin/End pair: begun on a line or triangle list, fed whole
      primitives, and ended, the batch draws exactly the vertices fed, in
      order, and is ready for the next Begin. */
  lemma {:induction false} SessionDrawsAll(b: Batch, t: PrimitiveType, vs: seq<Vertex>)
    requires Valid(b) && !b.hasBegun
    requires t == LineList || t == TriangleList
    requires |vs| % NumVertsPerPrimitive(t).value == 0
    ensures Begin(b, t).Ok?
    ensures AddVertices(Begin(b, t).value, vs).Ok?
    ensures End(AddVertices(Begin(b, t).value, vs).value).Ok?
    ensures var r := End(AddVertices(Begin(b, t).value, vs).value).value;
            && Valid(r) && !r.hasBegun
            && Drawn(r.trace) == Drawn(b.trace) + vs
  {
    var b1 := Begin(b, t).value;
    assert Valid(b1) && b1.buffer == [] && b1.vertsPerPrimitive == NumVertsPerPrimitive(t).value;
    AddVerticesKeepValid(b1, vs);
    AddVerticesConserve(b1, vs);
    AddVerticesPhase(b1, vs);
    var b2 := AddVertices(b1, vs).value;
    WholeFeedEndsAtBoundary(|b1.buffer|, |vs|, |b2.buffer|, b1.vertsPerPrimitive);
    EndAtBoundary(b2);
    var r := End(b2).value;
    assert b1.trace == b.trace && b1.buffer == [];
    assert Drawn(b1.trace) + b1.buffer == Drawn(b.trace);
    assert Drawn(b2.trace) + b2.buffer == Drawn(b.trace) + vs;
    assert r.buffer == [] && Drawn(r.trace) + r.buffer == Drawn(r.trace);
  }

  /** Feeding a whole number of primitives into an empty buffer leaves the
      buffer at a primitive boundary. */
  lemma WholeFeedEndsAtBoundary(start: nat, fed: nat, left: nat, n: nat)
    requires n > 0 && start == 0 && fed % n == 0
    requires (start + fed) % n == left % n
    ensures left % n == 0
  {
  }

  /** Ending at a primitive boundary draws the whole buffer. */
  lemma EndAtBoundary(b: Batch)
    requires Valid(b) && b.hasBegun && |b.buffer| % b.vertsPerPrimitive == 0
    ensures End(b).Ok?
    ensures Valid(End(b).value) && !End(b).value.hasBegun
    ensures Drawn(End(b).value.trace) + End(b).value.buffer == Drawn(b.trace) + b.buffer
  {
    EndKeepsValid(b);
    WholeBufferAtBoundary(b);
    assert b.buffer[..PrimitiveStart(b)] == b.buffer;
  }

  /** The four corners of a rectangle as vertex positions. */
  function Corner(r: Rect, right: bool, bottom: bool, c: Color): Vertex {
    Vertex((if right then r.Right() else r.x) as real, (if bottom then r.Bottom() else r.y) as real, c)
  }

  /** The vertices DrawRectangle adds: four line segments, top, right,
      bottom and left, each given by its two end points. */
  function OutlineVertices(r: Rect, c: Color): (vs: seq<Vertex>)
    ensures |vs| == 8
    ensures forall k :: 0 <= k < 4 ==> vs[2 * k + 1] == vs[(2 * k + 2) % 8]
    ensures vs[0] == Corner(r, false, false, c) && vs[2] == Corner(r, true, false, c)
    ensures vs[4] == Corner(r, true, true, c) && vs[6] == Corner(r, false, true, c)
  {
    var tl := Corner(r, false, false, c);
    var tr := Corner(r, true, false, c);
    var br := Corner(r, true, true, c);
    var bl := Corner(r, false, true, c);
    [tl, tr, tr, br, br, bl, bl, tl]
  }

  /** The vertices DrawRectangleSolid adds: two triangles, upper-right and
      lower-left, that share the diagonal from top-left to bottom-right. */
  function SolidVertices(r: Rect, c: Color): (vs: seq<Vertex>)
    ensures |vs| == 6
    ensures vs[0] == vs[5] == Corner(r, false, false, c) && vs[2] == vs[3] == Corner(r, true, true, c)
    ensures vs[1] == Corner(r, true, false, c) && vs[4] == Corner(r, false, true, c)
  {
    var tl := Corner(r, false, false, c);
    var tr := Corner(r, true, false, c);
    var br := Corner(r, true, true, c);
    var bl := Corner(r, false, true, c);
    [tl, tr, br, br, bl, tl]
  }

  /** PrimitiveBatch.DrawRectangle and DrawRectangleSolid. */
  function DrawRectangle(b: Batch, r: Rect, c: Color): (res: Result<Batch>)
    ensures !b.hasBegun ==> res == Err(InvalidOperation)
  {
    AddVertices(b, OutlineVertices(r, c))
  }

  function DrawRectangleSolid(b: Batch, r: Rect, c: Color): (res: Result<Batch>)
    ensures !b.hasBegun ==> res == Err(InvalidOperation)
  {
    AddVertices(b, SolidVertices(r, c))
  }

  /** Inside a Begin/End pair the outline adds exactly 8 vertices (four whole
      line-list primitives) and the solid rectangle exactly 6 (two whole
      triangle-list primitives), none lost. */
  lemma RectangleVertexCounts(b: Batch, r: Rect, c: Color)
    requires Valid(b) && b.hasBegun
    ensures DrawRectangle(b, r, c).Ok? && DrawRectangleSolid(b, r, c).Ok?
    ensures var o := DrawRectangle(b, r, c).value;
            && |Drawn(o.trace) + o.buffer| == |Drawn(b.trace) + b.buffer| + 8
            && Drawn(o.trace) + o.buffer == Drawn(b.trace) + b.buffer + OutlineVertices(r, c)
    ensures var s := DrawRectangleSolid(b, r, c).value;
            && |Drawn(s.trace) + s.buffer| == |Drawn(b.trace) + b.buffer| + 6
            && Drawn(s.trace) + s.buffer == Drawn(b.trace) + b.buffer + SolidVertices(r, c)
    ensures |OutlineVertices(r, c)| % 2 == 0 && |SolidVertices(r, c)| % 3 == 0
  {
    AddVerticesKeepValid(b, OutlineVertices(r, c));
    AddVerticesKeepValid(b, SolidVertices(r, c));
    AddVerticesConserve(b, OutlineVertices(r, c));
    AddVerticesConserve(b, SolidVertices(r, c));
  }
}
