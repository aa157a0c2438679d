/**
 Data model of the Align Vertices operator: vertex coordinates, mesh vertices,
 the three per-axis enable flags, and the masked overwrite of one coordinate by
 the reference coordinate.

 Coordinates are only ever copied, never computed, so the component type is a
 type parameter `T`.
 */
module Vertices {

  /** A 3-component coordinate (`vert.co`). */
  datatype Vec3<T> = Vec3(x: T, y: T, z: T)

  /** One mesh vertex: its selection flag and its coordinate. */
  datatype Vertex<T> = Vertex(select: bool, co: Vec3<T>)

  /** A mesh's vertex list; a vertex's identity is its index. */
  type Mesh<T> = seq<Vertex<T>>

  datatype Axis = X | Y | Z

  /** The three axis-enable flags `align_x`, `align_y`, `align_z`. */
  datatype AxisMask = AxisMask(alignX: bool, alignY: bool, alignZ: bool)
  {
    predicate Enabled(a: Axis) {
      match a
      case X => alignX
      case Y => alignY
      case Z => alignZ
    }
  }

  /** The mask that enables no axis. */
  const NoAxes := AxisMask(false, false, false)

  /** The component of `v` on axis `a`. */
  function Get<T>(v: Vec3<T>, a: Axis): T {
    match a
    case X => v.x
    case Y => v.y
    case Z => v.z
  }

  /**
   The masked copy of the snapshot `snap` onto `co`: every enabled axis takes
   the snapshot's component, every disabled axis keeps its own.
   */
  function Overwrite<T>(co: Vec3<T>, snap: Vec3<T>, mask: AxisMask): (r: Vec3<T>)
    ensures forall a: Axis :: mask.Enabled(a) ==> Get(r, a) == Get(snap, a)
    ensures forall a: Axis :: !mask.Enabled(a) ==> Get(r, a) == Get(co, a)
  {
    Vec3(if mask.alignX then snap.x else co.x,
         if mask.alignY then snap.y else co.y,
         if mask.alignZ then snap.z else co.z)
  }

  /** Writing the same snapshot twice is the same as writing it once. */
  lemma OverwriteIdempotent<T>(co: Vec3<T>, snap: Vec3<T>, mask: AxisMask)
    ensures Overwrite(Overwrite(co, snap, mask), snap, mask) == Overwrite(co, snap, mask)
  {
  }

  /** With no axis enabled the coordinate is left as it was. */
  lemma OverwriteNoAxes<T>(co: Vec3<T>, snap: Vec3<T>)
    ensures Overwrite(co, snap, NoAxes) == co
  {
  }

  /** Writing a snapshot onto the snapshot itself changes nothing, whatever the mask. */
  lemma OverwriteSelf<T>(snap: Vec3<T>, mask: AxisMask)
    ensures Overwrite(snap, snap, mask) == snap
  {
  }

  /** The vertex after its coordinate has received the masked snapshot; its selection flag is kept. */
  function WriteVertex<T>(v: Vertex<T>, snap: Vec3<T>, mask: AxisMask): (r: Vertex<T>)
    ensures r.select == v.select
    ensures forall a: Axis :: Get(r.co, a) == (if mask.Enabled(a) then Get(snap, a) else Get(v.co, a))
  {
    v.(co := Overwrite(v.co, snap, mask))
  }

  /** Writing a vertex twice with the same snapshot is the same as writing it once. */
  lemma WriteVertexIdempotent<T>(v: Vertex<T>, snap: Vec3<T>, mask: AxisMask)
    ensures WriteVertex(WriteVertex(v, snap, mask), snap, mask) == WriteVertex(v, snap, mask)
  {
  }
}
