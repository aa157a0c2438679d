/**
 The Align Vertices operator: filter the selected vertices, check the two
 guards (empty selection, no vertex reference), snapshot the reference
 coordinate, and overwrite the enabled components of every other selected
 vertex with the snapshot.

 The editable mesh read from and written back to the host becomes the input
 mesh and the mesh carried by `Finished`; the warning report becomes an
 outcome variant.
 */
module AlignOperator {
  import opened Vertices

  /** The active element of the selection history. */
  datatype Active = NoneActive | NonVertex | VertexAt(index: nat)

  /** What one call of the alignment routine ends with. */
  datatype Outcome<T> =
    | WarnNoSelection
    | WarnNoReference
    | Finished(mesh: Mesh<T>)

  const NoSelectionMessage := "No vertices selected."
  const NoReferenceMessage := "No reference vertex selected."

  /**
   The selection history's active vertex is a vertex of the same mesh, so an
   active vertex index always lies inside it.
   */
  predicate ValidActive<T>(mesh: Mesh<T>, active: Active) {
    active.VertexAt? ==> active.index < |mesh|
  }

  predicate AnySelected<T>(mesh: Mesh<T>) {
    exists i :: 0 <= i < |mesh| && mesh[i].select
  }

  /** Indices of the selected vertices from position `from` on, in mesh order. */
  function SelectedFrom<T>(mesh: Mesh<T>, from: nat): (r: seq<nat>)
    requires from <= |mesh|
    ensures forall k :: 0 <= k < |r| ==> from <= r[k] < |mesh| && mesh[r[k]].select
    ensures forall i :: from <= i < |mesh| && mesh[i].select ==> i in r
    ensures forall k, l :: 0 <= k < l < |r| ==> r[k] < r[l]
    decreases |mesh| - from
  {
    if from == |mesh| then []
    else if mesh[from].select then [from] + SelectedFrom(mesh, from + 1)
    else SelectedFrom(mesh, from + 1)
  }

  /** The selected vertices, in mesh order, each listed once. */
  function Selected<T>(mesh: Mesh<T>): (r: seq<nat>)
    ensures forall k :: 0 <= k < |r| ==> r[k] < |mesh| && mesh[r[k]].select
    ensures forall i :: 0 <= i < |mesh| ==> (i in r <==> mesh[i].select)
    ensures forall k, l :: 0 <= k < l < |r| ==> r[k] < r[l]
    ensures |r| == 0 <==> !AnySelected(mesh)
  {
    var r := SelectedFrom(mesh, 0);
    assert |r| > 0 ==> mesh[r[0]].select;
    r
  }

  /**
   The loop over the selected vertices: visiting the indices of `order` in
   turn, every index other than `ref` has its vertex overwritten by the
   masked snapshot.
   */
  function AlignEach<T>(mesh: Mesh<T>, order: seq<nat>, ref: nat, snap: Vec3<T>, mask: AxisMask): (r: Mesh<T>)
    requires forall k :: 0 <= k < |order| ==> order[k] < |mesh|
    ensures |r| == |mesh|
    decreases |order|
  {
    if order == [] then mesh
    else
      var i := order[0];
      var next := if i != ref then mesh[i := WriteVertex(mesh[i], snap, mask)] else mesh;
      AlignEach(next, order[1..], ref, snap, mask)
  }

  /**
   The alignment routine. The selection guard comes first, then the
   reference guard; the reference need not itself be selected.
   */
  function Align<T>(mesh: Mesh<T>, active: Active, mask: AxisMask): (r: Outcome<T>)
    requires ValidActive(mesh, active)
    ensures r.WarnNoSelection? <==> !AnySelected(mesh)
    ensures r.WarnNoReference? <==> AnySelected(mesh) && !active.VertexAt?
    ensures r.Finished? <==> AnySelected(mesh) && active.VertexAt?
    ensures r.Finished? ==> |r.mesh| == |mesh|
  {
    var selected := Selected(mesh);
    if |selected| == 0 then WarnNoSelection
    else if !active.VertexAt? then WarnNoReference
    else
      var snap := mesh[active.index].co;
      Finished(AlignEach(mesh, selected, active.index, snap, mask))
  }

  /** The mesh the host holds after the call: unchanged unless the routine finished. */
  function MeshAfter<T>(mesh: Mesh<T>, outcome: Outcome<T>): Mesh<T> {
    if outcome.Finished? then outcome.mesh else mesh
  }

  /**
   Reference definition of one vertex after a successful alignment against
   the vertex at `ref`: a selected vertex other than the reference takes the
   reference's enabled components; every other vertex is as it was.
   */
  function AlignedVertex<T>(mesh: Mesh<T>, ref: nat, mask: AxisMask, j: nat): Vertex<T>
    requires ref < |mesh| && j < |mesh|
  {
    if mesh[j].select && j != ref then WriteVertex(mesh[j], mesh[ref].co, mask) else mesh[j]
  }

  /** The loop's effect on one vertex: written once if it is listed and is not the reference. */
  lemma {:induction false} AlignEachAt<T>(mesh: Mesh<T>, order: seq<nat>, ref: nat, snap: Vec3<T>, mask: AxisMask, j: nat)
    requires forall k :: 0 <= k < |order| ==> order[k] < |mesh|
    requires j < |mesh|
    ensures AlignEach(mesh, order, ref, snap, mask)[j]
         == if j in order && j != ref then WriteVertex(mesh[j], snap, mask) else mesh[j]
    decreases |order|
  {
    if order != [] {
      var i := order[0];
      var rest := order[1..];
      var next := if i != ref then mesh[i := WriteVertex(mesh[i], snap, mask)] else mesh;
      assert forall k :: 0 <= k < |rest| ==> rest[k] == order[k + 1];
      AlignEachAt(next, rest, ref, snap, mask, j);
      assert j in order <==> j == i || j in rest;
      if j == i && j != ref && j in rest {
        WriteVertexIdempotent(mesh[j], snap, mask);
      }
    }
  }

  /** A successful alignment leaves every vertex as the reference definition describes. */
  lemma AlignEffect<T>(mesh: Mesh<T>, active: Active, mask: AxisMask)
    requires ValidActive(mesh, active)
    requires Align(mesh, active, mask).Finished?
    ensures active.VertexAt?
    ensures forall j :: 0 <= j < |mesh| ==>
              Align(mesh, active, mask).mesh[j] == AlignedVertex(mesh, active.index, mask, j)
  {
    var selected := Selected(mesh);
    var ref := active.index;
    forall j | 0 <= j < |mesh|
      ensures Align(mesh, active, mask).mesh[j] == AlignedVertex(mesh, ref, mask, j)
    {
      AlignEachAt(mesh, selected, ref, mesh[ref].co, mask, j);
    }
  }

  /** The three alignment flags stored on the scene. */
  datatype SceneProps = SceneProps(alignVerticesX: bool, alignVerticesY: bool, alignVerticesZ: bool)

  /**
   One run of the operator: the warnings it reported and the mesh afterwards.
   The operator returns FINISHED on every path, so a run carries no status.
   */
  datatype Run<T> = Run(warnings: seq<string>, mesh: Mesh<T>)

  /**
   The operator's entry point: reads the scene's three flags, runs the
   alignment routine, and reports at most one warning.
   */
  function Execute<T>(scene: SceneProps, mesh: Mesh<T>, active: Active): (r: Run<T>)
    requires ValidActive(mesh, active)
    ensures r.warnings == [NoSelectionMessage] <==> !AnySelected(mesh)
    ensures r.warnings == [NoReferenceMessage] <==> AnySelected(mesh) && !active.VertexAt?
    ensures AnySelected(mesh) && active.VertexAt? ==> r.warnings == []
    ensures r.warnings != [] ==> r.mesh == mesh
    ensures r.warnings == [] ==>
              && active.VertexAt?
              && |r.mesh| == |mesh|
              && forall j :: 0 <= j < |mesh| ==>
                   r.mesh[j] == AlignedVertex(mesh, active.index,
                                              AxisMask(scene.alignVerticesX, scene.alignVerticesY, scene.alignVerticesZ), j)
  {
    var mask := AxisMask(scene.alignVerticesX, scene.alignVerticesY, scene.alignVerticesZ);
    var outcome := Align(mesh, active, mask);
    match outcome
    case WarnNoSelection => Run([NoSelectionMessage], mesh)
    case WarnNoReference => Run([NoReferenceMessage], mesh)
    case Finished(m) =>
      AlignEffect(mesh, active, mask);
      Run([], m)
  }
}
