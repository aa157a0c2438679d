/**
 Properties of the Align Vertices operator, each derived from the per-vertex
 reference definition `AlignedVertex` through `AlignEffect`.
 */
module AlignProperties {
  import opened Vertices
  import opened AlignOperator

  /** The reference vertex keeps its coordinate and flag, whatever the mask. */
  lemma ReferenceUnchanged<T>(mesh: Mesh<T>, active: Active, mask: AxisMask)
    requires ValidActive(mesh, active)
    requires Align(mesh, active, mask).Finished?
    ensures active.VertexAt?
    ensures Align(mesh, active, mask).mesh[active.index] == mesh[active.index]
  {
    AlignEffect(mesh, active, mask);
  }

  /** No call, successful or not, modifies an unselected vertex. */
  lemma UnselectedUnchanged<T>(mesh: Mesh<T>, active: Active, mask: AxisMask, j: nat)
    requires ValidActive(mesh, active)
    requires j < |mesh| && !mesh[j].select
    ensures |MeshAfter(mesh, Align(mesh, active, mask))| == |mesh|
    ensures MeshAfter(mesh, Align(mesh, active, mask))[j] == mesh[j]
  {
    if Align(mesh, active, mask).Finished? {
      AlignEffect(mesh, active, mask);
    }
  }

  /**
   After a successful call every selected vertex other than the reference
   holds, on every enabled axis, the reference's value from before the call.
   */
  lemma EnabledAxesCopied<T>(mesh: Mesh<T>, active: Active, mask: AxisMask, j: nat, a: Axis)
    requires ValidActive(mesh, active)
    requires Align(mesh, active, mask).Finished?
    requires active.VertexAt? && j != active.index
    requires j < |mesh| && mesh[j].select && mask.Enabled(a)
    ensures Get(Align(mesh, active, mask).mesh[j].co, a) == Get(mesh[active.index].co, a)
  {
    AlignEffect(mesh, active, mask);
  }

  /**
   No call changes a component on a disabled axis, nor any selection flag,
   nor the number of vertices.
   */
  lemma DisabledAxesKept<T>(mesh: Mesh<T>, active: Active, mask: AxisMask, j: nat, a: Axis)
    requires ValidActive(mesh, active)
    requires j < |mesh| && !mask.Enabled(a)
    ensures |MeshAfter(mesh, Align(mesh, active, mask))| == |mesh|
    ensures MeshAfter(mesh, Align(mesh, active, mask))[j].select == mesh[j].select
    ensures Get(MeshAfter(mesh, Align(mesh, active, mask))[j].co, a) == Get(mesh[j].co, a)
  {
    if Align(mesh, active, mask).Finished? {
      AlignEffect(mesh, active, mask);
    }
  }

  /** With every axis disabled a successful call returns the mesh it was given. */
  lemma NoAxesIsIdentity<T>(mesh: Mesh<T>, active: Active)
    requires ValidActive(mesh, active)
    requires AnySelected(mesh) && active.VertexAt?
    ensures Align(mesh, active, NoAxes) == Finished(mesh)
  {
    var r := Align(mesh, active, NoAxes);
    AlignEffect(mesh, active, NoAxes);
    forall j | 0 <= j < |mesh|
      ensures r.mesh[j] == mesh[j]
    {
      OverwriteNoAxes(mesh[j].co, mesh[active.index].co);
    }
  }

  /**
   Running the operator on its own successful output, with the same active
   element and mask, finishes again and changes nothing.
   */
  lemma AlignIdempotent<T>(mesh: Mesh<T>, active: Active, mask: AxisMask)
    requires ValidActive(mesh, active)
    requires Align(mesh, active, mask).Finished?
    ensures ValidActive(Align(mesh, active, mask).mesh, active)
    ensures Align(Align(mesh, active, mask).mesh, active, mask) == Align(mesh, active, mask)
  {
    var once := Align(mesh, active, mask).mesh;
    AlignEffect(mesh, active, mask);
    var ref := active.index;
    var w :| 0 <= w < |mesh| && mesh[w].select;
    assert once[w].select;
    var twice := Align(once, active, mask);
    AlignEffect(once, active, mask);
    assert once[ref] == mesh[ref];
    forall j | 0 <= j < |once|
      ensures twice.mesh[j] == once[j]
    {
      if mesh[j].select && j != ref {
        WriteVertexIdempotent(mesh[j], mesh[ref].co, mask);
      }
    }
  }

  /**
   The order in which the selected vertices are visited does not matter:
   any two visiting orders listing the same indices give the same mesh.
   */
  lemma {:induction false} AlignEachOrderIrrelevant<T>(mesh: Mesh<T>, o1: seq<nat>, o2: seq<nat>, ref: nat, snap: Vec3<T>, mask: AxisMask)
    requires forall k :: 0 <= k < |o1| ==> o1[k] < |mesh|
    requires forall i :: i in o1 <==> i in o2
    ensures forall k :: 0 <= k < |o2| ==> o2[k] < |mesh|
    ensures AlignEach(mesh, o1, ref, snap, mask) == AlignEach(mesh, o2, ref, snap, mask)
  {
    assert forall k :: 0 <= k < |o2| ==> o2[k] in o1;
    var r1 := AlignEach(mesh, o1, ref, snap, mask);
    var r2 := AlignEach(mesh, o2, ref, snap, mask);
    forall j | 0 <= j < |mesh|
      ensures r1[j] == r2[j]
    {
      AlignEachAt(mesh, o1, ref, snap, mask, j);
      AlignEachAt(mesh, o2, ref, snap, mask, j);
    }
  }

  /**
   The vertex skipped is chosen by identity: a selected vertex standing at the
   reference's position but with another index is still written. Because the
   written values are the reference's own, skipping such a vertex would give
   the same coordinates.
   */
  lemma CoincidentVertexWritten<T>(mesh: Mesh<T>, active: Active, mask: AxisMask, j: nat)
    requires ValidActive(mesh, active)
    requires Align(mesh, active, mask).Finished?
    requires active.VertexAt? && j != active.index
    requires j < |mesh| && mesh[j].select && mesh[j].co == mesh[active.index].co
    ensures Align(mesh, active, mask).mesh[j] == WriteVertex(mesh[j], mesh[active.index].co, mask)
    ensures Align(mesh, active, mask).mesh[j] == mesh[j]
  {
    AlignEffect(mesh, active, mask);
    OverwriteSelf(mesh[j].co, mask);
  }

  /**
   The worked scenario: A = (1,2,3), B = (4,5,6) and the reference R = (9,9,9),
   all selected, aligned on X and Z, give A = (9,2,9), B = (9,5,9), R unchanged.
   */
  lemma WorkedScenario()
    ensures Align([Vertex(true, Vec3(1, 2, 3)), Vertex(true, Vec3(4, 5, 6)), Vertex(true, Vec3(9, 9, 9))],
                  VertexAt(2), AxisMask(true, false, true))
         == Finished([Vertex(true, Vec3(9, 2, 9)), Vertex(true, Vec3(9, 5, 9)), Vertex(true, Vec3(9, 9, 9))])
  {
  }
}
