# Align Vertices — a Dafny model

This project models the Align Vertices operator of a Blender add-on. In mesh
edit mode, the operator snaps the selected vertices onto a reference vertex,
one axis at a time. The reference is the active element of the selection
history. The operator:

1. keeps only the selected vertices;
2. warns "No vertices selected." and stops if there are none;
3. warns "No reference vertex selected." and stops if the active element is
   missing or is not a vertex;
4. copies the reference's coordinate into a snapshot;
5. for every selected vertex that is not the reference, compared by identity,
   overwrites exactly the enabled components (X, Y, Z) with the snapshot's.

The model is functional:

- A mesh is a `seq<Vertex<T>>`. A vertex is a selection flag plus a
  `Vec3<T>` coordinate, and a vertex's identity is its index. Coordinates are
  only ever copied, so their component type is a type parameter.
- The selection history's active element is `Active`: `NoneActive`,
  `NonVertex` or `VertexAt(index)`.
- The routine is the pure function `AlignOperator.Align`. It returns
  `WarnNoSelection`, `WarnNoReference` or `Finished(mesh)`.
- The loop over the selected vertices is the left fold `AlignEach` over the
  list of selected indices, in mesh order.
- `AlignedVertex` is an independent, per-vertex reference definition of the
  result. `AlignEffect` proves that the fold agrees with it.
- `Execute` models the operator entry point. It reads the three scene flags,
  runs the routine, and reports the warning, if any. The operator returns
  FINISHED on every path (Align_Vertices.py:27), so the model carries no status.

Modules:

- `Vertices` (vertices.dfy): coordinates, vertices, axis masks and the masked
  overwrite.
- `AlignOperator` (align.dfy): the selection filter, the two guards, the loop,
  the routine and the operator entry point.
- `AlignProperties` (properties.dfy): the properties of the routine.

Two modelling choices follow from the code:

- The code never checks that the reference vertex is selected
  (Align_Vertices.py:38-41). So `Align` finishes whenever some vertex is
  selected and the active element is a vertex, selected or not.
- The code writes coordinates in place. The model returns the new vertex
  sequence instead. `MeshAfter` is the mesh the host holds after the call: the
  input mesh after either early return (Align_Vertices.py:36, 41), which skips
  the mesh update, and the returned mesh after success.

## Model

| member | source | states |
|---|---|---|
| Vertices.Overwrite | Align_Vertices.py:47-52 | every enabled axis takes the snapshot's component; every disabled axis keeps the vertex's own |
| Vertices.OverwriteIdempotent | Align_Vertices.py:47-52 | writing the same snapshot twice equals writing it once |
| Vertices.OverwriteNoAxes | Align_Vertices.py:47-52 | with all three flags off the coordinate is unchanged |
| Vertices.OverwriteSelf | Align_Vertices.py:47-52 | writing a snapshot onto an equal coordinate changes nothing, whatever the mask |
| Vertices.WriteVertex | Align_Vertices.py:45-52 | a written vertex keeps its selection flag; on each axis it holds the snapshot's value if the axis is enabled, and its own value otherwise |
| Vertices.WriteVertexIdempotent | Align_Vertices.py:45-52 | writing a vertex twice with the same snapshot equals writing it once |
| AlignOperator.SelectedFrom | Align_Vertices.py:32 | from a start position on, lists exactly the indices of the selected vertices, in strictly increasing order |
| AlignOperator.Selected | Align_Vertices.py:32 | an index is listed iff its vertex is selected; the list is strictly increasing, so no vertex appears twice; it is empty iff no vertex is selected |
| AlignOperator.AlignEach | Align_Vertices.py:45-52 | the loop keeps the number of vertices; what each vertex holds afterwards is stated by AlignEachAt |
| AlignOperator.AlignEachAt | Align_Vertices.py:45-52 | after the loop, a vertex is the snapshot-written vertex if it was visited and is not the reference, and is untouched otherwise |
| AlignOperator.Align | Align_Vertices.py:29-54 | warns "no selection" iff no vertex is selected, whatever the active element, so this guard comes first; warns "no reference" iff some vertex is selected but the active element is not a vertex; otherwise finishes, even if the reference is unselected, with a mesh of the same length |
| AlignOperator.AlignEffect | Align_Vertices.py:43-52 | after success each vertex equals the per-vertex reference definition: selected non-reference vertices take the reference's pre-call value on enabled axes; all other vertices are unchanged |
| AlignOperator.Execute | Align_Vertices.py:20-27 | the single warning message matches the failing guard, and the mesh is then unchanged; when both guards pass there is no warning and every vertex is aligned under the scene's three flags |
| AlignProperties.ReferenceUnchanged | Align_Vertices.py:43-46 | after success the reference vertex is exactly as it was, whatever the mask |
| AlignProperties.UnselectedUnchanged | Align_Vertices.py:32 | no call, whether it warns or finishes, changes an unselected vertex or the number of vertices |
| AlignProperties.EnabledAxesCopied | Align_Vertices.py:43-52 | after success, each selected vertex other than the reference holds the reference's pre-call value on each enabled axis |
| AlignProperties.DisabledAxesKept | Align_Vertices.py:47-52 | no call changes a component on a disabled axis, a selection flag, or the number of vertices |
| AlignProperties.NoAxesIsIdentity | Align_Vertices.py:47-52 | with all three flags off, a call that passes both guards finishes with the input mesh unchanged |
| AlignProperties.AlignIdempotent | Align_Vertices.py:43-52 | rerunning on the successful output, with the same active element and mask, finishes with that same output |
| AlignProperties.AlignEachOrderIrrelevant | Align_Vertices.py:45-52 | any two visiting orders that list the same vertices give the same mesh |
| AlignProperties.CoincidentVertexWritten | Align_Vertices.py:46 | the skip test compares identities (indices): a selected vertex at the reference's position but with another index is still written, and ends unchanged |
| AlignProperties.WorkedScenario | Align_Vertices.py:43-52 | A=(1,2,3), B=(4,5,6) and reference R=(9,9,9), aligned on X and Z, become A=(9,2,9), B=(9,5,9), R=(9,9,9) |

## Left out

- Add-on metadata, class registration and unregistration, and the side panel's
  `draw` (Align_Vertices.py:1-5, 56-91): host plug-in glue with no logic.
- Reading and writing the edit-mode mesh (`context.edit_object`,
  `bmesh.from_edit_mesh`, `bmesh.update_edit_mesh`, lines 30-31 and 54): host
  calls. They are modelled as the input vertex sequence and the returned one.
  The exception raised when the operator runs without a mesh in edit mode
  (there is no `poll`, so `obj.data` fails at line 31) is not modelled.
- `self.report` (lines 35 and 40): modelled as the `Outcome` variants and as
  `Execute`'s warning list. The WARNING severity level is not modelled.
- The operator's own `align_x`/`align_y`/`align_z` properties (lines 16-18):
  they are declared but never read. `execute` reads the scene's flags instead.
- Scene property registration (lines 77-79) and the UNDO option (line 14):
  host state and undo machinery. The scene flags are the `SceneProps` argument.
- Floating-point semantics of `vert.co`: coordinates are only copied, so the
  component type is an uninterpreted type parameter.
- AlignOperator.Align: requires that an active vertex index lies inside the
  mesh (`ValidActive`). The selection history's active vertex always belongs to
  the edited mesh, so the source has no case for a vertex outside it.
