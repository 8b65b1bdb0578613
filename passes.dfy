/** The bind pass and the draw pass side by side: both follow the same walk of
    the default scene, so they reach the same meshes in the same order. */
module Passes {
  import opened Gltf
  import opened Gl
  import opened Binding
  import opened Drawing

  /** A bind pass that completes met only in-range nodes, so both passes are the
      per-mesh operation over the meshes of the walk, in walk order. */
  lemma SameMeshOrder(m: Model, strideOf: (Accessor, BufferView) -> int, st: BindState,
                      vbos: map<int, Handle>, rank: seq<nat>)
    requires SceneRanked(m, rank)
    requires BindSteps(m, strideOf, st, SceneWalk(m, rank)).1 == Completed
    ensures var order := MeshOrder(m, SceneWalk(m, rank));
      && BindSteps(m, strideOf, st, SceneWalk(m, rank)) == BindMeshes(m, strideOf, st, order)
      && DrawSteps(m, vbos, SceneWalk(m, rank)) == DrawMeshes(m, vbos, order)
  {
    var steps := SceneWalk(m, rank);
    BindStepsVisits(m, strideOf, st, steps);
    BindStepsByMeshes(m, strideOf, st, steps);
    DrawStepsByMeshes(m, vbos, steps);
  }

  /** The primitive's index accessor exists and reads a buffer view with a target. */
  predicate IndexInTargetView(m: Model, p: Primitive)
  {
    && 0 <= p.indices < |m.accessors|
    && 0 <= m.accessors[p.indices].bufferView < |m.bufferViews|
    && m.bufferViews[m.accessors[p.indices].bufferView].target != 0
  }

  /** After a completed bind pass, drawing with the map it built completes whenever
      every index accessor it meets reads a view with a target, and it issues
      exactly one draw per primitive of every mesh reached. */
  lemma DrawAfterBind(m: Model, strideOf: (Accessor, BufferView) -> int, st: BindState, rank: seq<nat>)
    requires SceneRanked(m, rank)
    requires BindSteps(m, strideOf, st, SceneWalk(m, rank)).1 == Completed
    requires forall i <- MeshOrder(m, SceneWalk(m, rank)), p <- m.meshes[i].primitives :: IndexInTargetView(m, p)
    ensures var vbos := BindSteps(m, strideOf, st, SceneWalk(m, rank)).0.vbos;
      && DrawSteps(m, vbos, SceneWalk(m, rank)).1 == Completed
      && DrawCount(DrawSteps(m, vbos, SceneWalk(m, rank)).0) == PrimitiveTotal(m, MeshOrder(m, SceneWalk(m, rank)))
  {
    var order := MeshOrder(m, SceneWalk(m, rank));
    var r := BindSteps(m, strideOf, st, SceneWalk(m, rank)).0;
    SameMeshOrder(m, strideOf, st, r.vbos, rank);
    if order == [] {
      // No mesh is reached: nothing is drawn.
      assert DrawMeshes(m, r.vbos, order) == ([], Completed);
      return;
    }
    BindMeshesLastPass(m, strideOf, st, order);
    TargetViewsMembers(m, 0);
    var t := TargetViews(m, 0);
    assert BindMeshes(m, strideOf, st, order).0 == r;
    assert forall k :: 0 <= k < |TargetViews(m, 0)| ==> TargetViews(m, 0)[k] in BindMeshes(m, strideOf, st, order).0.vbos;
    assert forall k :: 0 <= k < |t| ==> t[k] in r.vbos;
    forall i <- order, p <- m.meshes[i].primitives ensures IndexBound(m, r.vbos, p) {
      assert IndexInTargetView(m, p);
      var j := m.accessors[p.indices].bufferView;
      assert j in t;
      var l :| 0 <= l < |t| && t[l] == j;
      assert t[l] in r.vbos;
    }
    DrawMeshesOutcome(m, r.vbos, order);
    DrawMeshesCount(m, r.vbos, order);
  }
}
