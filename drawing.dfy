/** What `drawMesh` and the draw traversal do, as functions of the document and
    of the buffer map they read: the GL calls they issue and how they end. */
module Drawing {
  import opened Gltf
  import opened Gl

  /** The primitive's index accessor exists and its buffer view has a buffer. */
  predicate IndexBound(m: Model, vbos: map<int, Handle>, p: Primitive)
  {
    0 <= p.indices < |m.accessors| && m.accessors[p.indices].bufferView in vbos
  }

  /** A call the draw pass may issue: binding an index buffer, or an indexed draw.
      Drawing never creates, fills or binds a vertex buffer. */
  predicate IndexCall(c: Call)
  {
    (c.BindBuffer? && c.target == ELEMENT_ARRAY_BUFFER) || c.DrawElements?
  }

  predicate IndexCallsOnly(calls: seq<Call>)
  {
    forall c <- calls :: IndexCall(c)
  }

  /** The loop of drawMesh over `prims`.  `model.accessors[primitive.indices]` is
      unchecked; `vbos.at(...)` throws when the index view has no buffer. */
  function DrawPrimitives(m: Model, vbos: map<int, Handle>, prims: seq<Primitive>): (r: (seq<Call>, Outcome))
    ensures |r.0| <= 2 * |prims|
    ensures IndexCallsOnly(r.0)
    decreases |prims|
  {
    if prims == [] then ([], Completed)
    else
      var p := prims[0];
      if !(0 <= p.indices < |m.accessors|) then ([], Undefined)
      else
        var acc := m.accessors[p.indices];
        if acc.bufferView !in vbos then ([], Aborted)
        else
          var rest := DrawPrimitives(m, vbos, prims[1..]);
          (PrimitiveCalls(m, vbos, p) + rest.0, rest.1)
  }

  /** The two calls that draw one primitive: bind its index buffer, then draw
      with the primitive's mode and the index accessor's count, component type
      and offset. */
  function PrimitiveCalls(m: Model, vbos: map<int, Handle>, p: Primitive): seq<Call>
    requires IndexBound(m, vbos, p)
  {
    var acc := m.accessors[p.indices];
    [BindBuffer(ELEMENT_ARRAY_BUFFER, vbos[acc.bufferView]),
     DrawElements(p.mode, acc.count, acc.componentType, acc.byteOffset)]
  }

  /** drawMesh completes exactly when every primitive's index buffer is bound.
      With all index accessors in range, it stops on a missing buffer exactly
      when some index view has none. */
  lemma {:induction false} DrawPrimitivesOutcome(m: Model, vbos: map<int, Handle>, prims: seq<Primitive>)
    ensures var o := DrawPrimitives(m, vbos, prims).1;
      && (o == Completed <==> forall p <- prims :: IndexBound(m, vbos, p))
      && ((forall p <- prims :: 0 <= p.indices < |m.accessors|)
          ==> (o == Aborted <==> exists p <- prims :: m.accessors[p.indices].bufferView !in vbos))
    decreases |prims|
  {
    if prims != [] {
      var p := prims[0];
      assert p in prims;
      assert forall q <- prims :: q == p || q in prims[1..];
      DrawPrimitivesOutcome(m, vbos, prims[1..]);
    }
  }

  /** A completed drawMesh issues two calls per primitive, one of them a draw. */
  lemma {:induction false} DrawPrimitivesCount(m: Model, vbos: map<int, Handle>, prims: seq<Primitive>)
    requires DrawPrimitives(m, vbos, prims).1 == Completed
    ensures |DrawPrimitives(m, vbos, prims).0| == 2 * |prims|
    ensures DrawCount(DrawPrimitives(m, vbos, prims).0) == |prims|
    decreases |prims|
  {
    if prims != [] {
      var head := PrimitiveCalls(m, vbos, prims[0]);
      var rest := DrawPrimitives(m, vbos, prims[1..]).0;
      DrawPrimitivesCount(m, vbos, prims[1..]);
      DrawCountAppend(head, rest);
      assert head[1..][1..] == [];
    } else {
      assert DrawPrimitives(m, vbos, prims).0 == [];
    }
  }

  /** A completed drawMesh draws the primitives in declared order: calls `2k` and
      `2k + 1` are the index-buffer bind and the draw of primitive `k`. */
  lemma {:induction false} DrawPrimitivesAt(m: Model, vbos: map<int, Handle>, prims: seq<Primitive>)
    requires DrawPrimitives(m, vbos, prims).1 == Completed
    ensures forall k :: 0 <= k < |prims| ==> IndexBound(m, vbos, prims[k])
    ensures |DrawPrimitives(m, vbos, prims).0| == 2 * |prims|
    ensures forall k :: 0 <= k < |prims| ==>
              DrawPrimitives(m, vbos, prims).0[2 * k .. 2 * k + 2] == PrimitiveCalls(m, vbos, prims[k])
    decreases |prims|
  {
    if prims != [] {
      var all := DrawPrimitives(m, vbos, prims).0;
      var rest := DrawPrimitives(m, vbos, prims[1..]).0;
      DrawPrimitivesAt(m, vbos, prims[1..]);
      assert all == PrimitiveCalls(m, vbos, prims[0]) + rest;
      forall k | 0 <= k < |prims|
        ensures IndexBound(m, vbos, prims[k]) && all[2 * k .. 2 * k + 2] == PrimitiveCalls(m, vbos, prims[k])
      {
        if k > 0 {
          assert prims[k] == prims[1..][k - 1];
          assert all[2 * k .. 2 * k + 2] == rest[2 * (k - 1) .. 2 * (k - 1) + 2];
        }
      }
    } else {
      assert DrawPrimitives(m, vbos, prims).0 == [];
    }
  }

  /** Drawing along the steps of a walk: drawMesh at every visited node whose mesh
      index is in range.  The draw traversal does not check child or root indices,
      so an out-of-range one is undefined behaviour.  (A walk never visits a node
      outside the array.) */
  function DrawSteps(m: Model, vbos: map<int, Handle>, steps: seq<Step>): (r: (seq<Call>, Outcome))
    ensures IndexCallsOnly(r.0)
    decreases |steps|
  {
    if steps == [] then ([], Completed)
    else
      match steps[0]
      case BadIndex(_) => ([], Undefined)
      case Visit(n) =>
        if n >= |m.nodes| then ([], Undefined)
        else
          var mesh := m.nodes[n].mesh;
          if 0 <= mesh < |m.meshes| then
            var here := DrawPrimitives(m, vbos, m.meshes[mesh].primitives);
            if here.1 != Completed then here
            else
              var rest := DrawSteps(m, vbos, steps[1..]);
              (here.0 + rest.0, rest.1)
          else DrawSteps(m, vbos, steps[1..])
  }

  /** Drawing along `a + b` is drawing along `a`, then along `b` if `a` completed. */
  lemma {:induction false} DrawStepsAppend(m: Model, vbos: map<int, Handle>, a: seq<Step>, b: seq<Step>)
    ensures DrawSteps(m, vbos, a + b)
            == (var first := DrawSteps(m, vbos, a);
                if first.1 != Completed then first
                else var second := DrawSteps(m, vbos, b); (first.0 + second.0, second.1))
    decreases |a|
  {
    if a != [] {
      assert (a + b)[0] == a[0];
      assert (a + b)[1..] == a[1..] + b;
      match a[0]
      case BadIndex(_) =>
      case Visit(n) =>
        if n < |m.nodes| {
          DrawStepsAppend(m, vbos, a[1..], b);
          var mesh := m.nodes[n].mesh;
          if 0 <= mesh < |m.meshes| {
            var here := DrawPrimitives(m, vbos, m.meshes[mesh].primitives);
            if here.1 == Completed {
              var r1 := DrawSteps(m, vbos, a[1..]);
              if r1.1 == Completed {
                var r2 := DrawSteps(m, vbos, b);
                assert here.0 + (r1.0 + r2.0) == (here.0 + r1.0) + r2.0;
              }
            }
          }
        }
    } else {
      assert a + b == b;
      var second := DrawSteps(m, vbos, b);
      assert [] + second.0 == second.0;
    }
  }

  /** drawMesh over the meshes `order`, one after the other. */
  function DrawMeshes(m: Model, vbos: map<int, Handle>, order: seq<nat>): (seq<Call>, Outcome)
    requires forall i <- order :: i < |m.meshes|
    decreases |order|
  {
    if order == [] then ([], Completed)
    else
      assert order[0] in order;
      assert forall i <- order[1..] :: i in order;
      var here := DrawPrimitives(m, vbos, m.meshes[order[0]].primitives);
      if here.1 != Completed then here
      else
        var rest := DrawMeshes(m, vbos, order[1..]);
        (here.0 + rest.0, rest.1)
  }

  /** A draw traversal without out-of-range indices is drawMesh over the meshes of
      the walk in walk order -- the order the bind traversal binds them in. */
  lemma {:induction false} DrawStepsByMeshes(m: Model, vbos: map<int, Handle>, steps: seq<Step>)
    requires forall s <- steps :: s.Visit? && s.node < |m.nodes|
    ensures DrawSteps(m, vbos, steps) == DrawMeshes(m, vbos, MeshOrder(m, steps))
    decreases |steps|
  {
    if steps != [] {
      assert steps[0] in steps;
      assert forall s <- steps[1..] :: s in steps;
      DrawStepsByMeshes(m, vbos, steps[1..]);
      var mesh := m.nodes[steps[0].node].mesh;
      var rest := MeshOrder(m, steps[1..]);
      if 0 <= mesh < |m.meshes| {
        var order := [mesh as nat] + rest;
        assert MeshOrder(m, steps) == order;
        assert order[0] == mesh as nat && order[1..] == rest;
      } else {
        assert MeshOrder(m, steps) == [] + rest == rest;
      }
    }
  }

  /** Drawing a sequence of meshes completes exactly when the index buffer of every
      primitive of every one of them is bound. */
  lemma {:induction false} DrawMeshesOutcome(m: Model, vbos: map<int, Handle>, order: seq<nat>)
    requires forall i <- order :: i < |m.meshes|
    ensures DrawMeshes(m, vbos, order).1 == Completed
            <==> forall i <- order, p <- m.meshes[i].primitives :: IndexBound(m, vbos, p)
    decreases |order|
  {
    if order != [] {
      assert order[0] in order;
      assert forall i <- order[1..] :: i in order;
      DrawPrimitivesOutcome(m, vbos, m.meshes[order[0]].primitives);
      DrawMeshesOutcome(m, vbos, order[1..]);
      assert forall i <- order :: i == order[0] || i in order[1..];
    }
  }

  /** The number of primitives of the meshes `order`. */
  function PrimitiveTotal(m: Model, order: seq<nat>): nat
    requires forall i <- order :: i < |m.meshes|
    decreases |order|
  {
    if order == [] then 0
    else
      assert order[0] in order;
      assert forall i <- order[1..] :: i in order;
      |m.meshes[order[0]].primitives| + PrimitiveTotal(m, order[1..])
  }

  /** A completed draw pass issues exactly one draw call per primitive of every mesh
      it reaches, counting a mesh once per node that reaches it. */
  lemma {:induction false} DrawMeshesCount(m: Model, vbos: map<int, Handle>, order: seq<nat>)
    requires forall i <- order :: i < |m.meshes|
    requires DrawMeshes(m, vbos, order).1 == Completed
    ensures DrawCount(DrawMeshes(m, vbos, order).0) == PrimitiveTotal(m, order)
    decreases |order|
  {
    if order != [] {
      assert order[0] in order;
      assert forall i <- order[1..] :: i in order;
      var prims := m.meshes[order[0]].primitives;
      DrawPrimitivesCount(m, vbos, prims);
      DrawMeshesCount(m, vbos, order[1..]);
      DrawCountAppend(DrawPrimitives(m, vbos, prims).0, DrawMeshes(m, vbos, order[1..]).0);
    }
  }

  // ---------------------------------------------------------------------------
  // The walk, one level at a time: what drawModelNodes and drawModel do per node.

  /** The call log `prior` followed by the calls of a draw run, with its outcome. */
  function After(prior: seq<Call>, run: (seq<Call>, Outcome)): (seq<Call>, Outcome)
  {
    (prior + run.0, run.1)
  }

  /** Drawing the walk from `n`: drawMesh on the node's mesh if it has one in
      range, then the walks of its children. */
  lemma DrawWalkNode(m: Model, vbos: map<int, Handle>, rank: seq<nat>, n: nat, prior: seq<Call>)
    requires Ranked(m, rank) && n < |m.nodes| && rank[n] > 0
    ensures var mesh := m.nodes[n].mesh;
      After(prior, DrawSteps(m, vbos, Walk(m, rank, n)))
      == if 0 <= mesh < |m.meshes| then
           var here := After(prior, DrawPrimitives(m, vbos, m.meshes[mesh].primitives));
           if here.1 != Completed then here else After(here.0, DrawSteps(m, vbos, WalkFrom(m, rank, n, 0)))
         else After(prior, DrawSteps(m, vbos, WalkFrom(m, rank, n, 0)))
  {
    assert Walk(m, rank, n)[1..] == WalkFrom(m, rank, n, 0);
    var mesh := m.nodes[n].mesh;
    if 0 <= mesh < |m.meshes| {
      var here := DrawPrimitives(m, vbos, m.meshes[mesh].primitives);
      var rest := DrawSteps(m, vbos, WalkFrom(m, rank, n, 0));
      assert prior + (here.0 + rest.0) == (prior + here.0) + rest.0;
    }
  }

  /** Drawing the children of `n` from position `i`: an out-of-range child index
      is undefined behaviour ... */
  lemma DrawWalkBadChild(m: Model, vbos: map<int, Handle>, rank: seq<nat>, n: nat, i: nat)
    requires Ranked(m, rank) && n < |m.nodes| && rank[n] > 0 && i < |m.nodes[n].children|
    requires !(0 <= m.nodes[n].children[i] < |m.nodes|)
    ensures DrawSteps(m, vbos, WalkFrom(m, rank, n, i)).1 == Undefined
  {
    var c := m.nodes[n].children[i];
    assert WalkFrom(m, rank, n, i) == [BadIndex(c)] + WalkFrom(m, rank, n, i + 1);
    DrawStepsAppend(m, vbos, [BadIndex(c)], WalkFrom(m, rank, n, i + 1));
  }

  /** ... and an in-range one has its walk drawn before the rest. */
  lemma DrawWalkChild(m: Model, vbos: map<int, Handle>, rank: seq<nat>, n: nat, i: nat, prior: seq<Call>)
    requires Ranked(m, rank) && n < |m.nodes| && rank[n] > 0 && i < |m.nodes[n].children|
    requires DrawSteps(m, vbos, WalkFrom(m, rank, n, i)).1 != Undefined
    ensures var c := m.nodes[n].children[i];
      && 0 <= c < |m.nodes| && 0 < rank[c] < rank[n]
      && After(prior, DrawSteps(m, vbos, WalkFrom(m, rank, n, i)))
         == var first := After(prior, DrawSteps(m, vbos, Walk(m, rank, c)));
            if first.1 != Completed then first else After(first.0, DrawSteps(m, vbos, WalkFrom(m, rank, n, i + 1)))
  {
    var c := m.nodes[n].children[i];
    if !(0 <= c < |m.nodes|) {
      DrawWalkBadChild(m, vbos, rank, n, i);
    } else {
      var head := Walk(m, rank, c);
      var tail := WalkFrom(m, rank, n, i + 1);
      assert WalkFrom(m, rank, n, i) == head + tail;
      DrawStepsAppend(m, vbos, head, tail);
      var first := DrawSteps(m, vbos, head);
      var rest := DrawSteps(m, vbos, tail);
      AppendAssoc(prior, first.0, rest.0);
    }
  }

  /** Drawing the default scene's roots from position `i`: an out-of-range root
      index is undefined behaviour ... */
  lemma DrawWalkBadRoot(m: Model, vbos: map<int, Handle>, rank: seq<nat>, i: nat)
    requires SceneRanked(m, rank) && i < |m.scenes[m.defaultScene].nodes|
    requires !(0 <= m.scenes[m.defaultScene].nodes[i] < |m.nodes|)
    ensures DrawSteps(m, vbos, RootsFrom(m, rank, i)).1 == Undefined
  {
    var r := m.scenes[m.defaultScene].nodes[i];
    assert RootsFrom(m, rank, i) == [BadIndex(r)] + RootsFrom(m, rank, i + 1);
    DrawStepsAppend(m, vbos, [BadIndex(r)], RootsFrom(m, rank, i + 1));
  }

  /** ... and an in-range one has its walk drawn before the rest. */
  lemma DrawWalkRoot(m: Model, vbos: map<int, Handle>, rank: seq<nat>, i: nat, prior: seq<Call>)
    requires SceneRanked(m, rank) && i < |m.scenes[m.defaultScene].nodes|
    requires DrawSteps(m, vbos, RootsFrom(m, rank, i)).1 != Undefined
    ensures var r := m.scenes[m.defaultScene].nodes[i];
      && 0 <= r < |m.nodes| && rank[r] > 0
      && After(prior, DrawSteps(m, vbos, RootsFrom(m, rank, i)))
         == var first := After(prior, DrawSteps(m, vbos, Walk(m, rank, r)));
            if first.1 != Completed then first else After(first.0, DrawSteps(m, vbos, RootsFrom(m, rank, i + 1)))
  {
    var r := m.scenes[m.defaultScene].nodes[i];
    if !(0 <= r < |m.nodes|) {
      DrawWalkBadRoot(m, vbos, rank, i);
    } else {
      var head := Walk(m, rank, r);
      var tail := RootsFrom(m, rank, i + 1);
      assert RootsFrom(m, rank, i) == head + tail;
      DrawStepsAppend(m, vbos, head, tail);
      var first := DrawSteps(m, vbos, head);
      var rest := DrawSteps(m, vbos, tail);
      AppendAssoc(prior, first.0, rest.0);
    }
  }
}
