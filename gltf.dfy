/** The glTF 2.0 document as the loader hands it to the window (tinygltf::Model),
    reduced to the fields the renderer reads, and the depth-first walk over the
    node hierarchy that both the bind pass and the draw pass follow. */
module Gltf {

  // Accessor type codes as tinygltf encodes them (TINYGLTF_TYPE_*).
  const TYPE_VEC2: int := 2
  const TYPE_VEC3: int := 3
  const TYPE_VEC4: int := 4
  const TYPE_MAT2: int := 34
  const TYPE_MAT3: int := 35
  const TYPE_MAT4: int := 36
  const TYPE_SCALAR: int := 65

  // Buffer-view targets: GL_ARRAY_BUFFER and GL_ELEMENT_ARRAY_BUFFER; 0 means "none".
  const ARRAY_BUFFER: int := 34962
  const ELEMENT_ARRAY_BUFFER: int := 34963

  datatype Buffer = Buffer(data: seq<bv8>)

  /** A byte range of one buffer; `target` is 0 when the view is not meant to be
      bound to a GPU buffer target. */
  datatype BufferView = BufferView(buffer: int, byteOffset: nat, byteLength: nat, byteStride: nat, target: int)

  datatype Accessor = Accessor(bufferView: int, byteOffset: nat, normalized: bool,
                               componentType: int, count: nat, accessorType: int)

  /** One entry of a primitive's attribute map: semantic name to accessor index. */
  datatype Attribute = Attribute(semantic: string, accessor: int)

  /** `attributes` lists the entries of the primitive's std::map in the order the
      map iterates them (ascending semantic name); `indices` is -1 when absent. */
  datatype Primitive = Primitive(attributes: seq<Attribute>, indices: int, mode: int)

  datatype Mesh = Mesh(primitives: seq<Primitive>)

  /** `mesh` is -1 when the node carries no mesh. */
  datatype Node = Node(mesh: int, children: seq<int>)

  datatype Scene = Scene(nodes: seq<int>)

  datatype Model = Model(buffers: seq<Buffer>, bufferViews: seq<BufferView>, accessors: seq<Accessor>,
                         meshes: seq<Mesh>, nodes: seq<Node>, scenes: seq<Scene>, defaultScene: int)

  /** One step of the walk: a node reached, or a child/root index that lies outside
      the node array (where the walk cannot go on). */
  datatype Step = Visit(node: nat) | BadIndex(index: int)

  predicate StepFits(m: Model, s: Step)
  {
    match s
    case Visit(n) => n < |m.nodes|
    case BadIndex(i) => !(0 <= i < |m.nodes|)
  }

  /** A ranking that decreases from every node reachable from the roots to each of
      its in-range children: the part of the hierarchy the walk can reach is
      acyclic.  Nodes of rank 0 are never reached and are left unconstrained. */
  ghost predicate Ranked(m: Model, rank: seq<nat>)
  {
    && |rank| == |m.nodes|
    && forall n, k ::
         0 <= n < |m.nodes| && 0 < rank[n] && 0 <= k < |m.nodes[n].children| &&
         0 <= m.nodes[n].children[k] < |m.nodes|
         ==> 0 < rank[m.nodes[n].children[k]] < rank[n]
  }

  /** The default scene exists and every in-range root is ranked. */
  ghost predicate SceneRanked(m: Model, rank: seq<nat>)
  {
    && Ranked(m, rank)
    && 0 <= m.defaultScene < |m.scenes|
    && forall j :: 0 <= j < |m.scenes[m.defaultScene].nodes| && 0 <= m.scenes[m.defaultScene].nodes[j] < |m.nodes|
         ==> rank[m.scenes[m.defaultScene].nodes[j]] > 0
  }

  /** Depth-first preorder from node `n`: the node itself, then each child's walk in
      declared order. */
  ghost function Walk(m: Model, rank: seq<nat>, n: nat): (r: seq<Step>)
    requires Ranked(m, rank) && n < |m.nodes| && rank[n] > 0
    ensures |r| > 0 && r[0] == Visit(n)
    decreases rank[n], 1, 0
  {
    [Visit(n)] + WalkFrom(m, rank, n, 0)
  }

  /** The walks of the children of `n` from position `i` on. */
  ghost function WalkFrom(m: Model, rank: seq<nat>, n: nat, i: nat): seq<Step>
    requires Ranked(m, rank) && n < |m.nodes| && rank[n] > 0 && i <= |m.nodes[n].children|
    decreases rank[n], 0, |m.nodes[n].children| - i
  {
    if i == |m.nodes[n].children| then []
    else
      var c := m.nodes[n].children[i];
      (if 0 <= c < |m.nodes| then Walk(m, rank, c) else [BadIndex(c)]) + WalkFrom(m, rank, n, i + 1)
  }

  /** The walks of the default scene's roots from position `i` on. */
  ghost function RootsFrom(m: Model, rank: seq<nat>, i: nat): seq<Step>
    requires SceneRanked(m, rank) && i <= |m.scenes[m.defaultScene].nodes|
    decreases |m.scenes[m.defaultScene].nodes| - i
  {
    var roots := m.scenes[m.defaultScene].nodes;
    if i == |roots| then []
    else (if 0 <= roots[i] < |m.nodes| then Walk(m, rank, roots[i]) else [BadIndex(roots[i])]) + RootsFrom(m, rank, i + 1)
  }

  /** The whole traversal of the default scene. */
  ghost function SceneWalk(m: Model, rank: seq<nat>): seq<Step>
    requires SceneRanked(m, rank)
  {
    RootsFrom(m, rank, 0)
  }

  /** Every step of a walk is a node of the document or an index outside it. */
  lemma WalkFits(m: Model, rank: seq<nat>, n: nat)
    requires Ranked(m, rank) && n < |m.nodes| && rank[n] > 0
    ensures forall s <- Walk(m, rank, n) :: StepFits(m, s)
    decreases rank[n], 1, 0
  {
    WalkFromFits(m, rank, n, 0);
  }

  lemma WalkFromFits(m: Model, rank: seq<nat>, n: nat, i: nat)
    requires Ranked(m, rank) && n < |m.nodes| && rank[n] > 0 && i <= |m.nodes[n].children|
    ensures forall s <- WalkFrom(m, rank, n, i) :: StepFits(m, s)
    decreases rank[n], 0, |m.nodes[n].children| - i
  {
    if i < |m.nodes[n].children| {
      var c := m.nodes[n].children[i];
      if 0 <= c < |m.nodes| {
        WalkFits(m, rank, c);
      }
      WalkFromFits(m, rank, n, i + 1);
    }
  }

  lemma RootsFromFits(m: Model, rank: seq<nat>, i: nat)
    requires SceneRanked(m, rank) && i <= |m.scenes[m.defaultScene].nodes|
    ensures forall s <- RootsFrom(m, rank, i) :: StepFits(m, s)
    decreases |m.scenes[m.defaultScene].nodes| - i
  {
    var roots := m.scenes[m.defaultScene].nodes;
    if i < |roots| {
      if 0 <= roots[i] < |m.nodes| {
        WalkFits(m, rank, roots[i]);
      }
      RootsFromFits(m, rank, i + 1);
    }
  }

  /** The meshes reached along `steps`, in order: the in-range mesh of every
      visited node. */
  function MeshOrder(m: Model, steps: seq<Step>): (order: seq<nat>)
    ensures forall i <- order :: i < |m.meshes|
  {
    if steps == [] then []
    else
      var here := if steps[0].Visit? && steps[0].node < |m.nodes| && 0 <= m.nodes[steps[0].node].mesh < |m.meshes|
                  then [m.nodes[steps[0].node].mesh as nat] else [];
      here + MeshOrder(m, steps[1..])
  }

  /** A document the walk visits a node of twice: roots 0 and 1 both list node 2,
      which carries mesh 0.  Section 3.5.2 of the glTF 2.0 standard forbids a node
      with two parents, but `Ranked` does not. */
  const SHARED_CHILD: Model := Model([], [], [], [Mesh([])], [Node(-1, [2]), Node(-1, [2]), Node(0, [])], [Scene([0, 1])], 0)
  const SHARED_RANK: seq<nat> := [2, 2, 1]

  lemma SharedChildRanked()
    ensures SceneRanked(SHARED_CHILD, SHARED_RANK)
  {
    var m, rank := SHARED_CHILD, SHARED_RANK;
    forall n, k | 0 <= n < |m.nodes| && 0 < rank[n] && 0 <= k < |m.nodes[n].children| &&
                  0 <= m.nodes[n].children[k] < |m.nodes|
      ensures 0 < rank[m.nodes[n].children[k]] < rank[n]
    {
      assert n == 0 || n == 1 || n == 2;
    }
  }

  /** The walk keeps no visited set: a node is visited once per path from a root,
      so a shared child's mesh is reached, bound and drawn twice. */
  lemma SharedChildWalkedTwice()
    ensures SceneRanked(SHARED_CHILD, SHARED_RANK)
    ensures SceneWalk(SHARED_CHILD, SHARED_RANK) == [Visit(0), Visit(2), Visit(1), Visit(2)]
    ensures MeshOrder(SHARED_CHILD, SceneWalk(SHARED_CHILD, SHARED_RANK)) == [0, 0]
  {
    SharedChildRanked();
    var m, rank := SHARED_CHILD, SHARED_RANK;
    assert WalkFrom(m, rank, 2, 0) == [];
    assert Walk(m, rank, 2) == [Visit(2)];
    assert WalkFrom(m, rank, 0, 1) == [];
    assert WalkFrom(m, rank, 0, 0) == [Visit(2)];
    assert WalkFrom(m, rank, 1, 1) == [];
    assert WalkFrom(m, rank, 1, 0) == [Visit(2)];
    assert RootsFrom(m, rank, 2) == [];
    assert RootsFrom(m, rank, 1) == [Visit(1), Visit(2)];
    assert RootsFrom(m, rank, 0) == [Visit(0), Visit(2), Visit(1), Visit(2)];
    SharedChildMeshOrder();
  }

  lemma SharedChildMeshOrder()
    ensures MeshOrder(SHARED_CHILD, [Visit(0), Visit(2), Visit(1), Visit(2)]) == [0, 0]
  {
    var m, s := SHARED_CHILD, [Visit(0), Visit(2), Visit(1), Visit(2)];
    assert s[3..] == [Visit(2)];
    assert s[3..][1..] == [];
    assert MeshOrder(m, s[3..]) == [0];
    assert s[2..][1..] == s[3..];
    assert MeshOrder(m, s[2..]) == [0];
    assert s[1..][1..] == s[2..];
    assert MeshOrder(m, s[1..]) == [0, 0];
  }
}
