/** What `bindMesh` does, as functions of the document and of the state it
    threads through: the buffer map (`vbos`), the GL call log, the next buffer
    name the device hands out and the console output. */
module Binding {
  import opened Gltf
  import opened Gl

  datatype BindState = BindState(vbos: map<int, Handle>, calls: seq<Call>, nextName: Handle, console: seq<string>)

  /** The fixed vertex slot of an attribute semantic, -1 when the renderer has none. */
  function SlotOf(semantic: string): (slot: int)
    ensures slot == 0 <==> semantic == "POSITION"
    ensures slot == 1 <==> semantic == "NORMAL"
    ensures slot == 2 <==> semantic == "TEXCOORD_0"
    ensures slot == -1 <==> semantic !in {"POSITION", "NORMAL", "TEXCOORD_0"}
  {
    // Three independent tests; a later match would win, so test in reverse.
    if semantic == "TEXCOORD_0" then 2
    else if semantic == "NORMAL" then 1
    else if semantic == "POSITION" then 0
    else -1
  }

  /** Components per element for each accessor type, as glTF 2.0 defines them
      (section 3.6.2); 0 for a code that is not an accessor type. */
  function GltfComponents(accessorType: int): nat
  {
    if accessorType == TYPE_SCALAR then 1
    else if accessorType == TYPE_VEC2 then 2
    else if accessorType == TYPE_VEC3 then 3
    else if accessorType == TYPE_VEC4 then 4
    else if accessorType == TYPE_MAT2 then 4
    else if accessorType == TYPE_MAT3 then 9
    else if accessorType == TYPE_MAT4 then 16
    else 0
  }

  /** The `size` argument passed for an attribute: 1 for SCALAR, the type code
      itself for every other type. */
  function ComponentCount(accessorType: int): (size: int)
    ensures accessorType == TYPE_SCALAR ==> size == 1
    ensures accessorType != TYPE_SCALAR ==> size == accessorType
    ensures GltfComponents(accessorType) > 0 && accessorType !in {TYPE_MAT2, TYPE_MAT3, TYPE_MAT4}
            ==> size == GltfComponents(accessorType)
    ensures accessorType in {TYPE_MAT2, TYPE_MAT3, TYPE_MAT4} ==> size != GltfComponents(accessorType)
  {
    if accessorType != TYPE_SCALAR then accessorType else 1
  }

  // ---------------------------------------------------------------------------
  // The first loop of bindMesh: one buffer per buffer view with a target.

  /** The indices, from `i` on, of the buffer views that have a target. */
  function TargetViews(m: Model, i: nat): seq<nat>
    requires i <= |m.bufferViews|
    decreases |m.bufferViews| - i
  {
    if i == |m.bufferViews| then []
    else
      var rest := TargetViews(m, i + 1);
      if m.bufferViews[i].target != 0 then [i] + rest
      else rest
  }

  /** The target views from `i` on are exactly the views from `i` on with a
      non-zero target, in ascending order. */
  lemma {:induction false} TargetViewsMembers(m: Model, i: nat)
    requires i <= |m.bufferViews|
    ensures forall j :: j in TargetViews(m, i) <==> i <= j < |m.bufferViews| && m.bufferViews[j].target != 0
    ensures forall k, l :: 0 <= k < l < |TargetViews(m, i)| ==> TargetViews(m, i)[k] < TargetViews(m, i)[l]
    decreases |m.bufferViews| - i
  {
    if i < |m.bufferViews| {
      TargetViewsMembers(m, i + 1);
      var t := TargetViews(m, i);
      var rest := TargetViews(m, i + 1);
      if m.bufferViews[i].target != 0 {
        assert t == [i] + rest;
        forall k, l | 0 <= k < l < |t| ensures t[k] < t[l] {
          assert t[l] == rest[l - 1] && rest[l - 1] in rest;
          if k > 0 {
            assert t[k] == rest[k - 1];
          }
        }
      }
    }
  }

  /** A view whose bytes can be uploaded: its buffer exists, holds data, and the
      view's range lies inside it. */
  predicate ViewUploadable(m: Model, j: nat)
    requires j < |m.bufferViews|
  {
    var v := m.bufferViews[j];
    && 0 <= v.buffer < |m.buffers|
    && |m.buffers[v.buffer].data| > 0
    && v.byteOffset + v.byteLength <= |m.buffers[v.buffer].data|
  }

  /** The three calls that create, bind and fill the buffer of view `j` under name
      `h` (none for a view that cannot be uploaded). */
  function UploadCalls(m: Model, j: nat, h: Handle): seq<Call>
  {
    if j < |m.bufferViews| && ViewUploadable(m, j) then
      var v := m.bufferViews[j];
      var data := m.buffers[v.buffer].data;
      [GenBuffer(h), BindBuffer(v.target, h), BufferData(v.target, data[v.byteOffset .. v.byteOffset + v.byteLength])]
    else []
  }

  /** The state after view `i` got a fresh name, stored in the map and bound. */
  function NameView(m: Model, st: BindState, i: nat): (r: BindState)
    requires i < |m.bufferViews|
    ensures r.vbos.Keys == st.vbos.Keys + {i} && r.vbos[i] == st.nextName && r.nextName == st.nextName + 1
    ensures forall j :: j in st.vbos && j != i ==> r.vbos[j] == st.vbos[j]
    ensures r.calls == st.calls + [GenBuffer(st.nextName), BindBuffer(m.bufferViews[i].target, st.nextName)]
    ensures r.console == st.console
  {
    var h := st.nextName;
    st.(vbos := st.vbos[i := h], calls := st.calls + [GenBuffer(h), BindBuffer(m.bufferViews[i].target, h)], nextName := h + 1)
  }

  /** The state after view `i` got a fresh name and its bytes were uploaded. */
  function UploadView(m: Model, st: BindState, i: nat): (r: BindState)
    requires i < |m.bufferViews| && ViewUploadable(m, i)
    ensures r.vbos.Keys == st.vbos.Keys + {i} && r.vbos[i] == st.nextName && r.nextName == st.nextName + 1
    ensures forall j :: j in st.vbos && j != i ==> r.vbos[j] == st.vbos[j]
    ensures r.calls == st.calls + UploadCalls(m, i, st.nextName) && |UploadCalls(m, i, st.nextName)| == 3
    ensures r.console == st.console
  {
    var h := st.nextName;
    st.(vbos := st.vbos[i := h], calls := st.calls + UploadCalls(m, i, h), nextName := h + 1)
  }

  /** The loop over buffer views from index `i` on.  `model.buffers[...]` is an
      unchecked index; `data.at(0)` throws on an empty buffer, after the name was
      generated, stored and bound. */
  function UploadViews(m: Model, st: BindState, i: nat): (r: (BindState, Outcome))
    requires i <= |m.bufferViews|
    ensures st.calls <= r.0.calls && r.0.console == st.console && r.0.nextName >= st.nextName
    ensures st.vbos.Keys <= r.0.vbos.Keys
    decreases |m.bufferViews| - i
  {
    if i == |m.bufferViews| then (st, Completed)
    else
      var v := m.bufferViews[i];
      if v.target == 0 then UploadViews(m, st, i + 1)
      else if !(0 <= v.buffer < |m.buffers|) then (st, Undefined)
      else if |m.buffers[v.buffer].data| == 0 then (NameView(m, st, i), Aborted)
      else if v.byteOffset + v.byteLength > |m.buffers[v.buffer].data| then (NameView(m, st, i), Undefined)
      else UploadViews(m, UploadView(m, st, i), i + 1)
  }

  /** View `j` has a target and its buffer exists but is empty, so `data.at(0)` throws. */
  predicate EmptyBufferView(m: Model, j: nat)
    requires j < |m.bufferViews|
  {
    var v := m.bufferViews[j];
    v.target != 0 && 0 <= v.buffer < |m.buffers| && |m.buffers[v.buffer].data| == 0
  }

  /** Every view with a target from `i` up to `j` (exclusive) can be uploaded. */
  predicate UploadableBetween(m: Model, i: nat, j: nat)
    requires j <= |m.bufferViews|
  {
    forall l :: i <= l < j && m.bufferViews[l].target != 0 ==> ViewUploadable(m, l)
  }

  /** The buffer loop completes exactly when every view with a target can be
      uploaded, and aborts exactly when the first view with a target that cannot
      be uploaded has an existing but empty buffer; any other failure is undefined. */
  lemma {:induction false} UploadViewsOutcome(m: Model, st: BindState, i: nat)
    requires i <= |m.bufferViews|
    ensures UploadViews(m, st, i).1 == Aborted
            <==> exists j :: i <= j < |m.bufferViews| && EmptyBufferView(m, j) && UploadableBetween(m, i, j)
    ensures UploadViews(m, st, i).1 == Completed
            <==> forall j :: i <= j < |m.bufferViews| && m.bufferViews[j].target != 0 ==> ViewUploadable(m, j)
    decreases |m.bufferViews| - i
  {
    if i < |m.bufferViews| {
      var v := m.bufferViews[i];
      if v.target == 0 || ViewUploadable(m, i) {
        var st' := if v.target == 0 then st else UploadView(m, st, i);
        UploadViewsOutcome(m, st', i + 1);
        assert !EmptyBufferView(m, i);
        forall j | i < j < |m.bufferViews| ensures UploadableBetween(m, i, j) <==> UploadableBetween(m, i + 1, j) {
        }
      } else if EmptyBufferView(m, i) {
        assert UploadableBetween(m, i, i);
      } else {
        assert forall j | i < j <= |m.bufferViews| :: !UploadableBetween(m, i, j);
      }
    }
  }

  /** When the buffer loop completes, `vbos` gains exactly the views with a target,
      each under a freshly generated name (consecutive from the old next name, in
      view order), other entries keep their names, and nothing is printed. */
  lemma {:induction false} UploadViewsNames(m: Model, st: BindState, i: nat)
    requires i <= |m.bufferViews|
    requires UploadViews(m, st, i).1 == Completed
    ensures var r := UploadViews(m, st, i).0; var t := TargetViews(m, i);
      && (forall j: int :: j in r.vbos <==> j in st.vbos || j in t)
      && r.nextName == st.nextName + |t|
      && r.console == st.console
      && (forall k :: 0 <= k < |t| ==> t[k] in r.vbos && r.vbos[t[k]] == st.nextName + k)
      && (forall j: int :: j in st.vbos && j !in t ==> r.vbos[j] == st.vbos[j])
    decreases |m.bufferViews| - i
  {
    if i < |m.bufferViews| {
      var v := m.bufferViews[i];
      if v.target == 0 {
        UploadViewsNames(m, st, i + 1);
      } else {
        var st2 := UploadView(m, st, i);
        UploadViewsNames(m, st2, i + 1);
        TargetViewsMembers(m, i + 1);
        var r := UploadViews(m, st, i).0;
        var t := TargetViews(m, i);
        var t' := TargetViews(m, i + 1);
        assert t == [i] + t';
        forall k | 0 <= k < |t| ensures t[k] in r.vbos && r.vbos[t[k]] == st.nextName + k {
          if k > 0 {
            assert t[k] == t'[k - 1];
          } else {
            assert i !in t';
          }
        }
      }
    }
  }

  /** Every view of `t` can be uploaded. */
  predicate AllUploadable(m: Model, t: seq<nat>)
  {
    forall k :: 0 <= k < |t| ==> t[k] < |m.bufferViews| && ViewUploadable(m, t[k])
  }

  /** The upload calls of the views `t`, named consecutively from `h`. */
  function UploadCallsAll(m: Model, t: seq<nat>, h: Handle): seq<Call>
  {
    if t == [] then [] else UploadCalls(m, t[0], h) + UploadCallsAll(m, t[1..], h + 1)
  }

  /** Each view of `t` costs exactly three calls. */
  lemma {:induction false} UploadCallsAllLength(m: Model, t: seq<nat>, h: Handle)
    requires AllUploadable(m, t)
    ensures |UploadCallsAll(m, t, h)| == 3 * |t|
  {
    if t != [] {
      assert AllUploadable(m, t[1..]) by {
        forall k | 0 <= k < |t[1..]| ensures t[1..][k] == t[k + 1] {}
      }
      UploadCallsAllLength(m, t[1..], h + 1);
    }
  }

  /** The calls of view `t[k]` sit at its own position in `t`, under name `h + k`. */
  lemma {:induction false} UploadCallsAllAt(m: Model, t: seq<nat>, h: Handle, k: nat)
    requires AllUploadable(m, t) && k < |t|
    ensures 3 * k + 3 <= |UploadCallsAll(m, t, h)|
    ensures UploadCallsAll(m, t, h)[3 * k .. 3 * k + 3] == UploadCalls(m, t[k], h + k)
    decreases k
  {
    UploadCallsAllLength(m, t, h);
    var first := UploadCalls(m, t[0], h);
    var rest := UploadCallsAll(m, t[1..], h + 1);
    assert UploadCallsAll(m, t, h) == first + rest;
    assert |first| == 3;
    if k > 0 {
      assert AllUploadable(m, t[1..]) by {
        forall j | 0 <= j < |t[1..]| ensures t[1..][j] == t[j + 1] {}
      }
      UploadCallsAllAt(m, t[1..], h + 1, k - 1);
      SliceOfAppend(first, rest, 3 * (k - 1), 3 * (k - 1) + 3);
      assert t[1..][k - 1] == t[k];
    } else {
      SliceOfAppend(first, rest, 0, 0);
    }
  }

  /** The target views from `i` on, when view `i` has a target, are `i` followed by
      the target views after it, and their upload calls are those of `i` first. */
  lemma UploadCallsAllFirst(m: Model, i: nat, h: Handle)
    requires i < |m.bufferViews| && m.bufferViews[i].target != 0
    ensures UploadCallsAll(m, TargetViews(m, i), h) == UploadCalls(m, i, h) + UploadCallsAll(m, TargetViews(m, i + 1), h + 1)
  {
    var t := TargetViews(m, i);
    assert t == [i] + TargetViews(m, i + 1);
    assert t[1..] == TargetViews(m, i + 1);
  }

  /** When the buffer loop completes, the log grew by exactly the upload calls of
      the views with a target, in view order; a view without a target costs no
      call. */
  lemma {:induction false} UploadViewsCalls(m: Model, st: BindState, i: nat)
    requires i <= |m.bufferViews|
    requires UploadViews(m, st, i).1 == Completed
    ensures UploadViews(m, st, i).0.calls == st.calls + UploadCallsAll(m, TargetViews(m, i), st.nextName)
    decreases |m.bufferViews| - i
  {
    if i == |m.bufferViews| {
      assert st.calls + [] == st.calls;
    } else if m.bufferViews[i].target == 0 {
      UploadViewsCalls(m, st, i + 1);
    } else {
      var h := st.nextName;
      var st2 := UploadView(m, st, i);
      var r := UploadViews(m, st2, i + 1).0;
      assert UploadViews(m, st, i).0 == r;
      UploadViewsCalls(m, st2, i + 1);
      UploadCallsAllFirst(m, i, h);
      var later := UploadCallsAll(m, TargetViews(m, i + 1), h + 1);
      assert r.calls == st2.calls + later;
      assert st2.calls == st.calls + UploadCalls(m, i, h);
      AppendAssoc(st.calls, UploadCalls(m, i, h), later);
    }
  }

  // ---------------------------------------------------------------------------
  // The second loop of bindMesh: vertex attributes of every primitive.

  /** The attribute's accessor exists, and so does that accessor's buffer view. */
  predicate AttributeResolvable(m: Model, a: Attribute)
  {
    0 <= a.accessor < |m.accessors| && 0 <= m.accessors[a.accessor].bufferView < |m.bufferViews|
  }

  /** The name `vbos[view]` yields: the stored one, or 0, which operator[] inserts. */
  function NameOrZero(vbos: map<int, Handle>, view: int): Handle
  {
    if view in vbos then vbos[view] else 0
  }

  /** The calls one resolvable attribute costs when the buffer map is `vbos`
      (none for one that does not resolve). */
  function AttributeCalls(m: Model, strideOf: (Accessor, BufferView) -> int, vbos: map<int, Handle>, a: Attribute): seq<Call>
  {
    if !AttributeResolvable(m, a) then []
    else
      var acc := m.accessors[a.accessor];
      var slot := SlotOf(a.semantic);
      [BindBuffer(ARRAY_BUFFER, NameOrZero(vbos, acc.bufferView))]
      + if slot > -1 then
          [EnableVertexAttrib(slot),
           VertexAttribPointer(slot, ComponentCount(acc.accessorType), acc.componentType, acc.normalized,
                               strideOf(acc, m.bufferViews[acc.bufferView]), acc.byteOffset)]
        else []
  }

  /** The line printed for an attribute without a slot; nothing for one with a slot. */
  function MissingLine(a: Attribute): seq<string>
  {
    if SlotOf(a.semantic) > -1 then [] else ["vaa missing: " + a.semantic]
  }

  /** The state after one resolvable attribute: the name of its accessor's view is
      looked up (operator[] inserts 0 when it is absent), the attribute's calls are
      issued and, without a slot, its line is printed. */
  function AttributeApplied(m: Model, strideOf: (Accessor, BufferView) -> int, st: BindState, a: Attribute): BindState
    requires AttributeResolvable(m, a)
  {
    var view := m.accessors[a.accessor].bufferView;
    st.(vbos := st.vbos[view := NameOrZero(st.vbos, view)],
        calls := st.calls + AttributeCalls(m, strideOf, st.vbos, a),
        console := st.console + MissingLine(a))
  }

  /** One iteration of the attribute loop.  Both indexings are unchecked. */
  function AttributeStep(m: Model, strideOf: (Accessor, BufferView) -> int, st: BindState, a: Attribute): (BindState, Outcome)
  {
    if !(0 <= a.accessor < |m.accessors|) then (st, Undefined)
    else if !(0 <= m.accessors[a.accessor].bufferView < |m.bufferViews|) then (st, Undefined)
    else (AttributeApplied(m, strideOf, st, a), Completed)
  }

  /** The attribute loop over `attrs`, in map order. */
  function BindAttributes(m: Model, strideOf: (Accessor, BufferView) -> int, st: BindState, attrs: seq<Attribute>): (r: (BindState, Outcome))
    ensures r.1 != Aborted && r.0.nextName == st.nextName
    ensures st.calls <= r.0.calls && st.console <= r.0.console && st.vbos.Keys <= r.0.vbos.Keys
    decreases |attrs|
  {
    if attrs == [] then (st, Completed)
    else
      var step := AttributeStep(m, strideOf, st, attrs[0]);
      if step.1 != Completed then step else BindAttributes(m, strideOf, step.0, attrs[1..])
  }

  /** The attribute loops of the primitives `prims`, in order. */
  function BindPrimitives(m: Model, strideOf: (Accessor, BufferView) -> int, st: BindState, prims: seq<Primitive>): (r: (BindState, Outcome))
    ensures r.1 != Aborted && r.0.nextName == st.nextName
    ensures st.calls <= r.0.calls && st.console <= r.0.console && st.vbos.Keys <= r.0.vbos.Keys
    decreases |prims|
  {
    if prims == [] then (st, Completed)
    else
      var first := BindAttributes(m, strideOf, st, prims[0].attributes);
      if first.1 != Completed then first else BindPrimitives(m, strideOf, first.0, prims[1..])
  }

  /** bindMesh: the buffer loop over every view of the document, then the
      attribute loops of the mesh's primitives. */
  function BindMeshRun(m: Model, strideOf: (Accessor, BufferView) -> int, st: BindState, mesh: Mesh): (r: (BindState, Outcome))
    ensures st.calls <= r.0.calls && st.console <= r.0.console && r.0.nextName >= st.nextName
    ensures st.vbos.Keys <= r.0.vbos.Keys
  {
    var up := UploadViews(m, st, 0);
    if up.1 != Completed then up else BindPrimitives(m, strideOf, up.0, mesh.primitives)
  }

  /** The messages printed for the attributes without a slot, in order. */
  function MissingLines(attrs: seq<Attribute>): seq<string>
  {
    if attrs == [] then []
    else MissingLine(attrs[0]) + MissingLines(attrs[1..])
  }

  /** The buffer views the accessors of `attrs` refer to. */
  function AttributeViews(m: Model, attrs: seq<Attribute>): set<int>
  {
    if attrs == [] then {}
    else (if AttributeResolvable(m, attrs[0]) then {m.accessors[attrs[0].accessor].bufferView} else {})
         + AttributeViews(m, attrs[1..])
  }

  /** The calls of the resolvable attributes `attrs`, each looked up in `vbos`. */
  function AttributeCallsAll(m: Model, strideOf: (Accessor, BufferView) -> int, vbos: map<int, Handle>, attrs: seq<Attribute>): seq<Call>
  {
    if attrs == [] then [] else AttributeCalls(m, strideOf, vbos, attrs[0]) + AttributeCallsAll(m, strideOf, vbos, attrs[1..])
  }

  /** The attribute loop runs to its end exactly when every attribute resolves;
      an attribute without a slot does not stop it. */
  lemma {:induction false} BindAttributesOutcome(m: Model, strideOf: (Accessor, BufferView) -> int, st: BindState, attrs: seq<Attribute>)
    ensures BindAttributes(m, strideOf, st, attrs).1 in {Completed, Undefined}
    ensures BindAttributes(m, strideOf, st, attrs).1 == Completed <==> forall a <- attrs :: AttributeResolvable(m, a)
    decreases |attrs|
  {
    if attrs != [] {
      assert attrs[0] in attrs;
      var (st1, o) := AttributeStep(m, strideOf, st, attrs[0]);
      if o == Completed {
        BindAttributesOutcome(m, strideOf, st1, attrs[1..]);
        assert forall a <- attrs :: a == attrs[0] || a in attrs[1..];
      }
    }
  }

  /** A completed attribute loop appends the calls of its attributes, each bound
      to the name the map held when the loop began (or 0), and generates no name. */
  lemma {:induction false} BindAttributesLog(m: Model, strideOf: (Accessor, BufferView) -> int, st: BindState, attrs: seq<Attribute>)
    requires BindAttributes(m, strideOf, st, attrs).1 == Completed
    ensures var r := BindAttributes(m, strideOf, st, attrs).0;
      r.calls == st.calls + AttributeCallsAll(m, strideOf, st.vbos, attrs) && r.nextName == st.nextName
    decreases |attrs|
  {
    if attrs == [] {
      assert st.calls + [] == st.calls;
    } else {
      var a := attrs[0];
      assert AttributeResolvable(m, a);
      var st1 := AttributeApplied(m, strideOf, st, a);
      BindAttributesLog(m, strideOf, st1, attrs[1..]);
      AttributeCallsAllLookedUp(m, strideOf, st.vbos, m.accessors[a.accessor].bufferView, attrs[1..]);
      AppendAssoc(st.calls, AttributeCalls(m, strideOf, st.vbos, a), AttributeCallsAll(m, strideOf, st.vbos, attrs[1..]));
    }
  }

  /** A completed attribute loop prints one line per attribute without a slot, in order. */
  lemma {:induction false} BindAttributesConsole(m: Model, strideOf: (Accessor, BufferView) -> int, st: BindState, attrs: seq<Attribute>)
    requires BindAttributes(m, strideOf, st, attrs).1 == Completed
    ensures BindAttributes(m, strideOf, st, attrs).0.console == st.console + MissingLines(attrs)
    decreases |attrs|
  {
    if attrs == [] {
      assert st.console + [] == st.console;
    } else {
      var a := attrs[0];
      assert AttributeResolvable(m, a);
      var st1 := AttributeApplied(m, strideOf, st, a);
      BindAttributesConsole(m, strideOf, st1, attrs[1..]);
      AppendAssoc(st.console, MissingLine(a), MissingLines(attrs[1..]));
    }
  }

  /** A completed attribute loop keeps every entry of the map and adds an entry 0
      for each referenced view the map lacked (operator[] inserts it). */
  lemma {:induction false} BindAttributesMap(m: Model, strideOf: (Accessor, BufferView) -> int, st: BindState, attrs: seq<Attribute>)
    requires BindAttributes(m, strideOf, st, attrs).1 == Completed
    ensures var r := BindAttributes(m, strideOf, st, attrs).0;
      && r.vbos.Keys == st.vbos.Keys + AttributeViews(m, attrs)
      && (forall j :: j in st.vbos ==> r.vbos[j] == st.vbos[j])
      && (forall j :: j in r.vbos && j !in st.vbos ==> r.vbos[j] == 0)
    decreases |attrs|
  {
    if attrs != [] {
      var a := attrs[0];
      assert AttributeResolvable(m, a);
      var st1 := AttributeApplied(m, strideOf, st, a);
      BindAttributesMap(m, strideOf, st1, attrs[1..]);
    }
  }

  /** Inserting the name the map already yields for a view (0 when absent) does
      not change the calls of any attribute. */
  lemma {:induction false} AttributeCallsAllLookedUp(m: Model, strideOf: (Accessor, BufferView) -> int,
                                                     vbos: map<int, Handle>, view: int, attrs: seq<Attribute>)
    ensures AttributeCallsAll(m, strideOf, vbos[view := NameOrZero(vbos, view)], attrs) == AttributeCallsAll(m, strideOf, vbos, attrs)
  {
    if attrs != [] {
      if AttributeResolvable(m, attrs[0]) {
        var v := m.accessors[attrs[0].accessor].bufferView;
        assert NameOrZero(vbos[view := NameOrZero(vbos, view)], v) == NameOrZero(vbos, v);
      }
      AttributeCallsAllLookedUp(m, strideOf, vbos, view, attrs[1..]);
    }
  }

  /** Semantic to slot: the calls of resolvable attributes enable slot `s` exactly
      when some attribute's semantic maps to `s` (POSITION 0, NORMAL 1,
      TEXCOORD_0 2). */
  lemma {:induction false} AttributeCallsAllSlots(m: Model, strideOf: (Accessor, BufferView) -> int, vbos: map<int, Handle>, attrs: seq<Attribute>)
    requires forall a <- attrs :: AttributeResolvable(m, a)
    ensures forall s: nat :: EnableVertexAttrib(s) in AttributeCallsAll(m, strideOf, vbos, attrs)
              <==> exists a <- attrs :: SlotOf(a.semantic) == s
  {
    if attrs != [] {
      AttributeCallsAllSlots(m, strideOf, vbos, attrs[1..]);
      var all := AttributeCallsAll(m, strideOf, vbos, attrs);
      var first := AttributeCalls(m, strideOf, vbos, attrs[0]);
      var rest := AttributeCallsAll(m, strideOf, vbos, attrs[1..]);
      assert all == first + rest;
      assert forall b <- attrs :: b == attrs[0] || b in attrs[1..];
      forall s: nat ensures EnableVertexAttrib(s) in all <==> exists a <- attrs :: SlotOf(a.semantic) == s {
        assert EnableVertexAttrib(s) in first <==> SlotOf(attrs[0].semantic) == s;
        if EnableVertexAttrib(s) in rest {
          var b :| b in attrs[1..] && SlotOf(b.semantic) == s;
          assert b in attrs;
        }
      }
    }
  }

  /** Every resolvable attribute binds the buffer of its accessor's view, and every
      one with a slot gets its pointer call, with the component count of its
      accessor type. */
  lemma {:induction false} AttributeCallsAllPointers(m: Model, strideOf: (Accessor, BufferView) -> int, vbos: map<int, Handle>, attrs: seq<Attribute>)
    requires forall a <- attrs :: AttributeResolvable(m, a)
    ensures forall a <- attrs ::
              && AttributeResolvable(m, a)
              && BindBuffer(ARRAY_BUFFER, NameOrZero(vbos, m.accessors[a.accessor].bufferView)) in AttributeCallsAll(m, strideOf, vbos, attrs)
              && (SlotOf(a.semantic) > -1 ==>
                    var acc := m.accessors[a.accessor];
                    VertexAttribPointer(SlotOf(a.semantic), ComponentCount(acc.accessorType), acc.componentType, acc.normalized,
                                        strideOf(acc, m.bufferViews[acc.bufferView]), acc.byteOffset)
                    in AttributeCallsAll(m, strideOf, vbos, attrs))
  {
    if attrs != [] {
      AttributeCallsAllPointers(m, strideOf, vbos, attrs[1..]);
      assert AttributeCallsAll(m, strideOf, vbos, attrs)
             == AttributeCalls(m, strideOf, vbos, attrs[0]) + AttributeCallsAll(m, strideOf, vbos, attrs[1..]);
      assert forall b <- attrs :: b == attrs[0] || b in attrs[1..];
    }
  }

  // ---------------------------------------------------------------------------
  // bindMesh as a whole.

  /** The buffer views the attributes of `prims` refer to. */
  function PrimitiveViews(m: Model, prims: seq<Primitive>): set<int>
  {
    if prims == [] then {} else AttributeViews(m, prims[0].attributes) + PrimitiveViews(m, prims[1..])
  }

  predicate PrimitivesResolvable(m: Model, prims: seq<Primitive>)
  {
    forall p <- prims, a <- p.attributes :: AttributeResolvable(m, a)
  }

  /** The attribute loops complete exactly when every attribute of every primitive
      resolves; they generate no name, keep every entry of the map and add an
      entry 0 for each referenced view it lacked. */
  lemma {:induction false} BindPrimitivesEffect(m: Model, strideOf: (Accessor, BufferView) -> int, st: BindState, prims: seq<Primitive>)
    ensures BindPrimitives(m, strideOf, st, prims).1 in {Completed, Undefined}
    ensures BindPrimitives(m, strideOf, st, prims).1 == Completed <==> PrimitivesResolvable(m, prims)
    ensures PrimitivesResolvable(m, prims) ==>
      var r := BindPrimitives(m, strideOf, st, prims).0;
      && r.nextName == st.nextName
      && r.vbos.Keys == st.vbos.Keys + PrimitiveViews(m, prims)
      && (forall j :: j in st.vbos ==> r.vbos[j] == st.vbos[j])
      && (forall j :: j in r.vbos && j !in st.vbos ==> r.vbos[j] == 0)
    decreases |prims|
  {
    if prims != [] {
      var p := prims[0];
      assert p in prims;
      BindAttributesOutcome(m, strideOf, st, p.attributes);
      var (st1, o) := BindAttributes(m, strideOf, st, p.attributes);
      assert forall q <- prims :: q == p || q in prims[1..];
      if o == Completed {
        BindAttributesLog(m, strideOf, st, p.attributes);
        BindAttributesMap(m, strideOf, st, p.attributes);
        BindPrimitivesEffect(m, strideOf, st1, prims[1..]);
      }
    }
  }

  /** The calls of the attribute loops of the primitives `prims`, each attribute
      looked up in `vbos`. */
  function MeshAttributeCalls(m: Model, strideOf: (Accessor, BufferView) -> int, vbos: map<int, Handle>, prims: seq<Primitive>): seq<Call>
  {
    if prims == [] then []
    else AttributeCallsAll(m, strideOf, vbos, prims[0].attributes) + MeshAttributeCalls(m, strideOf, vbos, prims[1..])
  }

  /** The lines printed for the attributes without a slot of the primitives `prims`. */
  function MeshMissingLines(prims: seq<Primitive>): seq<string>
  {
    if prims == [] then [] else MissingLines(prims[0].attributes) + MeshMissingLines(prims[1..])
  }

  /** Two maps that yield the same name for every view give the same attribute calls. */
  lemma {:induction false} AttributeCallsAllSameNames(m: Model, strideOf: (Accessor, BufferView) -> int,
                                                      a: map<int, Handle>, b: map<int, Handle>, attrs: seq<Attribute>)
    requires forall v :: NameOrZero(a, v) == NameOrZero(b, v)
    ensures AttributeCallsAll(m, strideOf, a, attrs) == AttributeCallsAll(m, strideOf, b, attrs)
  {
    if attrs != [] {
      AttributeCallsAllSameNames(m, strideOf, a, b, attrs[1..]);
    }
  }

  lemma {:induction false} MeshAttributeCallsSameNames(m: Model, strideOf: (Accessor, BufferView) -> int,
                                                       a: map<int, Handle>, b: map<int, Handle>, prims: seq<Primitive>)
    requires forall v :: NameOrZero(a, v) == NameOrZero(b, v)
    ensures MeshAttributeCalls(m, strideOf, a, prims) == MeshAttributeCalls(m, strideOf, b, prims)
  {
    if prims != [] {
      AttributeCallsAllSameNames(m, strideOf, a, b, prims[0].attributes);
      MeshAttributeCallsSameNames(m, strideOf, a, b, prims[1..]);
    }
  }

  /** Completed attribute loops append the calls of every primitive's attributes
      in order, each looked up in the map as it was before the first loop (the 0
      entries earlier loops insert yield the name a lookup yields anyway), and
      print one line per attribute without a slot, in order. */
  lemma {:induction false} BindPrimitivesLog(m: Model, strideOf: (Accessor, BufferView) -> int, st: BindState, prims: seq<Primitive>)
    requires BindPrimitives(m, strideOf, st, prims).1 == Completed
    ensures var r := BindPrimitives(m, strideOf, st, prims).0;
      && r.calls == st.calls + MeshAttributeCalls(m, strideOf, st.vbos, prims)
      && r.console == st.console + MeshMissingLines(prims)
    decreases |prims|
  {
    if prims == [] {
      assert st.calls + [] == st.calls && st.console + [] == st.console;
    } else {
      var p := prims[0];
      var st1 := BindAttributes(m, strideOf, st, p.attributes).0;
      BindAttributesLog(m, strideOf, st, p.attributes);
      BindAttributesConsole(m, strideOf, st, p.attributes);
      BindAttributesMap(m, strideOf, st, p.attributes);
      BindPrimitivesLog(m, strideOf, st1, prims[1..]);
      forall v ensures NameOrZero(st1.vbos, v) == NameOrZero(st.vbos, v) {
      }
      MeshAttributeCallsSameNames(m, strideOf, st1.vbos, st.vbos, prims[1..]);
      AppendAssoc(st.calls, AttributeCallsAll(m, strideOf, st.vbos, p.attributes), MeshAttributeCalls(m, strideOf, st.vbos, prims[1..]));
      AppendAssoc(st.console, MissingLines(p.attributes), MeshMissingLines(prims[1..]));
    }
  }

  /** A completed bindMesh appends the upload calls of the views with a target
      (named consecutively from the old next name), then the attribute calls of
      every primitive looked up in the map the buffer loop left, and prints one
      line per attribute without a slot. */
  lemma BindMeshLog(m: Model, strideOf: (Accessor, BufferView) -> int, st: BindState, mesh: Mesh)
    requires BindMeshRun(m, strideOf, st, mesh).1 == Completed
    ensures var r := BindMeshRun(m, strideOf, st, mesh).0;
      && r.calls == st.calls + UploadCallsAll(m, TargetViews(m, 0), st.nextName)
                    + MeshAttributeCalls(m, strideOf, UploadViews(m, st, 0).0.vbos, mesh.primitives)
      && r.console == st.console + MeshMissingLines(mesh.primitives)
  {
    var up := UploadViews(m, st, 0).0;
    UploadViewsCalls(m, st, 0);
    UploadViewsNames(m, st, 0);
    BindPrimitivesLog(m, strideOf, up, mesh.primitives);
  }

  /** bindMesh runs to its end exactly when every view with a target can be
      uploaded and every attribute of the mesh resolves. */
  lemma BindMeshOutcome(m: Model, strideOf: (Accessor, BufferView) -> int, st: BindState, mesh: Mesh)
    ensures BindMeshRun(m, strideOf, st, mesh).1 == Completed
            <==> (forall j :: 0 <= j < |m.bufferViews| && m.bufferViews[j].target != 0 ==> ViewUploadable(m, j))
                 && PrimitivesResolvable(m, mesh.primitives)
  {
    UploadViewsOutcome(m, st, 0);
    var (st1, o) := UploadViews(m, st, 0);
    BindPrimitivesEffect(m, strideOf, st1, mesh.primitives);
  }

  /** After a completed bindMesh, the map holds a freshly generated name for every
      view with a target (names consecutive from the old next name, in view order,
      replacing whatever the map held for that view), an entry for every view an
      attribute refers to, and nothing else new; an entry for a view without a
      target is the old entry, or 0. */
  lemma BindMeshMap(m: Model, strideOf: (Accessor, BufferView) -> int, st: BindState, mesh: Mesh)
    requires BindMeshRun(m, strideOf, st, mesh).1 == Completed
    ensures var r := BindMeshRun(m, strideOf, st, mesh).0; var t := TargetViews(m, 0);
      && (forall j: int :: j in r.vbos <==> j in st.vbos || j in t || j in PrimitiveViews(m, mesh.primitives))
      && r.nextName == st.nextName + |t|
      && (forall k :: 0 <= k < |t| ==> t[k] in r.vbos && r.vbos[t[k]] == st.nextName + k)
      && (forall j :: j in r.vbos && j !in t ==> r.vbos[j] == NameOrZero(st.vbos, j))
  {
    var (st1, o) := UploadViews(m, st, 0);
    UploadViewsNames(m, st, 0);
    BindPrimitivesEffect(m, strideOf, st1, mesh.primitives);
  }

  /** When every attribute of the mesh reads a view with a target and the map held
      only such views before, the keys after bindMesh are exactly the views with a
      target, each freshly named. */
  lemma BindMeshKeysExactly(m: Model, strideOf: (Accessor, BufferView) -> int, st: BindState, mesh: Mesh)
    requires BindMeshRun(m, strideOf, st, mesh).1 == Completed
    requires forall j :: j in st.vbos ==> 0 <= j < |m.bufferViews| && m.bufferViews[j].target != 0
    requires forall j :: j in PrimitiveViews(m, mesh.primitives) ==> 0 <= j < |m.bufferViews| && m.bufferViews[j].target != 0
    ensures forall j: int :: j in BindMeshRun(m, strideOf, st, mesh).0.vbos
              <==> 0 <= j < |m.bufferViews| && m.bufferViews[j].target != 0
    ensures forall j :: j in BindMeshRun(m, strideOf, st, mesh).0.vbos ==> BindMeshRun(m, strideOf, st, mesh).0.vbos[j] >= st.nextName
  {
    BindMeshMap(m, strideOf, st, mesh);
    TargetViewsMembers(m, 0);
    var r := BindMeshRun(m, strideOf, st, mesh).0;
    var t := TargetViews(m, 0);
    forall j | j in r.vbos ensures r.vbos[j] >= st.nextName {
      var k :| 0 <= k < |t| && t[k] == j;
    }
  }

  // ---------------------------------------------------------------------------
  // The bind traversal: bindMesh at every visited node that has a mesh.

  /** Binding along the steps of a walk; an out-of-range index fails its
      `assert`.  (A walk never visits a node outside the array.) */
  function BindSteps(m: Model, strideOf: (Accessor, BufferView) -> int, st: BindState, steps: seq<Step>): (r: (BindState, Outcome))
    ensures st.calls <= r.0.calls && st.console <= r.0.console && r.0.nextName >= st.nextName
    ensures st.vbos.Keys <= r.0.vbos.Keys
    decreases |steps|
  {
    if steps == [] then (st, Completed)
    else
      match steps[0]
      case BadIndex(_) => (st, Aborted)
      case Visit(n) =>
        if n >= |m.nodes| then (st, Undefined)
        else
          var mesh := m.nodes[n].mesh;
          if 0 <= mesh < |m.meshes| then
            var run := BindMeshRun(m, strideOf, st, m.meshes[mesh]);
            if run.1 != Completed then run else BindSteps(m, strideOf, run.0, steps[1..])
          else BindSteps(m, strideOf, st, steps[1..])
  }

  /** Binding along `a + b` is binding along `a`, then along `b` if `a` completed. */
  lemma {:induction false} BindStepsAppend(m: Model, strideOf: (Accessor, BufferView) -> int, st: BindState, a: seq<Step>, b: seq<Step>)
    ensures BindSteps(m, strideOf, st, a + b)
            == (var run := BindSteps(m, strideOf, st, a);
                if run.1 != Completed then run else BindSteps(m, strideOf, run.0, b))
    decreases |a|
  {
    if a != [] {
      assert (a + b)[0] == a[0];
      assert (a + b)[1..] == a[1..] + b;
      match a[0]
      case BadIndex(_) =>
      case Visit(n) =>
        if n < |m.nodes| {
          var mesh := m.nodes[n].mesh;
          if 0 <= mesh < |m.meshes| {
            var (st1, o) := BindMeshRun(m, strideOf, st, m.meshes[mesh]);
            if o == Completed {
              BindStepsAppend(m, strideOf, st1, a[1..], b);
            }
          } else {
            BindStepsAppend(m, strideOf, st, a[1..], b);
          }
        }
    } else {
      assert a + b == b;
    }
  }

  /** bindMesh over the meshes `order`, one after the other. */
  function BindMeshes(m: Model, strideOf: (Accessor, BufferView) -> int, st: BindState, order: seq<nat>): (BindState, Outcome)
    requires forall i <- order :: i < |m.meshes|
    decreases |order|
  {
    if order == [] then (st, Completed)
    else
      assert order[0] in order;
      assert forall i <- order[1..] :: i in order;
      var run := BindMeshRun(m, strideOf, st, m.meshes[order[0]]);
      if run.1 != Completed then run else BindMeshes(m, strideOf, run.0, order[1..])
  }

  /** A completed bind traversal met no out-of-range index. */
  lemma {:induction false} BindStepsVisits(m: Model, strideOf: (Accessor, BufferView) -> int, st: BindState, steps: seq<Step>)
    requires BindSteps(m, strideOf, st, steps).1 == Completed
    ensures forall s <- steps :: s.Visit? && s.node < |m.nodes|
    decreases |steps|
  {
    if steps != [] {
      assert forall s <- steps :: s == steps[0] || s in steps[1..];
      if steps[0].Visit? && steps[0].node < |m.nodes| {
        var mesh := m.nodes[steps[0].node].mesh;
        if 0 <= mesh < |m.meshes| {
          BindStepsVisits(m, strideOf, BindMeshRun(m, strideOf, st, m.meshes[mesh]).0, steps[1..]);
        } else {
          BindStepsVisits(m, strideOf, st, steps[1..]);
        }
      }
    }
  }

  lemma BindMeshNextName(m: Model, strideOf: (Accessor, BufferView) -> int, st: BindState, mesh: Mesh)
    requires BindMeshRun(m, strideOf, st, mesh).1 == Completed
    ensures BindMeshRun(m, strideOf, st, mesh).0.nextName == st.nextName + |TargetViews(m, 0)|
  {
    var up := UploadViews(m, st, 0);
    UploadViewsNames(m, st, 0);
    BindPrimitivesEffect(m, strideOf, up.0, mesh.primitives);
  }

  lemma MulSucc(a: nat, b: nat)
    ensures (a + 1) * b == b + a * b
  {
  }

  /** Binding a sequence of meshes to completion generates a full set of names for
      the views with a target per mesh: the names of earlier passes are
      overwritten, never released. */
  lemma {:induction false} BindMeshesNames(m: Model, strideOf: (Accessor, BufferView) -> int, st: BindState, order: seq<nat>)
    requires forall i <- order :: i < |m.meshes|
    requires BindMeshes(m, strideOf, st, order).1 == Completed
    ensures BindMeshes(m, strideOf, st, order).0.nextName == st.nextName + |order| * |TargetViews(m, 0)|
    decreases |order|
  {
    if order != [] {
      assert order[0] in order;
      assert forall i <- order[1..] :: i in order;
      var run := BindMeshRun(m, strideOf, st, m.meshes[order[0]]);
      BindMeshNextName(m, strideOf, st, m.meshes[order[0]]);
      BindMeshesNames(m, strideOf, run.0, order[1..]);
      MulSucc(|order[1..]|, |TargetViews(m, 0)|);
    }
  }

  /** After binding a non-empty sequence of meshes to completion, every view with a
      target holds the name generated for it by the last bindMesh. */
  lemma {:induction false} BindMeshesLastPass(m: Model, strideOf: (Accessor, BufferView) -> int, st: BindState, order: seq<nat>)
    requires forall i <- order :: i < |m.meshes|
    requires BindMeshes(m, strideOf, st, order).1 == Completed
    requires |order| > 0
    ensures var r := BindMeshes(m, strideOf, st, order).0; var t := TargetViews(m, 0);
      forall k :: 0 <= k < |t| ==> t[k] in r.vbos && r.vbos[t[k]] == r.nextName - |t| + k
    decreases |order|
  {
    assert order[0] in order;
    assert forall i <- order[1..] :: i in order;
    var run := BindMeshRun(m, strideOf, st, m.meshes[order[0]]);
    if |order| == 1 {
      BindMeshMap(m, strideOf, st, m.meshes[order[0]]);
      BindMeshNextName(m, strideOf, st, m.meshes[order[0]]);
      assert BindMeshes(m, strideOf, run.0, order[1..]) == (run.0, Completed);
    } else {
      BindMeshesLastPass(m, strideOf, run.0, order[1..]);
    }
  }

  /** A bind traversal without out-of-range indices is bindMesh over the meshes of
      the walk in walk order -- the order the draw traversal draws them in. */
  lemma {:induction false} BindStepsByMeshes(m: Model, strideOf: (Accessor, BufferView) -> int, st: BindState, steps: seq<Step>)
    requires forall s <- steps :: s.Visit? && s.node < |m.nodes|
    ensures BindSteps(m, strideOf, st, steps) == BindMeshes(m, strideOf, st, MeshOrder(m, steps))
    decreases |steps|
  {
    if steps != [] {
      assert steps[0] in steps;
      assert forall s <- steps[1..] :: s in steps;
      var mesh := m.nodes[steps[0].node].mesh;
      var rest := MeshOrder(m, steps[1..]);
      if 0 <= mesh < |m.meshes| {
        var order := [mesh as nat] + rest;
        assert MeshOrder(m, steps) == order;
        assert order[0] == mesh as nat && order[1..] == rest;
        var run := BindMeshRun(m, strideOf, st, m.meshes[mesh]);
        if run.1 == Completed {
          BindStepsByMeshes(m, strideOf, run.0, steps[1..]);
        }
      } else {
        assert MeshOrder(m, steps) == [] + rest == rest;
        BindStepsByMeshes(m, strideOf, st, steps[1..]);
      }
    }
  }

  // ---------------------------------------------------------------------------
  // The walk, one level at a time: what bindModelNodes and bindModel do per node.

  /** Binding the walk from `n`: bindMesh on the node's mesh if it has one in
      range, then the walks of its children. */
  lemma BindWalkNode(m: Model, strideOf: (Accessor, BufferView) -> int, st: BindState, rank: seq<nat>, n: nat)
    requires Ranked(m, rank) && n < |m.nodes| && rank[n] > 0
    ensures var mesh := m.nodes[n].mesh;
      BindSteps(m, strideOf, st, Walk(m, rank, n))
      == if 0 <= mesh < |m.meshes| then
           var run := BindMeshRun(m, strideOf, st, m.meshes[mesh]);
           if run.1 != Completed then run else BindSteps(m, strideOf, run.0, WalkFrom(m, rank, n, 0))
         else BindSteps(m, strideOf, st, WalkFrom(m, rank, n, 0))
  {
    assert Walk(m, rank, n)[1..] == WalkFrom(m, rank, n, 0);
  }

  /** Binding the children of `n` from position `i`: an out-of-range child index
      fails the assertion, an in-range one has its walk bound before the rest. */
  lemma BindWalkChild(m: Model, strideOf: (Accessor, BufferView) -> int, st: BindState, rank: seq<nat>, n: nat, i: nat)
    requires Ranked(m, rank) && n < |m.nodes| && rank[n] > 0 && i < |m.nodes[n].children|
    ensures var c := m.nodes[n].children[i];
      && (0 <= c < |m.nodes| ==> 0 < rank[c] < rank[n])
      && BindSteps(m, strideOf, st, WalkFrom(m, rank, n, i))
         == if 0 <= c < |m.nodes| then
              var run := BindSteps(m, strideOf, st, Walk(m, rank, c));
              if run.1 != Completed then run else BindSteps(m, strideOf, run.0, WalkFrom(m, rank, n, i + 1))
            else (st, Aborted)
  {
    var c := m.nodes[n].children[i];
    var head := if 0 <= c < |m.nodes| then Walk(m, rank, c) else [BadIndex(c)];
    var tail := WalkFrom(m, rank, n, i + 1);
    assert WalkFrom(m, rank, n, i) == head + tail;
    BindStepsAppend(m, strideOf, st, head, tail);
  }

  /** Binding the default scene's roots from position `i`: like the children of a node. */
  lemma BindWalkRoot(m: Model, strideOf: (Accessor, BufferView) -> int, st: BindState, rank: seq<nat>, i: nat)
    requires SceneRanked(m, rank) && i < |m.scenes[m.defaultScene].nodes|
    ensures var r := m.scenes[m.defaultScene].nodes[i];
      && (0 <= r < |m.nodes| ==> rank[r] > 0)
      && BindSteps(m, strideOf, st, RootsFrom(m, rank, i))
         == if 0 <= r < |m.nodes| then
              var run := BindSteps(m, strideOf, st, Walk(m, rank, r));
              if run.1 != Completed then run else BindSteps(m, strideOf, run.0, RootsFrom(m, rank, i + 1))
            else (st, Aborted)
  {
    var r := m.scenes[m.defaultScene].nodes[i];
    var head := if 0 <= r < |m.nodes| then Walk(m, rank, r) else [BadIndex(r)];
    var tail := RootsFrom(m, rank, i + 1);
    assert RootsFrom(m, rank, i) == head + tail;
    BindStepsAppend(m, strideOf, st, head, tail);
  }
}
