/** The renderer window: the GL state it builds from the loaded document, the
    frame-rate figures it keeps, and the camera and light parameters its controls
    change.  Each method does what the window's member function does, step by
    step, and is specified by the functions of Binding, Drawing, Metrics and
    Controls. */
module App {
  import opened Gltf
  import opened Gl
  import opened Binding
  import opened Drawing
  import opened Metrics
  import opened Controls

  class Window {
    /** The loaded document. */
    const model: Model
    /** The byte stride tinygltf reports for an accessor read through a view. */
    const strideOf: (Accessor, BufferView) -> int
    /** The unit viewing direction for a yaw and a pitch, in degrees. */
    const frontOf: (real, real) -> Vec3
    /** The normalised cross product of the viewing direction and the up vector. */
    const rightOf: (Vec3, Vec3) -> Vec3

    // The buffer map the draw pass reads, the calls issued so far, the next name
    // glGenBuffers hands out, and the lines written to standard output.
    var vbos: map<int, Handle>
    var calls: seq<Call>
    var nextName: Handle
    var console: seq<string>

    // Frame-rate metrics: the millisecond the timer was last (re)started, the
    // frames rendered since, the last computed rate and the rate the label shows.
    var timerStart: nat
    var frameCount: nat
    var fps: nat
    var fpsShown: nat
    var animated: bool
    /** How many repaints have been requested with update(). */
    var redraws: nat

    // Parameters the controls change.
    var morphingParam: int
    var cameraSpeed: real
    var isDirectional: bool
    var isSpot: bool
    var spotPosition: Vec3
    var cameraPos: Vec3
    var cameraFront: Vec3
    var cameraUp: Vec3
    var yaw: real
    var pitch: real
    var dragged: bool
    var mouseStart: Point

    /** The state the bind pass threads through, with `v` as the buffer map. */
    function Device(v: map<int, Handle>): BindState
      reads this
    {
      BindState(v, calls, nextName, console)
    }

    /** The window as constructed at time `now`: the timer started, nothing bound,
        nothing counted, the label showing 0. */
    constructor (model: Model, strideOf: (Accessor, BufferView) -> int,
                 frontOf: (real, real) -> Vec3, rightOf: (Vec3, Vec3) -> Vec3, now: nat)
      ensures this.model == model && this.strideOf == strideOf
      ensures this.frontOf == frontOf && this.rightOf == rightOf
      ensures vbos == map[] && calls == [] && nextName == 1 && console == []
      ensures timerStart == now && frameCount == 0 && fps == 0 && fpsShown == 0
      ensures !animated && redraws == 0 && !dragged
    {
      this.model := model;
      this.strideOf := strideOf;
      this.frontOf := frontOf;
      this.rightOf := rightOf;
      vbos := map[];
      calls := [];
      nextName := 1;
      console := [];
      timerStart := now;
      frameCount := 0;
      fps := 0;
      fpsShown := 0;
      animated := false;
      redraws := 0;
      dragged := false;
    }

    // -------------------------------------------------------------------------
    // Binding.

    /** bindMesh: `vbosIn` is the map passed by reference, `vbosOut` what it holds
        afterwards. */
    method BindMesh(vbosIn: map<int, Handle>, mesh: Mesh) returns (vbosOut: map<int, Handle>, o: Outcome)
      requires BindMeshRun(model, strideOf, Device(vbosIn), mesh).1 != Undefined
      modifies this`calls, this`nextName, this`console
      ensures (Device(vbosOut), o) == BindMeshRun(model, strideOf, old(Device(vbosIn)), mesh)
    {
      ghost var goal := BindMeshRun(model, strideOf, Device(vbosIn), mesh);
      vbosOut, o := UploadViewLoop(vbosIn);
      if o != Completed {
        return;
      }
      var p := 0;
      while p < |mesh.primitives|
        invariant 0 <= p <= |mesh.primitives|
        invariant BindPrimitives(model, strideOf, BindState(vbosOut, calls, nextName, console), mesh.primitives[p..]) == goal
      {
        assert mesh.primitives[p..][1..] == mesh.primitives[p + 1..];
        var primitive := mesh.primitives[p];
        vbosOut, o := BindAttributeLoop(vbosOut, primitive.attributes);
        if o != Completed {
          return;
        }
        p := p + 1;
      }
      o := Completed;
    }

    /** The first loop of bindMesh: every buffer view with a target gets a fresh
        buffer, bound to the view's target and filled with the view's bytes. */
    method UploadViewLoop(vbosIn: map<int, Handle>) returns (vbosOut: map<int, Handle>, o: Outcome)
      requires UploadViews(model, Device(vbosIn), 0).1 != Undefined
      modifies this`calls, this`nextName
      ensures (Device(vbosOut), o) == UploadViews(model, old(Device(vbosIn)), 0)
    {
      ghost var st0 := Device(vbosIn);
      vbosOut := vbosIn;
      var i := 0;
      while i < |model.bufferViews|
        invariant 0 <= i <= |model.bufferViews|
        invariant UploadViews(model, BindState(vbosOut, calls, nextName, console), i) == UploadViews(model, st0, 0)
      {
        var view := model.bufferViews[i];
        ghost var before := BindState(vbosOut, calls, nextName, console);
        if view.target != 0 {
          var buffer := model.buffers[view.buffer];
          var vbo := nextName;
          nextName := nextName + 1;
          calls := calls + [GenBuffer(vbo)];
          vbosOut := vbosOut[i := vbo];
          calls := calls + [BindBuffer(view.target, vbo)];
          if |buffer.data| == 0 {
            assert BindState(vbosOut, calls, nextName, console) == NameView(model, before, i);
            o := Aborted;
            return;
          }
          calls := calls + [BufferData(view.target, buffer.data[view.byteOffset .. view.byteOffset + view.byteLength])];
          assert BindState(vbosOut, calls, nextName, console) == UploadView(model, before, i);
        }
        i := i + 1;
      }
      o := Completed;
    }

    /** The loop of bindMesh over the attributes of one primitive, in map order:
        look the accessor's view up in the map (inserting 0 when absent), bind
        it, and enable and point the attribute's slot, or print that it has none. */
    method BindAttributeLoop(vbosIn: map<int, Handle>, attributes: seq<Attribute>) returns (vbosOut: map<int, Handle>, o: Outcome)
      requires BindAttributes(model, strideOf, Device(vbosIn), attributes).1 != Undefined
      modifies this`calls, this`console
      ensures (Device(vbosOut), o) == BindAttributes(model, strideOf, old(Device(vbosIn)), attributes)
    {
      ghost var goal := BindAttributes(model, strideOf, BindState(vbosIn, calls, nextName, console), attributes);
      vbosOut := vbosIn;
      var k := 0;
      while k < |attributes|
        invariant 0 <= k <= |attributes|
        invariant BindAttributes(model, strideOf, BindState(vbosOut, calls, nextName, console), attributes[k..]) == goal
      {
        assert attributes[k..][1..] == attributes[k + 1..];
        ghost var before := BindState(vbosOut, calls, nextName, console);
        var attrib := attributes[k];
        var accessor := model.accessors[attrib.accessor];
        var byteStride := strideOf(accessor, model.bufferViews[accessor.bufferView]);
        var vbo := NameOrZero(vbosOut, accessor.bufferView);
        vbosOut := vbosOut[accessor.bufferView := vbo];
        calls := calls + [BindBuffer(ARRAY_BUFFER, vbo)];
        var size := ComponentCount(accessor.accessorType);
        var vaa := SlotOf(attrib.semantic);
        if vaa > -1 {
          var pointer := [EnableVertexAttrib(vaa),
                          VertexAttribPointer(vaa, size, accessor.componentType, accessor.normalized,
                                              byteStride, accessor.byteOffset)];
          calls := calls + pointer;
          AppendAssoc(before.calls, [BindBuffer(ARRAY_BUFFER, vbo)], pointer);
        } else {
          console := console + ["vaa missing: " + attrib.semantic];
          assert [BindBuffer(ARRAY_BUFFER, vbo)] + [] == [BindBuffer(ARRAY_BUFFER, vbo)];
        }
        assert BindState(vbosOut, calls, nextName, console) == AttributeStep(model, strideOf, before, attrib).0;
        k := k + 1;
      }
      o := Completed;
    }

    /** bindModelNodes: bind the node's mesh, then the subtree of every child in
        order; an out-of-range child index fails the assertion. */
    method BindModelNodes(vbosIn: map<int, Handle>, n: nat, ghost rank: seq<nat>)
      returns (vbosOut: map<int, Handle>, o: Outcome)
      requires Ranked(model, rank) && n < |model.nodes| && rank[n] > 0
      requires BindSteps(model, strideOf, Device(vbosIn), Walk(model, rank, n)).1 != Undefined
      modifies this`calls, this`nextName, this`console
      ensures (Device(vbosOut), o) == BindSteps(model, strideOf, old(Device(vbosIn)), Walk(model, rank, n))
      decreases rank[n]
    {
      ghost var goal := BindSteps(model, strideOf, BindState(vbosIn, calls, nextName, console), Walk(model, rank, n));
      BindWalkNode(model, strideOf, BindState(vbosIn, calls, nextName, console), rank, n);
      var node := model.nodes[n];
      vbosOut := vbosIn;
      if 0 <= node.mesh < |model.meshes| {
        vbosOut, o := BindMesh(vbosOut, model.meshes[node.mesh]);
        if o != Completed {
          return;
        }
      }
      var i := 0;
      while i < |node.children|
        invariant 0 <= i <= |node.children|
        invariant BindSteps(model, strideOf, BindState(vbosOut, calls, nextName, console), WalkFrom(model, rank, n, i)) == goal
      {
        var c := node.children[i];
        BindWalkChild(model, strideOf, BindState(vbosOut, calls, nextName, console), rank, n, i);
        if !(0 <= c < |model.nodes|) {
          o := Aborted;
          return;
        }
        vbosOut, o := BindModelNodes(vbosOut, c, rank);
        if o != Completed {
          return;
        }
        i := i + 1;
      }
      o := Completed;
    }

    /** bindModel: bind every root of the default scene, in order, into a fresh
        map; an out-of-range root index fails the assertion. */
    method BindModel(ghost rank: seq<nat>) returns (result: map<int, Handle>, o: Outcome)
      requires SceneRanked(model, rank)
      requires BindSteps(model, strideOf, Device(map[]), SceneWalk(model, rank)).1 != Undefined
      modifies this`calls, this`nextName, this`console
      ensures (Device(result), o) == BindSteps(model, strideOf, old(Device(map[])), SceneWalk(model, rank))
    {
      ghost var goal := BindSteps(model, strideOf, Device(map[]), SceneWalk(model, rank));
      result := map[];
      var scene := model.scenes[model.defaultScene];
      var i := 0;
      while i < |scene.nodes|
        invariant 0 <= i <= |scene.nodes|
        invariant BindSteps(model, strideOf, BindState(result, calls, nextName, console), RootsFrom(model, rank, i)) == goal
      {
        var r := scene.nodes[i];
        BindWalkRoot(model, strideOf, BindState(result, calls, nextName, console), rank, i);
        if !(0 <= r < |model.nodes|) {
          o := Aborted;
          return;
        }
        result, o := BindModelNodes(result, r, rank);
        if o != Completed {
          return;
        }
        i := i + 1;
      }
      o := Completed;
    }

    // -------------------------------------------------------------------------
    // Drawing.

    /** drawMesh: one index-buffer bind and one indexed draw per primitive. */
    method DrawMesh(mesh: Mesh) returns (o: Outcome)
      requires DrawPrimitives(model, vbos, mesh.primitives).1 != Undefined
      modifies this`calls
      ensures (calls, o) == After(old(calls), DrawPrimitives(model, vbos, mesh.primitives))
    {
      ghost var goal := DrawPrimitives(model, vbos, mesh.primitives);
      var i := 0;
      while i < |mesh.primitives|
        invariant 0 <= i <= |mesh.primitives|
        invariant old(calls) + goal.0 == calls + DrawPrimitives(model, vbos, mesh.primitives[i..]).0
        invariant goal.1 == DrawPrimitives(model, vbos, mesh.primitives[i..]).1
      {
        assert mesh.primitives[i..][1..] == mesh.primitives[i + 1..];
        var primitive := mesh.primitives[i];
        var indexAccessor := model.accessors[primitive.indices];
        if indexAccessor.bufferView !in vbos {
          assert calls + [] == calls;
          o := Aborted;
          return;
        }
        ghost var before := calls;
        calls := calls + [BindBuffer(ELEMENT_ARRAY_BUFFER, vbos[indexAccessor.bufferView])];
        calls := calls + [DrawElements(primitive.mode, indexAccessor.count, indexAccessor.componentType, indexAccessor.byteOffset)];
        ghost var later := DrawPrimitives(model, vbos, mesh.primitives[i + 1..]).0;
        assert before + ([calls[|calls| - 2], calls[|calls| - 1]] + later) == calls + later;
        i := i + 1;
      }
      assert calls + [] == calls;
      o := Completed;
    }

    /** drawModelNodes: draw the node's mesh, then the subtree of every child in
        order; child indices are not checked. */
    method DrawModelNodes(n: nat, ghost rank: seq<nat>) returns (o: Outcome)
      requires Ranked(model, rank) && n < |model.nodes| && rank[n] > 0
      requires DrawSteps(model, vbos, Walk(model, rank, n)).1 != Undefined
      modifies this`calls
      ensures (calls, o) == After(old(calls), DrawSteps(model, vbos, Walk(model, rank, n)))
      decreases rank[n]
    {
      ghost var goal := After(calls, DrawSteps(model, vbos, Walk(model, rank, n)));
      DrawWalkNode(model, vbos, rank, n, calls);
      var node := model.nodes[n];
      if 0 <= node.mesh < |model.meshes| {
        ghost var here := After(calls, DrawPrimitives(model, vbos, model.meshes[node.mesh].primitives));
        o := DrawMesh(model.meshes[node.mesh]);
        assert (calls, o) == here;
        if o != Completed {
          return;
        }
      }
      assert After(calls, DrawSteps(model, vbos, WalkFrom(model, rank, n, 0))) == goal;
      var i := 0;
      while i < |node.children|
        invariant 0 <= i <= |node.children|
        invariant After(calls, DrawSteps(model, vbos, WalkFrom(model, rank, n, i))) == goal
      {
        var c := node.children[i];
        DrawWalkChild(model, vbos, rank, n, i, calls);
        o := DrawModelNodes(c, rank);
        if o != Completed {
          return;
        }
        i := i + 1;
      }
      assert calls + [] == calls;
      o := Completed;
    }

    /** drawModel: draw every root of the default scene, in order. */
    method DrawModel(ghost rank: seq<nat>) returns (o: Outcome)
      requires SceneRanked(model, rank)
      requires DrawSteps(model, vbos, SceneWalk(model, rank)).1 != Undefined
      modifies this`calls
      ensures (calls, o) == After(old(calls), DrawSteps(model, vbos, SceneWalk(model, rank)))
    {
      ghost var goal := After(calls, DrawSteps(model, vbos, SceneWalk(model, rank)));
      var scene := model.scenes[model.defaultScene];
      var i := 0;
      while i < |scene.nodes|
        invariant 0 <= i <= |scene.nodes|
        invariant After(calls, DrawSteps(model, vbos, RootsFrom(model, rank, i))) == goal
      {
        var r := scene.nodes[i];
        DrawWalkRoot(model, vbos, rank, i, calls);
        ghost var first := After(calls, DrawSteps(model, vbos, Walk(model, rank, r)));
        o := DrawModelNodes(r, rank);
        assert (calls, o) == first;
        if o != Completed {
          return;
        }
        assert After(calls, DrawSteps(model, vbos, RootsFrom(model, rank, i + 1))) == goal;
        i := i + 1;
      }
      assert calls + [] == calls;
      o := Completed;
    }
  
    // -------------------------------------------------------------------------
    // Frames and the frame-rate guard.

    /** The frame-rate figures as one value. */
    function FrameCounter(): Counter
      reads this
    {
      Counter(timerStart, frameCount, fps)
    }

    /** The guard's callback, at time `now`: after a second or more, compute the
        rate from the frames counted and the elapsed time the timer's restart
        returns, clear the count and show the rate in the label. */
    method ReportMetrics(now: nat)
      requires timerStart <= now
      modifies this`timerStart, this`frameCount, this`fps, this`fpsShown
      ensures FrameCounter() == Report(old(FrameCounter()), now)
      ensures fpsShown == if now - old(timerStart) >= REPORT_INTERVAL_MS then fps else old(fpsShown)
    {
      if now - timerStart >= REPORT_INTERVAL_MS {
        var elapsed := now - timerStart;
        timerStart := now;
        fps := RoundedFps(frameCount, elapsed);
        frameCount := 0;
        fpsShown := fps;
      }
    }

    /** onRender at time `now`: draw the scene; once the frame is drawn, count it,
        request the next frame when animated, and let the guard run as the
        function returns.  A draw that throws `std::out_of_range` skips the count
        and the repaint request; `unwinds` says whether a handler outside the
        window catches the exception, so that the stack unwinds and the guard
        still runs (without a handler the program terminates, and whether the
        stack unwinds first is implementation-defined). */
    method OnRender(now: nat, unwinds: bool, ghost rank: seq<nat>) returns (o: Outcome)
      requires SceneRanked(model, rank)
      requires DrawSteps(model, vbos, SceneWalk(model, rank)).1 != Undefined
      requires timerStart <= now
      modifies this`calls, this`timerStart, this`frameCount, this`fps, this`fpsShown, this`redraws
      ensures (calls, o) == After(old(calls), DrawSteps(model, vbos, SceneWalk(model, rank)))
      ensures o == Completed ==> FrameCounter() == Frame(old(FrameCounter()), now)
      ensures o == Completed ==> redraws == old(redraws) + if animated then 1 else 0
      ensures o == Aborted && unwinds ==> FrameCounter() == Report(old(FrameCounter()), now)
      ensures o == Completed || unwinds ==> fpsShown == if now - old(timerStart) >= REPORT_INTERVAL_MS then fps else old(fpsShown)
      ensures o == Aborted ==> redraws == old(redraws)
      ensures o == Aborted && !unwinds ==> FrameCounter() == old(FrameCounter()) && fpsShown == old(fpsShown)
    {
      o := DrawModel(rank);
      if o == Completed {
        frameCount := frameCount + 1;
        if animated {
          redraws := redraws + 1;
        }
      } else if !unwinds {
        return;
      }
      ReportMetrics(now);
    }

    // -------------------------------------------------------------------------
    // Initialisation.

    /** The part of onInit the model keeps: bind the document into the buffer map
        the draw pass reads, then set the initial camera, light and morphing
        parameters.  A bind pass that stops ends the program before `vbos` is
        assigned. */
    method OnInit(ghost rank: seq<nat>) returns (o: Outcome)
      requires SceneRanked(model, rank)
      requires BindSteps(model, strideOf, Device(map[]), SceneWalk(model, rank)).1 != Undefined
      modifies this`vbos, this`calls, this`nextName, this`console
      modifies this`cameraPos, this`cameraFront, this`cameraUp, this`yaw, this`pitch, this`cameraSpeed
      modifies this`isDirectional, this`isSpot, this`spotPosition, this`morphingParam
      ensures var run := BindSteps(model, strideOf, old(Device(map[])), SceneWalk(model, rank));
        && o == run.1 && calls == run.0.calls && nextName == run.0.nextName && console == run.0.console
        && (o == Completed ==> vbos == run.0.vbos)
      ensures o == Completed ==>
        && cameraPos == Vec3(0.0, 2.0, 7.0) && cameraUp == UP
        && yaw == -90.0 && pitch == -13.6 && cameraFront == frontOf(-90.0, -13.6)
        && cameraSpeed == INITIAL_SPEED && !isDirectional && !isSpot && spotPosition == Vec3(0.0, 5.0, 3.0)
        && morphingParam == MORPHING_MAX
      ensures o != Completed ==> vbos == old(vbos)
      ensures o != Completed ==>
        && cameraPos == old(cameraPos) && cameraFront == old(cameraFront) && cameraUp == old(cameraUp)
        && yaw == old(yaw) && pitch == old(pitch) && cameraSpeed == old(cameraSpeed)
        && isDirectional == old(isDirectional) && isSpot == old(isSpot)
        && spotPosition == old(spotPosition) && morphingParam == old(morphingParam)
    {
      ghost var run := BindSteps(model, strideOf, Device(map[]), SceneWalk(model, rank));
      var bound;
      bound, o := BindModel(rank);
      assert (Device(bound), o) == run;
      if o != Completed {
        return;
      }
      vbos := bound;
      SetInitialParameters();
    }

    /** The initial camera, light and morphing parameters onInit sets. */
    method SetInitialParameters()
      modifies this`cameraPos, this`cameraFront, this`cameraUp, this`yaw, this`pitch, this`cameraSpeed
      modifies this`isDirectional, this`isSpot, this`spotPosition, this`morphingParam
      ensures cameraPos == Vec3(0.0, 2.0, 7.0) && cameraUp == UP
      ensures yaw == -90.0 && pitch == -13.6 && cameraFront == frontOf(-90.0, -13.6)
      ensures cameraSpeed == INITIAL_SPEED && !isDirectional && !isSpot && spotPosition == Vec3(0.0, 5.0, 3.0)
      ensures morphingParam == MORPHING_MAX
    {
      cameraPos := Vec3(0.0, 2.0, 7.0);
      cameraFront := Vec3(0.0, 0.0, -4.0);
      cameraUp := Vec3(0.0, 1.0, 0.0);
      yaw := -90.0;
      pitch := -13.6;
      cameraSpeed := 0.01;
      cameraFront := frontOf(yaw, pitch);
      isDirectional := false;
      isSpot := false;
      spotPosition := Vec3(0.0, 5.0, 3.0);
      morphingParam := 100;
    }

    // -------------------------------------------------------------------------
    // Controls.

    /** The morphing slider moved to `state`. */
    method ChangeMorphingParam(state: int)
      modifies this`morphingParam, this`redraws
      ensures morphingParam == MorphingFromSlider(state) && redraws == old(redraws) + 1
    {
      morphingParam := 100 - state;
      redraws := redraws + 1;
    }

    /** The speed slider moved to `s`. */
    method ChangeCameraSpeed(s: int)
      modifies this`cameraSpeed, this`redraws
      ensures cameraSpeed == SpeedFromSlider(s) && redraws == old(redraws) + 1
    {
      cameraSpeed := s as real / 1000.0;
      redraws := redraws + 1;
    }

    /** The directional-light checkbox reported `state`, which is not looked at. */
    method ChangeDirectionalLight(state: int)
      modifies this`isDirectional, this`redraws
      ensures isDirectional == FlagAfter(old(isDirectional), [state]) && redraws == old(redraws) + 1
    {
      isDirectional := !isDirectional;
      redraws := redraws + 1;
    }

    /** The spot-light checkbox reported `state`, which is not looked at. */
    method ChangeSpotLight(state: int)
      modifies this`isSpot, this`redraws
      ensures isSpot == FlagAfter(old(isSpot), [state]) && redraws == old(redraws) + 1
    {
      isSpot := !isSpot;
      redraws := redraws + 1;
    }

    /** keyPressEvent: move the camera for W, S, A, D, V and C and repaint; any
        other key returns at once. */
    method KeyPressEvent(key: int)
      modifies this`cameraPos, this`redraws
      ensures cameraPos == Moved(key, old(cameraPos), cameraSpeed, cameraFront, rightOf(cameraFront, cameraUp))
      ensures redraws == old(redraws) + if IsMovementKey(key) then 1 else 0
    {
      if key == KEY_W {
        cameraPos := Plus(cameraPos, Times(cameraSpeed, cameraFront));
      } else if key == KEY_S {
        cameraPos := Minus(cameraPos, Times(cameraSpeed, cameraFront));
      } else if key == KEY_A {
        var norm := rightOf(cameraFront, cameraUp);
        cameraPos := Minus(cameraPos, Times(cameraSpeed, norm));
      } else if key == KEY_D {
        var norm := rightOf(cameraFront, cameraUp);
        cameraPos := Plus(cameraPos, Times(cameraSpeed, norm));
      } else if key == KEY_V {
        cameraPos := cameraPos.(y := cameraPos.y + cameraSpeed);
      } else if key == KEY_C {
        cameraPos := cameraPos.(y := cameraPos.y - cameraSpeed);
      } else {
        return;
      }
      redraws := redraws + 1;
    }

    /** A mouse button went down at `pos`: a drag starts there. */
    method MousePressEvent(pos: Point)
      modifies this`mouseStart, this`dragged
      ensures mouseStart == pos && dragged
    {
      mouseStart := pos;
      dragged := true;
    }

    /** The mouse moved to `pos`: while dragging, turn the camera by the distance
        moved, recompute the viewing direction, continue the drag from `pos` and
        repaint; otherwise do nothing. */
    method MouseMoveEvent(pos: Point)
      modifies this`yaw, this`pitch, this`cameraFront, this`mouseStart, this`redraws
      ensures old(dragged) ==>
        && (yaw, pitch) == Look(old(yaw), old(pitch), old(mouseStart), pos)
        && cameraFront == frontOf(yaw, pitch) && mouseStart == pos && redraws == old(redraws) + 1
      ensures !old(dragged) ==>
        && yaw == old(yaw) && pitch == old(pitch) && cameraFront == old(cameraFront)
        && mouseStart == old(mouseStart) && redraws == old(redraws)
    {
      if dragged {
        var xDiff := pos.x - mouseStart.x;
        var yDiff := mouseStart.y - pos.y;
        yaw := yaw + xDiff as real * 0.1;
        pitch := pitch + yDiff as real * 0.1;
        cameraFront := frontOf(yaw, pitch);
        mouseStart := pos;
        redraws := redraws + 1;
      }
    }

    /** A mouse button went up: the drag ends. */
    method MouseReleaseEvent()
      modifies this`dragged
      ensures !dragged
    {
      dragged := false;
    }
  }
}
