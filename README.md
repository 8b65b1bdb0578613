# cube-morphing renderer window, modelled in Dafny

This project models the core of the renderer window of cube-morphing (`src/App/Window.cpp`). It covers three parts.

- **The glTF bind and draw passes.**
  - `bindModel` walks the default scene's node hierarchy depth-first and calls `bindMesh` for every node that has a mesh.
  - `bindMesh` creates, binds and fills one GPU buffer per buffer view that has a non-zero `target`, and records its name in a map from view index to buffer name (`vbos`).
  - It then binds the buffer of every vertex attribute of every primitive. POSITION, NORMAL and TEXCOORD_0 get vertex slots 0, 1 and 2. Any other semantic gets a console line.
  - `drawModel` walks the same hierarchy. `drawMesh` binds each primitive's index buffer, looked up with `vbos.at`, and issues one indexed draw.
- **The frame counter.** `onRender` counts each drawn frame. The guard that `captureMetrics` returns then runs as `onRender` returns. Once a second or more has passed since the timer last started, it reports the rounded frame rate, clears the count and restarts the timer.
- **The controls.**
  - The speed and morphing sliders.
  - The two light checkboxes.
  - The movement keys W/S/A/D/V/C.
  - Mouse-drag looking, which is active only between a press and a release.

The document is the tinygltf model as datatypes (module `Gltf`). The GPU is an append-only log of calls (module `Gl`):
- `GenBuffer`, `BindBuffer`, `BufferData`, `EnableVertexAttrib`, `VertexAttribPointer` and `DrawElements`;
- buffer names come from a counter, so each new name is fresh and non-zero.

**Outcomes.** Every run of the renderer's code ends in one of three ways:
- `Completed`;
- `Aborted`: a failed `assert`, or an uncaught `std::out_of_range` from `.at()`;
- `Undefined`: an unchecked vector index out of range.

The methods of `App.Window` require that their run is not `Undefined`. Everything else is modelled, error paths included.

**Acyclic hierarchy.** Section 3.5.2 of the glTF 2.0 standard requires nodes to form disjoint strict trees. The source has no guard against cycles. If a cycle can be reached from the default scene's roots, `bindModelNodes` and `drawModelNodes` recurse without bound, unless the pass stops first: a failed `assert`, a throwing `.at`, or `data.at(0)` on an empty buffer. The model requires a ghost `rank` that decreases from every reachable node to each of its in-range children (`Gltf.Ranked`, `Gltf.SceneRanked`). This rules out every reachable cycle. Cycles among nodes the roots cannot reach are allowed. The rank does not forbid a node with two parents either, and the source keeps no visited set, so such a node is walked once per path from a root (`Gltf.SharedChildWalkedTwice`).

**The walk.** Both passes are specified by the same preorder walk (`Gltf.Walk`, `Gltf.SceneWalk`). In that walk, an out-of-range child or root index is a `BadIndex` step.
- The bind pass checks these indices with `assert`, so a `BadIndex` step is `Aborted` there.
- The draw pass does not check them, so the same step is `Undefined` there.

**Buffer views.** Two behaviours of the code are modelled as written:
- `bindMesh` regenerates the buffers of all buffer views with a non-zero target every time a node with a mesh is reached. The names bound earlier are overwritten and never released (`Binding.BindMeshesNames`, `Binding.BindMeshesLastPass`).
- `vbos[accessor.bufferView]` in the attribute loop uses `operator[]`. It inserts the name 0 for a view that has no buffer (`Binding.BindAttributesMap`).

**Header and implementation disagree.** `src/App/Window.h` declares `bindModel` as returning a pair and has no `vbos` member. The implementation returns a `std::map<int, GLuint>` and stores it in `vbos`. The model follows the implementation: `vbos` is a `map<int, Handle>` field of `App.Window`.

Files:
- `gltf.dfy`: the document and the walk.
- `gl.dfy`: the call log and outcomes.
- `binding.dfy`: `bindMesh` and the bind pass as functions, with their lemmas.
- `drawing.dfy`: `drawMesh` and the draw pass as functions, with their lemmas.
- `passes.dfy`: the two passes together.
- `metrics.dfy`: frame-rate rounding and the frame counter.
- `controls.dfy`: what the sliders, checkboxes, keys and mouse do.
- `window.dfy`: the `Window` class, whose methods carry out the source's loops and recursion step by step.
  - The bind, draw, frame and control methods are proved equal to the functions above.
  - The constructor, `SetInitialParameters`, `MousePressEvent` and `MouseReleaseEvent` only assign fields. Their contracts give the field values directly.

## Model

| member | source | states |
|---|---|---|
| Binding.SlotOf | src/App/Window.cpp:428-431 | POSITION gives slot 0, NORMAL slot 1, TEXCOORD_0 slot 2, and every other semantic -1 (each as an if-and-only-if) |
| Binding.ComponentCount | src/App/Window.cpp:423-426 | The size passed is 1 for SCALAR and the type code otherwise. It equals the glTF component count for SCALAR and VEC2/3/4, and differs from it for MAT2/3/4 |
| Binding.TargetViewsMembers | src/App/Window.cpp:393-397 | The views the buffer loop names are exactly those with a non-zero target, in ascending order |
| Binding.UploadViews | src/App/Window.cpp:393-410 | Whether it completes or stops partway, the buffer loop keeps the old log as a prefix, prints nothing, never lowers the next name and drops no map entry |
| Binding.NameView | src/App/Window.cpp:401-404 | Naming a view maps it to the next fresh name and keeps every other entry. It appends exactly the GenBuffer and BindBuffer calls for that name and prints nothing |
| Binding.UploadView | src/App/Window.cpp:399-407 | Uploading a view maps it to the next fresh name and keeps every other entry. It keeps the old log and appends exactly its three upload calls, and prints nothing |
| Binding.UploadViewsOutcome | src/App/Window.cpp:393-410 | The buffer loop completes if and only if every view with a target has an existing, non-empty buffer that holds its byte range. It aborts (`data.at(0)`) if and only if the first view that fails has an existing but empty buffer. Every other failure is undefined |
| Binding.UploadViewsNames | src/App/Window.cpp:393-410 | A completed buffer loop adds exactly the target views to the map, named consecutively from the old next name in view order. It keeps every other entry and prints nothing |
| Binding.UploadCallsAllLength | src/App/Window.cpp:401-407 | Each uploaded view costs exactly three calls |
| Binding.UploadCallsAllAt | src/App/Window.cpp:401-407 | The k-th uploaded view's GenBuffer, BindBuffer and BufferData calls are calls 3k to 3k+2, under name h+k |
| Binding.UploadCallsAllFirst | src/App/Window.cpp:393-410 | A view with a target is uploaded before all later target views |
| Binding.UploadViewsCalls | src/App/Window.cpp:393-410 | A completed buffer loop appends exactly the upload calls of the target views, in view order. A view without a target costs no call |
| Binding.BindAttributes | src/App/Window.cpp:416-448 | The attribute loop never aborts, because it has no checked access. It generates no name, only appends to the log and the console, and drops no map entry |
| Binding.BindPrimitives | src/App/Window.cpp:412-449 | The loop over primitives never aborts and generates no name. It only appends to the log and the console, and drops no map entry |
| Binding.BindMeshRun | src/App/Window.cpp:392-451 | Whatever its outcome, bindMesh only appends to the log and the console, never lowers the next name and drops no map entry |
| Binding.BindAttributesOutcome | src/App/Window.cpp:416-419 | The attribute loop completes if and only if every attribute's accessor and that accessor's view exist. A semantic without a slot never stops it |
| Binding.BindAttributesLog | src/App/Window.cpp:416-447 | A completed attribute loop appends each attribute's calls in map order, reads each name from the map as it was when the loop began, and generates no name |
| Binding.BindAttributesConsole | src/App/Window.cpp:446-447 | A completed attribute loop prints one "vaa missing" line per attribute without a slot, in order |
| Binding.BindAttributesMap | src/App/Window.cpp:420 | A completed attribute loop keeps every map entry, and adds the entry 0 for each referenced view that had none |
| Binding.AttributeCallsAllLookedUp | src/App/Window.cpp:420 | Inserting the value `operator[]` returns anyway does not change any later attribute's calls |
| Binding.AttributeCallsAllSlots | src/App/Window.cpp:428-436 | The attribute calls enable slot s if and only if some attribute's semantic maps to s |
| Binding.AttributeCallsAllPointers | src/App/Window.cpp:420-445 | Every attribute binds its view's buffer. Every attribute with a slot gets a pointer call with that slot, its component count, component type, normalisation, stride and offset |
| Binding.BindPrimitivesEffect | src/App/Window.cpp:412-449 | The primitive loop completes if and only if every attribute resolves. It then generates no name, keeps every entry, and adds 0 entries exactly for the referenced views that had none |
| Binding.BindPrimitivesLog | src/App/Window.cpp:412-449 | The completed primitive loop appends every primitive's attribute calls in order, looked up in the map as it was before the loop. The 0 entries inserted on the way change no lookup. It prints one line per attribute without a slot, in order |
| Binding.AttributeCallsAllSameNames | src/App/Window.cpp:420 | Two maps that yield the same name for every view give the same attribute calls |
| Binding.BindMeshLog | src/App/Window.cpp:392-451 | A completed bindMesh appends the target views' upload calls, named consecutively from the old next name. Then come the attribute calls of every primitive, looked up in the map the buffer loop left. It prints one line per attribute without a slot |
| Binding.BindMeshOutcome | src/App/Window.cpp:392-451 | bindMesh completes if and only if every target view can be uploaded and every attribute resolves |
| Binding.BindMeshMap | src/App/Window.cpp:392-451 | After bindMesh, the keys are the old keys, the target views and the views attributes refer to. Target views hold fresh consecutive names. Every other entry is the old one, or 0 |
| Binding.BindMeshKeysExactly | src/App/Window.cpp:393-410 | When the map held only target views and every attribute reads one, the keys after bindMesh are exactly the target views, each named at or after the old next name |
| Binding.BindSteps | src/App/Window.cpp:368-390 | Whatever its outcome, the bind pass only appends to the log and the console, never lowers the next name and drops no map entry |
| Binding.BindStepsAppend | src/App/Window.cpp:368-390 | Binding along two walk segments is binding the first, then the second only if the first completed |
| Binding.BindStepsVisits | src/App/Window.cpp:374-387 | A completed bind pass met no out-of-range child or root index |
| Binding.BindMeshNextName | src/App/Window.cpp:393-410 | Each completed bindMesh consumes one fresh name per target view |
| Binding.BindMeshesNames | src/App/Window.cpp:370-371 | Binding n meshes generates n full sets of names: buffers are regenerated for every mesh reached |
| Binding.BindMeshesLastPass | src/App/Window.cpp:393-410 | After binding one or more meshes, every target view holds the name from the last bindMesh |
| Binding.BindStepsByMeshes | src/App/Window.cpp:368-390 | A bind pass over in-range nodes is bindMesh over the meshes of the walk, in walk order |
| Binding.BindWalkNode | src/App/Window.cpp:368-377 | Binding a node binds its in-range mesh first, then its children's subtrees |
| Binding.BindWalkChild | src/App/Window.cpp:374-377 | An out-of-range child index aborts. An in-range child has a smaller rank, and its subtree is bound before the later children |
| Binding.BindWalkRoot | src/App/Window.cpp:383-387 | An out-of-range root index aborts. An in-range root is ranked, and its subtree is bound before the later roots |
| Drawing.DrawPrimitives | src/App/Window.cpp:453-464 | drawMesh issues at most two calls per primitive. Each one binds an index buffer or is an indexed draw |
| Drawing.DrawSteps | src/App/Window.cpp:467-483 | The draw pass only binds index buffers and draws. It never creates, fills or binds a vertex buffer |
| Drawing.DrawPrimitivesOutcome | src/App/Window.cpp:453-464 | drawMesh completes if and only if every index accessor exists and its view has a buffer. With all accessors in range, it aborts if and only if some index view has no buffer |
| Drawing.DrawPrimitivesCount | src/App/Window.cpp:453-464 | A completed drawMesh issues two calls per primitive, exactly one of them a draw |
| Drawing.DrawPrimitivesAt | src/App/Window.cpp:453-464 | Calls 2k and 2k+1 bind primitive k's index buffer and draw it with its mode and the index accessor's count, component type and offset |
| Drawing.DrawStepsAppend | src/App/Window.cpp:467-483 | Drawing along two walk segments is drawing the first, then the second only if the first completed |
| Drawing.DrawStepsByMeshes | src/App/Window.cpp:467-483 | A draw pass over in-range nodes is drawMesh over the meshes of the walk, in walk order |
| Drawing.DrawMeshesOutcome | src/App/Window.cpp:453-464 | Drawing a sequence of meshes completes if and only if every primitive's index buffer is bound |
| Drawing.DrawMeshesCount | src/App/Window.cpp:453-464 | A completed draw pass issues exactly one draw per primitive of every mesh reached |
| Drawing.DrawWalkNode | src/App/Window.cpp:467-474 | Drawing a node draws its in-range mesh first, then its children's subtrees |
| Drawing.DrawWalkBadChild | src/App/Window.cpp:472-474 | An out-of-range child index makes the draw pass undefined |
| Drawing.DrawWalkChild | src/App/Window.cpp:472-474 | In a defined draw pass, every child is in range and ranked lower, and its subtree is drawn before the later children |
| Drawing.DrawWalkBadRoot | src/App/Window.cpp:479-482 | An out-of-range root index makes the draw pass undefined |
| Drawing.DrawWalkRoot | src/App/Window.cpp:479-482 | In a defined draw pass, every root is in range and ranked, and its subtree is drawn before the later roots |
| Passes.SameMeshOrder | src/App/Window.cpp:368-483 | After a completed bind pass, both passes are their per-mesh operation over the same meshes in the same depth-first preorder |
| Passes.DrawAfterBind | src/App/Window.cpp:368-483 | With the map a completed bind pass built, drawing completes when index accessors read target views. It then issues exactly one draw per primitive of every mesh reached |
| Gltf.Walk | src/App/Window.cpp:368-377 | The walk from a node starts at that node |
| Gltf.SharedChildWalkedTwice | src/App/Window.cpp:368-387 | With no visited set, two roots that share a child visit it twice, so its mesh is reached twice (MeshOrder [0, 0]) |
| Gltf.WalkFits | src/App/Window.cpp:374-376 | Every step of a walk is a node of the document or an out-of-range index |
| Gltf.WalkFromFits | src/App/Window.cpp:374-376 | The same for the walks of a node's children |
| Gltf.RootsFromFits | src/App/Window.cpp:384-386 | The same for the walks of the default scene's roots |
| Gltf.MeshOrder | src/App/Window.cpp:370-371 | Only in-range mesh indices are reached |
| Metrics.RoundedFps | src/App/Window.cpp:333-334 | The reported rate r satisfies r - 1/2 <= 1000 * frames / elapsedMs < r + 1/2 |
| Metrics.RoundedFpsNearest | src/App/Window.cpp:333-334 | No integer is closer to the true rate than the reported one |
| Metrics.RoundedFpsExactRate | src/App/Window.cpp:333-334 | An exactly integral rate is reported as that integer |
| Metrics.RoundedFpsAtMostFrames | src/App/Window.cpp:331-334 | Since a report needs at least 1000 ms, the rate never exceeds the frames counted |
| Metrics.RoundedFpsMonotone | src/App/Window.cpp:333-334 | More frames over the same time never lower the rate |
| Metrics.Report | src/App/Window.cpp:327-339 | The guard changes nothing if and only if less than 1000 ms have passed. Otherwise it restarts the timer at now, clears the count and reports the rounded rate, which is at most the count |
| Metrics.Frame | src/App/Window.cpp:194-227 | A frame less than a second after the timer start only adds one to the count. Any later frame restarts the timer at itself and clears the count |
| Metrics.Frames | src/App/Window.cpp:194-227 | Over a run of frames the timer never moves back and never past the last frame. The count never exceeds the old count plus the number of frames |
| Metrics.FramesWithinInterval | src/App/Window.cpp:194-227 | Frames within a second of the timer start are only counted |
| Metrics.CountedUntilLast | src/App/Window.cpp:194-227 | In a run whose frames before the last fall within the interval, the last frame's guard sees the whole count |
| Metrics.FirstReportCountsAll | src/App/Window.cpp:327-339 | The first frame a second or more after the start reports the rounded rate of every frame since the start, itself included. It clears the count and restarts the timer at that frame |
| Metrics.FramesPrefix | src/App/Window.cpp:194-227 | Rendering a run of frames is rendering a prefix, then the rest |
| Controls.MorphingFromSlider | src/App/Window.cpp:243-246 | The coefficient stays in 0..100 if and only if the slider does (range at :43). It is reversed: 0 gives 100 and 100 gives 0 |
| Controls.SpeedFromSlider | src/App/Window.cpp:248-251 | The speed is the value in thousandths. The slider range 10..200 (:35) gives exactly speeds 0.01..0.2, and the minimum is the initial speed |
| Controls.FlagAfter | src/App/Window.cpp:253-261 | After n signals the flag is flipped if and only if n is odd, whatever states the signals carry |
| Controls.FlagTracksCheckbox | src/App/Window.cpp:253-261 | A flag that starts equal to its two-state checkbox keeps equal to it, although the state is ignored |
| Controls.Moved | src/App/Window.cpp:263-286 | W/D/V move along front/right/up by speed, and S/A/C move back. V and C change only y. Any other key leaves the position unchanged |
| Controls.MovedDistance | src/App/Window.cpp:263-286 | A movement key moves the camera by speed times the length of its direction |
| Controls.OppositeKeysCancel | src/App/Window.cpp:263-286 | W and S, A and D, V and C undo each other |
| Controls.Look | src/App/Window.cpp:293-308 | Yaw grows if and only if the mouse moved right, and pitch grows if and only if it moved up the screen (smaller y). No movement, no turn |
| Controls.LookComposes | src/App/Window.cpp:293-308 | A drag reported in two moves turns the camera as far as one move would |
| App.Window.constructor | src/App/Window.h:75-81 | Nothing is bound, the count and the rate start at 0, the window is not animated, and the timer starts at the given time |
| App.Window.BindMesh | src/App/Window.cpp:392-451 | The map, the log, the name counter and the console after the loops are exactly those of `Binding.BindMeshRun` |
| App.Window.UploadViewLoop | src/App/Window.cpp:393-410 | The buffer loop leaves the map, log and name counter `Binding.UploadViews` specifies, including the abort at `data.at(0)` |
| App.Window.BindAttributeLoop | src/App/Window.cpp:416-448 | The attribute loop leaves the map, log and console `Binding.BindAttributes` specifies |
| App.Window.BindModelNodes | src/App/Window.cpp:368-378 | The recursion leaves the state binding along the node's walk specifies |
| App.Window.BindModel | src/App/Window.cpp:380-390 | The returned map and the state are those of binding along the scene walk from an empty map |
| App.Window.DrawMesh | src/App/Window.cpp:453-464 | The log grows by exactly `Drawing.DrawPrimitives`'s calls, with its outcome |
| App.Window.DrawModelNodes | src/App/Window.cpp:467-475 | The log grows by exactly the calls of drawing along the node's walk |
| App.Window.DrawModel | src/App/Window.cpp:477-483 | The log grows by exactly the calls of drawing along the scene walk |
| App.Window.ReportMetrics | src/App/Window.cpp:327-339 | The counter becomes `Metrics.Report` of the old counter. The label shows the new rate if and only if a report was made |
| App.Window.OnRender | src/App/Window.cpp:194-227 | After a drawn frame, the count is incremented before the guard runs, and a repaint is requested only when animated. A draw that throws skips the count and the repaint. The guard still reports from the old count when a handler outside the window catches the exception (`unwinds`), and has no effect otherwise |
| App.Window.OnInit | src/App/Window.cpp:116-191 | The bind pass runs from an empty map. When it completes, its map becomes `vbos`, and the initial parameters are set. Otherwise `vbos` and every camera, light and morphing field keep their old values |
| App.Window.SetInitialParameters | src/App/Window.cpp:174-191 | Sets camera position (0,2,7), up (0,1,0), yaw -90, pitch -13.6, the direction computed from them, speed 0.01, both lights off, spot light at (0,5,3) and morphing 100 |
| App.Window.ChangeMorphingParam | src/App/Window.cpp:243-246 | Morphing becomes the reversed slider value, and one repaint is requested |
| App.Window.ChangeCameraSpeed | src/App/Window.cpp:248-251 | Speed becomes the slider value in thousandths, and one repaint is requested |
| App.Window.ChangeDirectionalLight | src/App/Window.cpp:253-256 | The flag flips whatever the state, and one repaint is requested |
| App.Window.ChangeSpotLight | src/App/Window.cpp:258-261 | The flag flips whatever the state, and one repaint is requested |
| App.Window.KeyPressEvent | src/App/Window.cpp:263-286 | The position moves as `Controls.Moved` says. A repaint is requested if and only if the key is a movement key |
| App.Window.MousePressEvent | src/App/Window.cpp:288-291 | A drag starts at the pressed point |
| App.Window.MouseMoveEvent | src/App/Window.cpp:293-308 | While dragging, yaw and pitch turn as `Controls.Look` says, the direction is recomputed, the drag continues from the new point, and one repaint is requested. Otherwise nothing changes |
| App.Window.MouseReleaseEvent | src/App/Window.cpp:310-312 | The drag ends |

## Left out

- The Qt widgets, layout and signal wiring in the constructor (src/App/Window.cpp:32-85) are left out. Only the slider ranges, the label text source (`fpsShown`) and the timer start are kept.
- `loadModel` (src/App/Window.cpp:350-366) is left out: it is file I/O through tinygltf. The loaded document is a given value of the window, and `onInit` ignores the load's result.
- The real OpenGL calls, the VAO, the shader program, the texture and the uniform uploads of `display` are left out. The model keeps only the entries of the abstract call log.
- Floating point is left out:
  - The camera maths of `calculate_camera_front` and `glm::normalize(glm::cross(...))` are the abstract functions `frontOf` and `rightOf`.
  - `lookAt`, `perspective` and the matrix uniforms are left out.
  - Speeds, angles and positions are exact reals. Frame rates are exact integer rounding of `1000 * frames / elapsedMs`.
- `accessor.ByteStride(...)` belongs to tinygltf, whose source is not part of this model. It is the abstract function `strideOf` of the window.
- Most of `onInit` is left out: shader, VAO, texture and GL state setup. So are the destructor's context guard and the empty `onResize`. `App.Window.OnInit` keeps only the bind pass and the initial parameters.
- `assert` is modelled as active. A build with NDEBUG would skip the child and root index checks of the bind pass, and that build is not modelled.
- The model needs the default scene index to be in range (`Gltf.SceneRanked`), because `model.scenes[model.defaultScene]` is unchecked.
- App.Window.BindModel, and with it `OnInit`, `DrawModel` and `OnRender`: requiring `Gltf.SceneRanked` also excludes documents where a pass would stop before it re-entered a reachable cycle. An example is a root that is its own child, whose mesh's buffer loop throws at `data.at(0)` first. What the source does on such documents is not modelled.
- Gltf.SceneWalk: the source visits a node once per path from a root, not once per node. Visiting each reachable node exactly once holds only for the disjoint trees that section 3.5.2 of the glTF 2.0 standard requires, and the model does not prove it. `Gltf.SharedChildWalkedTwice` shows a shared child walked twice.
- App.Window.constructor: `src/App/Window.h` declares neither `dragged_` nor `mouseStartPos_`, so their initial values are not in the source. The model assumes that no drag is active when the window is created (`dragged` is false).
- Every `App.Window` method requires that the run it performs is not undefined behaviour. What C++ does after an out-of-range vector index is not modelled.
- Any handler that catches a draw's `std::out_of_range` would sit in the widget base class, which is not part of this model. Whether such a handler exists is the parameter `unwinds` of `App.Window.OnRender`. Without a handler the program terminates. Whether the stack unwinds before that is implementation-defined, and the model then takes the guard to have no effect.
- App.Window.ReportMetrics: one clock reading `now` stands for both `timer_.elapsed()` and `timer_.restart()`. The milliseconds between those two readings are not modelled.
- The repaint request `update()` is a counter of requests (`redraws`). The repaint itself, and so `display`, is not triggered by it in the model.
- The functions that are total by default return a value for cases that cannot happen in a completed run: `Binding.UploadCalls`, `Binding.AttributeCalls` and `Gltf.MeshOrder` return an empty result for an out-of-range index. The lemmas state properties only for completed runs.
- The declared but undefined helpers of src/App/Window.h (`genMVP`, `genView`, `displayLoop`) have no behaviour to model.
