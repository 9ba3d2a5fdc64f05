# Keyframe animation and scene graph of a small OpenGL viewer

This project models the core of `viewer.py`, a Python/OpenGL scene viewer. The core has two parts.

**Keyframe tracks.**
- `KeyFrames` holds a track of (time, value) pairs, sorted by time.
  - `value(t)` clamps to the first and last keyframe.
  - Between keyframes it locates the two neighbours with `bisect_left` and calls a pluggable interpolation function.
- `TransformKeyFrames` holds three tracks: translation, rotation and scale.
  - It optionally wraps the time by a loop period `max`.
  - It composes `translate @ rotate @ scale`.

**Scene graph.**
- A `Node` has:
  - a current `transform`;
  - a saved initial transform `premiere`;
  - an ordered `children` list;
  - a yaw counter `rotation`.
- `add` appends children.
- `draw` passes `model @ transform` down to every child.
- `tranforme` right-multiplies the transform.
- `key_handler` forwards a key to the leaves that have a handler.
- `tourne` carries out the interactive commands `droite`, `gauche`, `haut`, `bas` and `origine`.
- A `KeyFrameControlNode` ("animated node" below) is a node that first replaces its transform with its track's value at the current time, then draws as a node does.

The project has five modules:

- `Geometry` (geometry.dfy) holds the matrix and quaternion operations of the viewer's `transform` helper module. They are constructors of a free term algebra:
  - A product `a @ b` is the term `Mul(a, b)`, in exactly the viewer's bracketing.
  - So every equation proved about transforms is syntactic and holds under any interpretation of the numerics.
  - Only linear interpolation has its arithmetic meaning `a + f * (b - a)`.
- `KeyFrameTracks` (keyframes.dfy) models `KeyFrames`:
  - the construction: a stable sort by time, then splitting into parallel `times` and `values`;
  - the pure specification `Value` of `value`;
  - its executable form `Sample`, built on a verified binary search `BisectLeft`.
- `TransformTracks` (transform_keyframes.dfy) models `TransformKeyFrames`:
  - Python's float `%`, as `PyMod`;
  - the looped time;
  - the composed matrix.
- `Scenes` (scenes.dfy) describes a tree of nodes as a value, with the functions that say what drawing, key dispatch and `tourne` do to it. The lemmas about the traversal are stated there.
- `SceneGraph` (scene_graph.dfy) holds the mutable nodes:
  - a `class Node` with the source's fields;
  - a ghost `tree`, the `Scenes` value of its subtree;
  - a ghost ownership footprint `Repr`.

  Every method is proved to change the objects exactly as the corresponding `Scenes` function changes `tree`. The children of a node are valid and own pairwise disjoint footprints.

## Model

| member | source | states |
|---|---|---|
| KeyFrameTracks.InsertByTime | viewer.py:117 | inserting a pair into a time-sorted list keeps it sorted by time, adds exactly that pair (multiset) and grows the list by one |
| KeyFrameTracks.SortByTime | viewer.py:117 | the sorted pairs are ordered by time and are a permutation of the input pairs |
| KeyFrameTracks.SortKeepsStrict | viewer.py:117 | pairs with pairwise distinct times sort into strictly increasing times |
| KeyFrameTracks.FromPairs | viewer.py:114-119 | construction fails exactly when there are no pairs (nothing to unpack); otherwise times are sorted, times and values have the input's length and are index-paired, the pairs are a permutation of the input, the interpolation function is the one given, and distinct input times give strictly increasing times |
| KeyFrameTracks.LowerBound | viewer.py:130 | the bisect_left index: every time before it is smaller than t, the time at it is at least t, and in a sorted list so is every later one |
| KeyFrameTracks.BisectLeft | viewer.py:130 | the binary search over a sorted list returns the index that splits it into times below t and times at least t, which is LowerBound |
| KeyFrameTracks.LowerBoundUnique | viewer.py:130 | only one index splits a list into "below t" and "at least t" |
| KeyFrameTracks.Value | viewer.py:121-134 | the definition of value(t): values[0] when t <= times[0], else values[n-1] when t >= times[n-1], else interpolate(values[i-1], values[i], (t - times[i-1]) / (times[i] - times[i-1])) with i the bisect_left index of t |
| KeyFrameTracks.Sample | viewer.py:121-134 | value(t) computed with the binary search equals the specification Value(k, t); it changes nothing, so equal times give equal values |
| KeyFrameTracks.ValueClampsBelow | viewer.py:125-126 | at or before the first time the first value is returned exactly |
| KeyFrameTracks.ValueClampsAbove | viewer.py:125-128 | at or after the last time the last value is returned exactly, whenever t is past the first time or the track has one keyframe (otherwise the clamp below answers first) |
| KeyFrameTracks.ValueInterpolatesInside | viewer.py:130-134 | strictly inside the track the index i satisfies 1 <= i <= n-1 and times[i-1] < t <= times[i]; the fraction lies in (0, 1]; the value is interpolate(values[i-1], values[i], fraction) |
| KeyFrameTracks.SingleKeyFrameIsConstant | viewer.py:125-128 | a track with one keyframe returns its value at every time |
| KeyFrameTracks.LerpTrackNoOvershoot | viewer.py:133-134 | a linearly interpolated numeric track stays between the two keyframe values around t |
| KeyFrameTracks.LerpTrackMonotone | viewer.py:133-134 | between two keyframes a linearly interpolated numeric track moves monotonically from the earlier value to the later one |
| TransformTracks.New | viewer.py:139-143 | the three tracks are built from their key lists (translation and scale with lerp, rotation with quaternion_slerp); construction fails exactly when one key list is empty |
| TransformTracks.Sample | viewer.py:145-153 | the result is Translate(tr(t')) @ QuatMatrix(rot(t')) @ Scale(sc(t')), with all three tracks sampled at the same time t' = t % max (t itself when max is 0) |
| TransformTracks.PyMod | viewer.py:148 | Python's float remainder t % p, defined as t - p * floor(t / p), so the result has the sign of p |
| TransformTracks.WrapTime | viewer.py:147-148 | the time the tracks are sampled at: t % max when max is non-zero, t itself when max is 0 |
| TransformTracks.Value | viewer.py:145-153 | the definition of value(t, max): (translate(tr(w)) @ quaternion_matrix(rot(w))) @ scale(sc(w)), with w the wrapped time and tr, rot, sc the three tracks' values |
| TransformTracks.WrapTimeInPeriod | viewer.py:147-148 | a positive period maps every time into [0, period) |
| TransformTracks.WrapTimePeriodic | viewer.py:147-148 | a time shifted by one period wraps to the same time |
| TransformTracks.ValuePeriodic | viewer.py:145-153 | value(t + P, P) == value(t, P) for every non-zero period P |
| TransformTracks.ValueHoldsLastPose | viewer.py:145-153 | with max == 0 and t at or past every track's last key (and past its first key, unless the track has one keyframe), the transform is composed from the three last keyframe values |
| TransformTracks.ValueRestartsEachPeriod | viewer.py:147-153 | at every whole multiple of a positive period the transform is composed from the three first keyframe values, provided the tracks start at time 0 or later |
| Scenes.RenderComposesAncestors | viewer.py:194-197 | drawing delivers every leaf exactly once, in tree order, with model @ A1 @ ... @ An, the transforms of its ancestors outermost first |
| Scenes.RenderVisitsLeavesInOrder | viewer.py:194-197 | the draw calls go to exactly the leaves of the tree, in order, with projection and view unchanged |
| Scenes.TwoLevelComposition | viewer.py:194-197 | a root with transform A over a node with transform B over a leaf hands the leaf (M @ A) @ B |
| Scenes.AddDrawsNewChildrenLast | viewer.py:190-197 | after add, a node draws its old children as before and then the new ones, with the same model |
| Scenes.Render | viewer.py:194-197 | the draw calls of one subtree: a leaf yields its own call with the model it is given; a node draws its children with model @ transform |
| Scenes.RenderAll | viewer.py:196-197 | the draw calls of a list of children, each drawn with the same model, concatenated in list order |
| Scenes.ResampleForgetsEarlierTime | viewer.py:241-244 | after an animated draw at t0, a draw at t leaves the same tree as a draw at t alone: an animated transform depends only on t |
| Scenes.ResampleIdempotent | viewer.py:241-244 | drawing twice at the same time gives the same tree and the same calls |
| Scenes.ResampleKeepsLeaves | viewer.py:241-244 | resampling the animated nodes changes transforms only; the leaves stay the same, in order |
| Scenes.Resample | viewer.py:241-244 | the tree after an animated draw at time t: every animated node's transform becomes its keyframes' value at t with its max, in the whole subtree; no other field changes; the result is well formed |
| Scenes.ResampleAll | viewer.py:241-244 | the same resampling applied child by child; the list keeps its length and each result is well formed |
| Scenes.DispatchReachesHandlingLeaves | viewer.py:202-206 | a key dispatched to a child reaches exactly the leaves below it that have a key_handler, in order |
| Scenes.KeyTargetsReachHandlingLeaves | viewer.py:202-206 | key_handler on a list of children reaches exactly the leaves with a key_handler, in tree order; the others are skipped |
| Scenes.KeyTargetsAll | viewer.py:202-206 | the key deliveries of key_handler on a list of children, child by child in order |
| Scenes.Dispatch | viewer.py:204-206 | one child's deliveries: a node forwards the key to its own children; a leaf receives it only when it has a key_handler |
| Scenes.YawCountsRightMinusLeft | viewer.py:208-218 | after any directional commands the yaw counter has moved by 5 per 'droite' minus 5 per 'gauche'; 'haut' and 'bas' leave it |
| Scenes.TurnsKeepAllButChildTransforms | viewer.py:208-225 | directional commands change only the direct children's transforms: the node's own transform, premiere and animation, and the children's premiere, counters, animations and subtrees stay as they were |
| Scenes.ResetRestoresPremiere | viewer.py:219-222 | 'origine' after any directional commands sets every child's transform to exactly its premiere, and the counter to 0 when there is a child |
| Scenes.RepeatedRightTurns | viewer.py:209-225 | n times 'droite' adds 5n to the counter and right-multiplies every child transform by n 5-degree turns about the up axis |
| Scenes.FiveRightTurns | viewer.py:209-225 | five 'droite' from counter 0 give counter 25 and child transforms T @ R @ R @ R @ R @ R |
| Scenes.PitchFollowsYaw | viewer.py:209-218 | 'haut' after 'droite' turns about the axis computed from the counter after the 'droite' |
| Scenes.StepRotation | viewer.py:209-218 | the local rotation of tourne: 'droite' rotate(YAxis, 5), 'gauche' rotate(YAxis, -5), 'haut' rotate(Heading(yaw), 5), 'bas' rotate(Heading(yaw), -5), with yaw the counter before the call |
| Scenes.YawStep | viewer.py:209-214 | the counter update of tourne: +5 for 'droite', -5 for 'gauche', 0 for the other commands |
| Scenes.Turn | viewer.py:208-225 | the tree after tourne(cmd): for 'origine' every child is restored and the counter becomes 0 when there is a child; otherwise the counter moves by +5, -5 or 0 and every child is right-multiplied by the step rotation for cmd, taken from the counter before the call |
| Scenes.TurnedChildren | viewer.py:224-225 | every child node's transform right-multiplied by the same step, all other fields kept |
| Scenes.RestoredChildren | viewer.py:220-221 | every child node's transform set back to its premiere, all other fields kept |
| SceneGraph.NewNode | viewer.py:184-188 | a new node holds the given children in order, its premiere equals its transform, its counter is 0 and it is valid |
| SceneGraph.Node.constructor | viewer.py:184-188 | a fresh node with no children: transform == premiere == the initial transform, counter 0 |
| SceneGraph.Node.Add | viewer.py:190-192 | children become old children + the new ones, in order; nothing else about the node changes; the mirror gains the new subtrees; the node stays valid |
| SceneGraph.Node.NodeDraw | viewer.py:194-197 | the draw calls are those of the mirror with model @ transform, child by child in order; the node stays valid and its children become ResampleAll of the old children at that time |
| SceneGraph.Node.Tranforme | viewer.py:199-200 | transform becomes old transform @ t; premiere, rotation and children are unchanged |
| SceneGraph.Node.KeyHandler | viewer.py:202-206 | the keys delivered are the leaves below the node that have a key_handler, in tree order |
| SceneGraph.Node.Tourne | viewer.py:208-225 | the tree after tourne(cmd) is Turn(old tree, cmd): the five commands change the counter and the direct children as specified, and the node stays valid |
| SceneGraph.Node.RestoreEachChild | viewer.py:219-222 | every child's transform is set back to its premiere; the counter becomes 0 only if there is a child |
| SceneGraph.Node.TurnEachChild | viewer.py:223-225 | every child's transform is right-multiplied by the same step; nothing else changes |
| SceneGraph.Node.Animated | viewer.py:236-239 | an animated node starts with the identity transform and premiere, counter 0, no children, and stores its keyframes and max unchanged |
| SceneGraph.NewKeyFrameControlNode | viewer.py:236-239 | KeyFrameControlNode(...) fails exactly when a key list is empty; otherwise it is a fresh valid identity node with counter 0 holding TransformKeyFrames(keys) and max |
| SceneGraph.Node.Draw | viewer.py:241-244 | an animated node first takes its track's value at the given time as its transform and then draws as a node does; after the call the tree is the old tree resampled at that time, and the calls are its rendering |

## Left out

- The numerics of the `transform` module are left out. This covers translate, rotate, scale, identity, quaternion_matrix and quaternion_slerp: they are term constructors here, so no matrix or quaternion arithmetic is proved. Only lerp is given the meaning `a + f * (b - a)`. That meaning is assumed, because `transform.py` is not part of this model.
- Floating point is left out. Times and numeric values are exact reals, with no rounding, NaN or infinity. Python's `%` on floats is modelled as `t - p * floor(t / p)`.
- KeyFrameTracks.FromPairs: pairs with equal times keep their input order. Python's `sorted` instead compares the values of such pairs, which can also raise for incomparable values. Dictionary input has unique keys and so distinct times, and for distinct times both orders agree.
- KeyFrameTracks.FromPairs: the dictionary-to-pairs conversion (`items()`) is left out. The model takes the sequence of pairs.
- TransformTracks.New: scale keys are single numbers (a uniform scale), as in every scene the viewer builds; per-axis scale keys are left out.
- `glfw.get_time()` is replaced by an explicit time parameter of `Draw`. One frame uses one time for the whole subtree, whereas the source reads the clock again at every animated node.
- SceneGraph.Node.Tourne: the command is one of the five known values. The code raises UnboundLocalError for any other string when the node has children, because `rotation` is never bound. The model excludes such a command by type rather than treating it as a no-op.
- SceneGraph.Node.Tourne: every child must be a node. A leaf child has no `tranforme` or `premiere`, so the code raises AttributeError.
- SceneGraph.Node.Tourne: for 'origine' the unused local `step` is the identity. The source leaves `rotation` unbound there.
- SceneGraph.Node.Add: new child nodes must be valid trees, owned by no other node and disjoint from each other. Python also accepts sharing one node object under several parents, or a node under itself. Repeating a leaf drawable is allowed, as in the source.
- SceneGraph.NewNode: the same ownership requirement as for Add applies to the initial children.
- A method called directly on a node that sits inside a larger tree keeps that node valid but does not update its ancestors' ghost mirrors. The model's guarantees are for calls on a root, which reach the inner nodes through their parents.
- Leaf drawables are records: a draw is a `DrawCall` of (drawable, projection, view, model), and a key is a `KeyEvent`. Their OpenGL effects are left out, and so is any further key handling inside meshes. The `hasattr(child, 'key_handler')` test is a flag of each drawable.
- Also left out:
  - the shaders, vertex arrays, textures and meshes;
  - the asset loaders;
  - `Cylinder`;
  - the trackball and the `Viewer` with its GLFW render loop and key callbacks;
  - `main`.

  These are window, GPU and file I/O, outside the animation and scene-graph core.
