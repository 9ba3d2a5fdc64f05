/** The scene graph as a value: the state of a tree of viewer nodes
    (class Node and its subclass KeyFrameControlNode) and what drawing,
    key dispatch and the rotation commands do to it.  The mutable nodes of
    module SceneGraph are proved to behave as these functions say. */
module Scenes {
  import opened Geometry
  import TransformTracks

  datatype Option<T> = None | Some(value: T)

  /** A leaf drawable (a mesh): the model records what it is asked to draw.
      handlesKeys says whether it offers a key_handler of its own. */
  datatype Drawable = Drawable(id: nat, handlesKeys: bool)

  /** What a KeyFrameControlNode adds to a node: its transform keyframes
      and its loop period `max` (0 means no looping). */
  datatype Animation = Animation(keyframes: TransformTracks.TransformKeyFrames, period: real)

  /** A node with its current transform, its saved initial transform
      (premiere), its yaw counter (rotation), its optional animation and its
      ordered children; or a leaf drawable. */
  datatype Scene =
    | Group(transform: Mat4, premiere: Mat4, rotation: int, animation: Option<Animation>, children: seq<Scene>)
    | Item(drawable: Drawable)

  /** One call of a leaf's draw(projection, view, model). */
  datatype DrawCall = DrawCall(drawable: Drawable, projection: Mat4, view: Mat4, model: Mat4)

  /** One call of a leaf's key_handler(key). */
  datatype KeyEvent = KeyEvent(drawable: Drawable, key: int)

  /** Every animated node holds a well-formed transform track. */
  predicate WellFormed(s: Scene)
  {
    match s
    case Item(_) => true
    case Group(_, _, _, animation, cs) =>
      && (animation.Some? ==> animation.value.keyframes.Valid())
      && forall i :: 0 <= i < |cs| ==> WellFormed(cs[i])
  }

  // ---------------------------------------------------------------------
  // Drawing

  /** Node.draw with the transforms currently stored: every child is drawn,
      in order, with model @ transform; a leaf records its call. */
  function Render(s: Scene, projection: Mat4, view: Mat4, model: Mat4): seq<DrawCall>
  {
    match s
    case Item(d) => [DrawCall(d, projection, view, model)]
    case Group(transform, _, _, _, cs) => RenderAll(cs, projection, view, Mul(model, transform))
  }

  function RenderAll(cs: seq<Scene>, projection: Mat4, view: Mat4, model: Mat4): seq<DrawCall>
  {
    if cs == [] then []
    else RenderAll(cs[..|cs| - 1], projection, view, model) + Render(cs[|cs| - 1], projection, view, model)
  }

  /** What KeyFrameControlNode.draw does to the tree at time t before the
      ordinary traversal: each animated node's transform becomes its track's
      value at t (looped by its period); nothing else changes. */
  function Resample(s: Scene, t: real): (r: Scene)
    requires WellFormed(s)
    ensures WellFormed(r)
  {
    match s
    case Item(_) => s
    case Group(transform, premiere, rotation, animation, cs) =>
      Group(
        if animation.Some? then TransformTracks.Value(animation.value.keyframes, t, animation.value.period) else transform,
        premiere, rotation, animation,
        ResampleAll(cs, t))
  }

  function ResampleAll(cs: seq<Scene>, t: real): (r: seq<Scene>)
    requires forall i :: 0 <= i < |cs| ==> WellFormed(cs[i])
    ensures |r| == |cs| && forall i :: 0 <= i < |cs| ==> WellFormed(r[i]) && r[i] == Resample(cs[i], t)
  {
    seq(|cs|, i requires 0 <= i < |cs| => Resample(cs[i], t))
  }

  /** Drawing the first i + 1 children draws the first i, then child i. */
  lemma RenderAllStep(cs: seq<Scene>, i: int, projection: Mat4, view: Mat4, model: Mat4)
    requires 0 <= i < |cs|
    ensures RenderAll(cs[..i + 1], projection, view, model)
         == RenderAll(cs[..i], projection, view, model) + Render(cs[i], projection, view, model)
  {
    assert cs[..i + 1][..i] == cs[..i];
  }

  /** The leaf drawables of a tree, left to right. */
  function Leaves(s: Scene): seq<Drawable>
  {
    match s
    case Item(d) => [d]
    case Group(_, _, _, _, cs) => LeavesAll(cs)
  }

  function LeavesAll(cs: seq<Scene>): seq<Drawable>
  {
    if cs == [] then [] else LeavesAll(cs[..|cs| - 1]) + Leaves(cs[|cs| - 1])
  }

  /** A leaf together with the transforms of its ancestors, outermost
      first: an independent description of the model matrix it receives. */
  datatype Placement = Placement(drawable: Drawable, chain: seq<Mat4>)

  function Paths(s: Scene): seq<Placement>
  {
    match s
    case Item(d) => [Placement(d, [])]
    case Group(transform, _, _, _, cs) => Prefix(transform, PathsAll(cs))
  }

  function PathsAll(cs: seq<Scene>): seq<Placement>
  {
    if cs == [] then [] else PathsAll(cs[..|cs| - 1]) + Paths(cs[|cs| - 1])
  }

  function Prefix(m: Mat4, ps: seq<Placement>): seq<Placement>
  {
    seq(|ps|, i requires 0 <= i < |ps| => ps[i].(chain := [m] + ps[i].chain))
  }

  /** The model matrix incoming model @ A1 @ A2 @ ... @ An, multiplied from
      the left as the traversal does. */
  function Compose(model: Mat4, chain: seq<Mat4>): Mat4
    decreases |chain|
  {
    if chain == [] then model else Compose(Mul(model, chain[0]), chain[1..])
  }

  function Deliver(ps: seq<Placement>, projection: Mat4, view: Mat4, model: Mat4): seq<DrawCall>
  {
    seq(|ps|, i requires 0 <= i < |ps| => DrawCall(ps[i].drawable, projection, view, Compose(model, ps[i].chain)))
  }

  lemma DeliverAppend(ps: seq<Placement>, qs: seq<Placement>, projection: Mat4, view: Mat4, model: Mat4)
    ensures Deliver(ps + qs, projection, view, model) == Deliver(ps, projection, view, model) + Deliver(qs, projection, view, model)
  {
  }

  lemma DeliverPrefix(m: Mat4, ps: seq<Placement>, projection: Mat4, view: Mat4, model: Mat4)
    ensures Deliver(Prefix(m, ps), projection, view, model) == Deliver(ps, projection, view, Mul(model, m))
  {
    forall i | 0 <= i < |ps|
      ensures Compose(model, [m] + ps[i].chain) == Compose(Mul(model, m), ps[i].chain)
    {
      assert ([m] + ps[i].chain)[1..] == ps[i].chain;
    }
  }

  /** Every leaf is drawn exactly once, in left-to-right order, with the
      incoming model right-multiplied by the transforms of all its
      ancestors, outermost first. */
  lemma {:induction false} RenderComposesAncestors(s: Scene, projection: Mat4, view: Mat4, model: Mat4)
    ensures Render(s, projection, view, model) == Deliver(Paths(s), projection, view, model)
    decreases s, 1
  {
    match s
    case Item(d) =>
      assert Compose(model, []) == model;
    case Group(transform, _, _, _, cs) =>
      RenderAllComposesAncestors(cs, projection, view, Mul(model, transform));
      DeliverPrefix(transform, PathsAll(cs), projection, view, model);
  }

  lemma {:induction false} RenderAllComposesAncestors(cs: seq<Scene>, projection: Mat4, view: Mat4, model: Mat4)
    ensures RenderAll(cs, projection, view, model) == Deliver(PathsAll(cs), projection, view, model)
    decreases cs, 0
  {
    if cs != [] {
      var init, last := cs[..|cs| - 1], cs[|cs| - 1];
      RenderAllComposesAncestors(init, projection, view, model);
      RenderComposesAncestors(last, projection, view, model);
      DeliverAppend(PathsAll(init), Paths(last), projection, view, model);
    }
  }

  /** The leaves drawn are exactly the leaves of the tree, in order; the
      projection and view matrices reach them unchanged. */
  lemma {:induction false} RenderVisitsLeavesInOrder(s: Scene, projection: Mat4, view: Mat4, model: Mat4)
    ensures |Render(s, projection, view, model)| == |Leaves(s)|
    ensures forall i :: 0 <= i < |Leaves(s)| ==>
      var c := Render(s, projection, view, model)[i];
      c.drawable == Leaves(s)[i] && c.projection == projection && c.view == view
    decreases s, 1
  {
    match s
    case Item(d) =>
    case Group(transform, _, _, _, cs) =>
      RenderAllVisitsLeavesInOrder(cs, projection, view, Mul(model, transform));
  }

  lemma {:induction false} RenderAllVisitsLeavesInOrder(cs: seq<Scene>, projection: Mat4, view: Mat4, model: Mat4)
    ensures |RenderAll(cs, projection, view, model)| == |LeavesAll(cs)|
    ensures forall i :: 0 <= i < |LeavesAll(cs)| ==>
      var c := RenderAll(cs, projection, view, model)[i];
      c.drawable == LeavesAll(cs)[i] && c.projection == projection && c.view == view
    decreases cs, 0
  {
    if cs != [] {
      var init, last := cs[..|cs| - 1], cs[|cs| - 1];
      RenderAllVisitsLeavesInOrder(init, projection, view, model);
      RenderVisitsLeavesInOrder(last, projection, view, model);
    }
  }

  /** A root with transform A over a node with transform B over a leaf
      hands the leaf (M @ A) @ B. */
  lemma TwoLevelComposition(a: Mat4, b: Mat4, d: Drawable, projection: Mat4, view: Mat4, model: Mat4,
                            pa: Mat4, pb: Mat4, ra: int, rb: int)
    ensures Render(Group(a, pa, ra, None, [Group(b, pb, rb, None, [Item(d)])]), projection, view, model)
         == [DrawCall(d, projection, view, Mul(Mul(model, a), b))]
  {
    var inner := Group(b, pb, rb, None, [Item(d)]);
    var ma := Mul(model, a);
    assert [inner][..0] == [];
    assert [Item(d)][..0] == [];
    assert RenderAll([Item(d)], projection, view, Mul(ma, b)) == [DrawCall(d, projection, view, Mul(ma, b))];
    assert Render(inner, projection, view, ma) == [DrawCall(d, projection, view, Mul(ma, b))];
    assert RenderAll([inner], projection, view, ma) == Render(inner, projection, view, ma);
  }

  lemma {:induction false} RenderAllAppend(cs: seq<Scene>, ds: seq<Scene>, projection: Mat4, view: Mat4, model: Mat4)
    ensures RenderAll(cs + ds, projection, view, model) == RenderAll(cs, projection, view, model) + RenderAll(ds, projection, view, model)
    decreases |ds|
  {
    if ds != [] {
      var init := ds[..|ds| - 1];
      assert (cs + ds)[..|cs + ds| - 1] == cs + init;
      assert (cs + ds)[|cs + ds| - 1] == ds[|ds| - 1];
      RenderAllAppend(cs, init, projection, view, model);
    } else {
      assert cs + ds == cs;
    }
  }

  /** add(d1 .. dk): after appending children the node draws its old
      children as before and then the new ones, with the same model. */
  lemma AddDrawsNewChildrenLast(s: Scene, ds: seq<Scene>, projection: Mat4, view: Mat4, model: Mat4)
    requires s.Group?
    ensures Render(s.(children := s.children + ds), projection, view, model)
         == Render(s, projection, view, model) + RenderAll(ds, projection, view, Mul(model, s.transform))
  {
    RenderAllAppend(s.children, ds, projection, view, Mul(model, s.transform));
  }

  /** After a draw at time t0, a draw at time t leaves the same tree as a
      draw at t alone: an animated node's transform depends on t only. */
  lemma {:induction false} ResampleForgetsEarlierTime(s: Scene, t0: real, t: real)
    requires WellFormed(s)
    ensures Resample(Resample(s, t0), t) == Resample(s, t)
  {
    match s
    case Item(_) =>
    case Group(transform, premiere, rotation, animation, cs) =>
      var r0 := Resample(s, t0);
      forall i | 0 <= i < |cs| ensures Resample(r0.children[i], t) == Resample(cs[i], t) {
        ResampleForgetsEarlierTime(cs[i], t0, t);
      }
  }

  /** Drawing twice at the same time gives the same tree and the same calls. */
  lemma ResampleIdempotent(s: Scene, t: real, projection: Mat4, view: Mat4, model: Mat4)
    requires WellFormed(s)
    ensures Resample(Resample(s, t), t) == Resample(s, t)
    ensures Render(Resample(Resample(s, t), t), projection, view, model) == Render(Resample(s, t), projection, view, model)
  {
    ResampleForgetsEarlierTime(s, t, t);
  }

  /** Resampling only changes transforms: the leaves stay the same, in order. */
  lemma {:induction false} ResampleKeepsLeaves(s: Scene, t: real)
    requires WellFormed(s)
    ensures Leaves(Resample(s, t)) == Leaves(s)
    decreases s, 1
  {
    match s
    case Item(_) =>
    case Group(_, _, _, _, cs) =>
      ResampleAllKeepsLeaves(cs, t);
  }

  lemma {:induction false} ResampleAllKeepsLeaves(cs: seq<Scene>, t: real)
    requires forall i :: 0 <= i < |cs| ==> WellFormed(cs[i])
    ensures LeavesAll(ResampleAll(cs, t)) == LeavesAll(cs)
    decreases cs, 0
  {
    if cs != [] {
      var rs := ResampleAll(cs, t);
      var init := cs[..|cs| - 1];
      ResampleAllKeepsLeaves(init, t);
      ResampleKeepsLeaves(cs[|cs| - 1], t);
      assert rs[..|rs| - 1] == ResampleAll(init, t);
    }
  }

  // ---------------------------------------------------------------------
  // Key dispatch

  /** Node.key_handler on a node with children cs: a child node forwards
      the key to its own children; a leaf receives it only if it has a
      key_handler. */
  function KeyTargetsAll(cs: seq<Scene>, key: int): seq<KeyEvent>
  {
    if cs == [] then [] else KeyTargetsAll(cs[..|cs| - 1], key) + Dispatch(cs[|cs| - 1], key)
  }

  function Dispatch(c: Scene, key: int): seq<KeyEvent>
  {
    match c
    case Item(d) => if d.handlesKeys then [KeyEvent(d, key)] else []
    case Group(_, _, _, _, cs) => KeyTargetsAll(cs, key)
  }

  /** The leaves among ds that have a key_handler, each given the key. */
  function Handling(ds: seq<Drawable>, key: int): seq<KeyEvent>
  {
    if ds == [] then []
    else Handling(ds[..|ds| - 1], key) + (if ds[|ds| - 1].handlesKeys then [KeyEvent(ds[|ds| - 1], key)] else [])
  }

  lemma {:induction false} HandlingAppend(ds: seq<Drawable>, es: seq<Drawable>, key: int)
    ensures Handling(ds + es, key) == Handling(ds, key) + Handling(es, key)
    decreases |es|
  {
    if es != [] {
      assert (ds + es)[..|ds + es| - 1] == ds + es[..|es| - 1];
      assert (ds + es)[|ds + es| - 1] == es[|es| - 1];
      HandlingAppend(ds, es[..|es| - 1], key);
    } else {
      assert ds + es == ds;
    }
  }

  /** A key reaches exactly the leaves with a key_handler, in tree order;
      leaves without one are skipped, and every node passes it on. */
  lemma {:induction false} DispatchReachesHandlingLeaves(c: Scene, key: int)
    ensures Dispatch(c, key) == Handling(Leaves(c), key)
    decreases c, 1
  {
    match c
    case Item(d) =>
      assert [d][..0] == [];
    case Group(_, _, _, _, cs) =>
      KeyTargetsReachHandlingLeaves(cs, key);
  }

  lemma {:induction false} KeyTargetsReachHandlingLeaves(cs: seq<Scene>, key: int)
    ensures KeyTargetsAll(cs, key) == Handling(LeavesAll(cs), key)
    decreases cs, 0
  {
    if cs != [] {
      var init, last := cs[..|cs| - 1], cs[|cs| - 1];
      KeyTargetsReachHandlingLeaves(init, key);
      DispatchReachesHandlingLeaves(last, key);
      HandlingAppend(LeavesAll(init), Leaves(last), key);
    }
  }

  // ---------------------------------------------------------------------
  // Interactive rotation (Node.tourne)

  /** The five commands tourne understands: 'droite', 'gauche', 'haut',
      'bas' and 'origine'. */
  datatype Command = Right | Left | Up | Down | Origin

  /** The 5-degree rotation a directional command right-multiplies onto
      every child; up and down turn about the axis given by the yaw counter
      before the call. */
  function StepRotation(cmd: Command, yaw: int): Mat4
    requires cmd != Origin
  {
    match cmd
    case Right => Rotate(YAxis, 5)
    case Left => Rotate(YAxis, -5)
    case Up => Rotate(Heading(yaw), 5)
    case Down => Rotate(Heading(yaw), -5)
  }

  function YawStep(cmd: Command): int
  {
    match cmd
    case Right => 5
    case Left => -5
    case _ => 0
  }

  /** tourne applies to a node whose direct children are all nodes (they
      must offer tranforme and premiere). */
  predicate Turnable(s: Scene)
  {
    s.Group? && forall i :: 0 <= i < |s.children| ==> s.children[i].Group?
  }

  /** Node.tourne(cmd).  'origine' puts every child back to its premiere
      and zeroes the yaw counter, but the zeroing sits inside the loop over
      the children, so a node without children keeps its counter. */
  function Turn(s: Scene, cmd: Command): Scene
    requires Turnable(s)
  {
    var cs := s.children;
    if cmd == Origin then
      s.(rotation := if |cs| > 0 then 0 else s.rotation, children := RestoredChildren(cs))
    else
      s.(rotation := s.rotation + YawStep(cmd), children := TurnedChildren(cs, StepRotation(cmd, s.rotation)))
  }

  /** Every child node right-multiplied by the same step. */
  function TurnedChildren(cs: seq<Scene>, step: Mat4): seq<Scene>
    requires forall i :: 0 <= i < |cs| ==> cs[i].Group?
  {
    seq(|cs|, i requires 0 <= i < |cs| => cs[i].(transform := Mul(cs[i].transform, step)))
  }

  /** Every child node back at its premiere. */
  function RestoredChildren(cs: seq<Scene>): seq<Scene>
    requires forall i :: 0 <= i < |cs| ==> cs[i].Group?
  {
    seq(|cs|, i requires 0 <= i < |cs| => cs[i].(transform := cs[i].premiere))
  }

  /** tourne issued once per command, left to right. */
  function Turns(s: Scene, cmds: seq<Command>): Scene
    requires Turnable(s)
  {
    if cmds == [] then s
    else
      var r := Turns(s, cmds[..|cmds| - 1]);
      TurnKeepsTurnable(r, cmds[|cmds| - 1]);
      Turn(r, cmds[|cmds| - 1])
  }

  lemma TurnKeepsTurnable(s: Scene, cmd: Command)
    requires Turnable(s)
    ensures Turnable(Turn(s, cmd))
  {
  }

  predicate Directional(cmds: seq<Command>)
  {
    forall i :: 0 <= i < |cmds| ==> cmds[i] != Origin
  }

  function Count(cmds: seq<Command>, c: Command): nat
  {
    if cmds == [] then 0 else Count(cmds[..|cmds| - 1], c) + (if cmds[|cmds| - 1] == c then 1 else 0)
  }

  /** Only 'droite' and 'gauche' move the yaw counter: after any sequence of
      directional commands it has moved by 5 degrees per right minus 5 per
      left. */
  lemma {:induction false} YawCountsRightMinusLeft(s: Scene, cmds: seq<Command>)
    requires Turnable(s) && Directional(cmds)
    ensures Turns(s, cmds).rotation == s.rotation + 5 * (Count(cmds, Right) - Count(cmds, Left))
  {
    if cmds != [] {
      YawCountsRightMinusLeft(s, cmds[..|cmds| - 1]);
    }
  }

  /** Directional commands touch only the transforms of the direct
      children: the node itself, its children's premiere, counters,
      animations and their whole subtrees stay as they were. */
  lemma {:induction false} TurnsKeepAllButChildTransforms(s: Scene, cmds: seq<Command>)
    requires Turnable(s)
    ensures var r := Turns(s, cmds);
      && r.transform == s.transform && r.premiere == s.premiere && r.animation == s.animation
      && |r.children| == |s.children|
      && forall i :: 0 <= i < |s.children| ==>
           && r.children[i].premiere == s.children[i].premiere
           && r.children[i].rotation == s.children[i].rotation
           && r.children[i].animation == s.children[i].animation
           && r.children[i].children == s.children[i].children
  {
    if cmds != [] {
      TurnsKeepAllButChildTransforms(s, cmds[..|cmds| - 1]);
    }
  }

  /** 'origine' after any sequence of directional commands restores every
      child's transform to exactly its premiere, and the yaw counter to 0
      when there is at least one child. */
  lemma ResetRestoresPremiere(s: Scene, cmds: seq<Command>)
    requires Turnable(s)
    ensures var r := Turns(s, cmds + [Origin]);
      && |r.children| == |s.children|
      && (|s.children| > 0 ==> r.rotation == 0)
      && forall i :: 0 <= i < |s.children| ==>
           r.children[i].transform == s.children[i].premiere && r.children[i].children == s.children[i].children
  {
    assert (cmds + [Origin])[..|cmds|] == cmds;
    TurnsKeepAllButChildTransforms(s, cmds);
  }

  /** Right-multiplying n times by the same matrix. */
  function RightMulPower(m: Mat4, step: Mat4, n: nat): Mat4
  {
    if n == 0 then m else Mul(RightMulPower(m, step, n - 1), step)
  }

  function Repeat(cmd: Command, n: nat): (r: seq<Command>)
    ensures |r| == n && forall i :: 0 <= i < n ==> r[i] == cmd
  {
    if n == 0 then [] else Repeat(cmd, n - 1) + [cmd]
  }

  /** n times 'droite': the counter grows by 5n and every child transform is
      the old one right-multiplied by n 5-degree turns about the up axis. */
  lemma {:induction false} RepeatedRightTurns(s: Scene, n: nat)
    requires Turnable(s)
    ensures var r := Turns(s, Repeat(Right, n));
      && r.rotation == s.rotation + 5 * n
      && |r.children| == |s.children|
      && forall i :: 0 <= i < |s.children| ==>
           r.children[i].transform == RightMulPower(s.children[i].transform, Rotate(YAxis, 5), n)
  {
    if n > 0 {
      assert Repeat(Right, n)[..n - 1] == Repeat(Right, n - 1);
      RepeatedRightTurns(s, n - 1);
    }
  }

  /** Five rights from a zero counter: counter 25, each child transform
      right-multiplied by five 5-degree turns about the up axis. */
  lemma FiveRightTurns(s: Scene)
    requires Turnable(s) && s.rotation == 0
    ensures var r := Turns(s, [Right, Right, Right, Right, Right]);
      var step := Rotate(YAxis, 5);
      && r.rotation == 25
      && |r.children| == |s.children|
      && forall i :: 0 <= i < |s.children| ==>
           r.children[i].transform == Mul(Mul(Mul(Mul(Mul(s.children[i].transform, step), step), step), step), step)
  {
    assert Repeat(Right, 5) == [Right, Right, Right, Right, Right];
    RepeatedRightTurns(s, 5);
    var step := Rotate(YAxis, 5);
    forall i | 0 <= i < |s.children|
      ensures RightMulPower(s.children[i].transform, step, 5)
           == Mul(Mul(Mul(Mul(Mul(s.children[i].transform, step), step), step), step), step)
    {
      var t := s.children[i].transform;
      assert RightMulPower(t, step, 1) == Mul(t, step);
      assert RightMulPower(t, step, 2) == Mul(Mul(t, step), step);
      assert RightMulPower(t, step, 3) == Mul(Mul(Mul(t, step), step), step);
      assert RightMulPower(t, step, 4) == Mul(Mul(Mul(Mul(t, step), step), step), step);
    }
  }

  /** 'haut' and 'bas' pitch about the axis of the current yaw: after a
      'droite' the pitch axis is the one for the counter plus 5. */
  lemma PitchFollowsYaw(s: Scene)
    requires Turnable(s)
    ensures var r := Turns(s, [Right, Up]);
      && r.rotation == s.rotation + 5
      && |r.children| == |s.children|
      && forall i :: 0 <= i < |s.children| ==>
           r.children[i].transform == Mul(Mul(s.children[i].transform, Rotate(YAxis, 5)), Rotate(Heading(s.rotation + 5), 5))
  {
    assert [Right, Up][..1] == [Right];
    assert [Right][..0] == [];
    var r1 := Turn(s, Right);
    assert Turns(s, [Right]) == r1;
    assert r1.rotation == s.rotation + 5;
  }
}
