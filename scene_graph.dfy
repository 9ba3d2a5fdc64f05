/** The viewer's scene graph as mutable objects: class Node and its
    subclass KeyFrameControlNode (a Node whose `animation` is set).  Every
    node keeps a ghost `tree`, the Scenes value of its subtree, and each
    method is proved to change the objects exactly as the corresponding
    Scenes function changes that value. */
module SceneGraph {
  import opened Geometry
  import KeyFrameTracks
  import TransformTracks
  import opened Scenes

  /** An entry of Node.children: another node, or a leaf drawable. */
  datatype Child = Subnode(node: Node) | Leaf(drawable: Drawable)

  /** The nodes among a list of children. */
  function NodesOf(cs: seq<Child>): set<Node>
  {
    set j | 0 <= j < |cs| && cs[j].Subnode? :: cs[j].node
  }

  /** The Scenes value a child stands for. */
  ghost function SceneOf(c: Child): Scene
    reads if c.Subnode? then {c.node} else {}
  {
    match c
    case Leaf(d) => Item(d)
    case Subnode(n) => n.tree
  }

  ghost function ScenesOf(cs: seq<Child>): (r: seq<Scene>)
    reads NodesOf(cs)
    ensures |r| == |cs| && forall j :: 0 <= j < |cs| ==> r[j] == SceneOf(cs[j])
  {
    seq(|cs|, j requires 0 <= j < |cs| reads NodesOf(cs) => SceneOf(cs[j]))
  }

  /** All objects owned by the nodes among cs. */
  ghost function ReprOf(cs: seq<Child>): set<object>
    reads NodesOf(cs)
  {
    set j, o | 0 <= j < |cs| && cs[j].Subnode? && o in cs[j].node.Repr :: o
  }

  /** The child nodes among cs are valid and own pairwise disjoint parts
      of repr. */
  ghost predicate Separate(cs: seq<Child>, repr: set<object>)
    reads repr
    decreases repr, 2
  {
    && (forall j :: 0 <= j < |cs| && cs[j].Subnode? ==> cs[j].node in repr && cs[j].node.Repr <= repr)
    && (forall j :: 0 <= j < |cs| && cs[j].Subnode? ==> cs[j].node.Valid())
    && (forall j, k :: 0 <= j < k < |cs| && cs[j].Subnode? && cs[k].Subnode? ==>
          cs[j].node.Repr !! cs[k].node.Repr)
  }

  class Node {
    var transform: Mat4
    var premiere: Mat4
    var children: seq<Child>
    var rotation: int
    /** Set for a KeyFrameControlNode: its keyframes and loop period. */
    const animation: Option<Animation>
    ghost var tree: Scene
    ghost var Repr: set<object>

    /** The node owns its subtree: every child node is valid, owned by this
        node and by no sibling, and tree mirrors the fields and children. */
    ghost predicate Valid()
      reads this, Repr
      decreases Repr, 1
    {
      && this in Repr
      && tree.Group?
      && tree.transform == transform && tree.premiere == premiere
      && tree.rotation == rotation && tree.animation == animation
      && |tree.children| == |children|
      && (animation.Some? ==> animation.value.keyframes.Valid())
      && Separate(children, Repr - {this})
      && (forall j :: 0 <= j < |children| ==> tree.children[j] == SceneOf(children[j]))
    }

    /** A node with the given transform and no children yet: the initial
        transform is also kept as premiere, and the yaw counter starts at 0. */
    constructor (initial: Mat4)
      ensures Valid()
      ensures children == [] && transform == initial && premiere == initial && rotation == 0 && animation == None
      ensures tree == Group(initial, initial, 0, None, [])
      ensures Repr == {this}
    {
      transform := initial;
      premiere := initial;
      children := [];
      rotation := 0;
      animation := None;
      tree := Group(initial, initial, 0, None, []);
      Repr := {this};
    }

    /** The KeyFrameControlNode part of KeyFrameControlNode.__init__, once
        its TransformKeyFrames exist: an identity node without children. */
    constructor Animated(keyframes: TransformTracks.TransformKeyFrames, period: real)
      requires keyframes.Valid()
      ensures Valid()
      ensures children == [] && transform == Identity && premiere == Identity && rotation == 0
      ensures animation == Some(Animation(keyframes, period))
      ensures tree == Group(Identity, Identity, 0, Some(Animation(keyframes, period)), [])
      ensures Repr == {this}
    {
      transform := Identity;
      premiere := Identity;
      children := [];
      rotation := 0;
      animation := Some(Animation(keyframes, period));
      tree := Group(Identity, Identity, 0, Some(Animation(keyframes, period)), []);
      Repr := {this};
    }

    /** The mirror of a valid node is a well-formed scene. */
    lemma {:induction false} TreeWellFormed()
      requires Valid()
      ensures WellFormed(tree)
      decreases Repr
    {
      forall j | 0 <= j < |children|
        ensures WellFormed(tree.children[j])
      {
        if children[j].Subnode? {
          children[j].node.TreeWellFormed();
        }
      }
    }

    /** Changing only the node's own transform, and its mirror with it,
        keeps it valid. */
    twostate lemma ValidAfterRetransform()
      requires old(Valid())
      requires Repr == old(Repr) && children == old(children)
      requires premiere == old(premiere) && rotation == old(rotation)
      requires tree == old(tree).(transform := transform)
      requires unchanged(Repr - {this})
      ensures Valid()
    {
      forall j | 0 <= j < |children| ensures tree.children[j] == SceneOf(children[j]) {
        assert tree.children[j] == old(tree.children[j]);
      }
    }

    /** tranforme(t): right-multiplies the node's transform by t. */
    method Tranforme(t: Mat4)
      requires Valid()
      modifies this
      ensures Valid() && Repr == old(Repr) && children == old(children)
      ensures transform == Mul(old(transform), t)
      ensures premiere == old(premiere) && rotation == old(rotation)
      ensures tree == old(tree).(transform := Mul(old(transform), t))
    {
      transform := Mul(transform, t);
      tree := tree.(transform := transform);
      ValidAfterRetransform();
    }

    /** key_handler(key): the events delivered to the leaves below. */
    method KeyHandler(key: int) returns (delivered: seq<KeyEvent>)
      requires Valid()
      ensures delivered == KeyTargetsAll(tree.children, key)
      ensures delivered == Handling(Leaves(tree), key)
      decreases Repr
    {
      delivered := [];
      var i := 0;
      while i < |children|
        invariant 0 <= i <= |children|
        invariant delivered == KeyTargetsAll(tree.children[..i], key)
      {
        assert tree.children[..i + 1][..i] == tree.children[..i];
        match children[i] {
          case Leaf(d) =>
            if d.handlesKeys {
              delivered := delivered + [KeyEvent(d, key)];
            }
          case Subnode(n) =>
            var forwarded := n.KeyHandler(key);
            delivered := delivered + forwarded;
        }
        i := i + 1;
      }
      assert tree.children[..i] == tree.children;
      KeyTargetsReachHandlingLeaves(tree.children, key);
    }

    /** add(d1, ..., dk): appends the drawables to the children.  The new
        child nodes must be valid trees of their own, owned by nobody else. */
    method Add(ds: seq<Child>)
      requires Valid()
      requires forall j :: 0 <= j < |ds| && ds[j].Subnode? ==> ds[j].node.Valid() && ds[j].node.Repr !! Repr
      requires forall j, k :: 0 <= j < k < |ds| && ds[j].Subnode? && ds[k].Subnode? ==>
        ds[j].node.Repr !! ds[k].node.Repr
      modifies this
      ensures Valid()
      ensures children == old(children) + ds
      ensures transform == old(transform) && premiere == old(premiere) && rotation == old(rotation)
      ensures tree == old(tree).(children := old(tree).children + old(ScenesOf(ds)))
      ensures Repr == old(Repr) + old(ReprOf(ds))
    {
      SeparateOwn(ds);
      SeparateAppend(children, ds, Repr - {this}, ReprOf(ds));
      ghost var gained := ReprOf(ds);
      ghost var owned := (Repr - {this}) + gained;
      ghost var added := ScenesOf(ds);
      ghost var mirror := tree.children + added;
      var es := children + ds;
      MirrorAppend(children, ds, tree.children, added);
      children := es;
      tree := tree.(children := mirror);
      Repr := Repr + gained;
      ChildrenUnchanged(es, owned, mirror);
      assert Repr - {this} == owned;
    }

    /** draw(projection, view, model), as a KeyFrameControlNode overrides
        it: an animated node first replaces its transform by its keyframes'
        value at `time` (looped by its period); every node then draws as a
        plain Node does. */
    method Draw(projection: Mat4, view: Mat4, model: Mat4, time: real) returns (calls: seq<DrawCall>)
      requires Valid()
      modifies Repr
      ensures Valid() && Repr == old(Repr) && children == old(children)
      ensures WellFormed(old(tree)) && tree == Resample(old(tree), time)
      ensures calls == Render(tree, projection, view, model)
      decreases Repr, 1
    {
      TreeWellFormed();
      if animation.Some? {
        var sampled := TransformTracks.Sample(animation.value.keyframes, time, animation.value.period);
        transform := sampled;
        tree := tree.(transform := sampled);
        ValidAfterRetransform();
      }
      calls := NodeDraw(projection, view, model, time);
    }

    /** Node.draw(projection, view, model): every child is drawn, in order,
        with model @ transform. */
    method NodeDraw(projection: Mat4, view: Mat4, model: Mat4, time: real) returns (calls: seq<DrawCall>)
      requires Valid()
      modifies Repr
      ensures Valid() && Repr == old(Repr) && children == old(children)
      ensures WellFormed(old(tree))
      ensures tree == old(tree).(children := ResampleAll(old(tree).children, time))
      ensures calls == RenderAll(tree.children, projection, view, Mul(model, transform))
      decreases Repr, 0
    {
      TreeWellFormed();
      ghost var target := ResampleAll(tree.children, time);
      ghost var kids := tree.children;
      var cs := children;
      var m := Mul(model, transform);
      calls := [];
      var i := 0;
      while i < |cs|
        invariant 0 <= i <= |cs|
        invariant children == cs && Repr == old(Repr) && tree == old(tree) && this in Repr
        invariant transform == old(transform) && premiere == old(premiere) && rotation == old(rotation)
        invariant Separate(cs, Repr - {this})
        invariant forall j :: 0 <= j < i ==> SceneOf(cs[j]) == target[j]
        invariant forall j :: i <= j < |cs| ==> SceneOf(cs[j]) == kids[j]
        invariant calls == RenderAll(target[..i], projection, view, m)
      {
        RenderAllStep(target, i, projection, view, m);
        if cs[i].Leaf? {
          calls := calls + [DrawCall(cs[i].drawable, projection, view, m)];
        } else {
          var n := cs[i].node;
          label before:
          var drawn := n.Draw(projection, view, m, time);
          SeparateAfterChange@before(cs, Repr - {this}, i);
          calls := calls + drawn;
        }
        i := i + 1;
      }
      assert target[..i] == target;
      tree := tree.(children := target);
    }

    /** tourne(direction): 'droite' and 'gauche' turn every child by 5
        degrees about the up axis and move the yaw counter; 'haut' and 'bas'
        turn every child by 5 degrees about the axis of the current yaw;
        'origine' puts every child back to its premiere and zeroes the
        counter when there is at least one child.  Every child must be a
        node. */
    method Tourne(cmd: Command)
      requires Valid()
      requires forall j :: 0 <= j < |children| ==> children[j].Subnode?
      modifies Repr
      ensures Turnable(old(tree))
      ensures Valid() && Repr == old(Repr) && children == old(children)
      ensures tree == Turn(old(tree), cmd)
    {
      ChildrenAreGroups();
      var step := Identity;
      if cmd == Right {
        step := Rotate(YAxis, 5);
        rotation := rotation + 5;
      }
      if cmd == Left {
        step := Rotate(YAxis, -5);
        rotation := rotation - 5;
      }
      if cmd == Up {
        step := Rotate(Heading(rotation), 5);
      }
      if cmd == Down {
        step := Rotate(Heading(rotation), -5);
      }
      tree := tree.(rotation := rotation);
      if cmd == Origin {
        RestoreEachChild();
      } else {
        TurnEachChild(step);
      }
    }

    /** With only node children, the mirror is a Turnable scene. */
    lemma ChildrenAreGroups()
      requires Valid()
      requires forall j :: 0 <= j < |children| ==> children[j].Subnode?
      ensures Turnable(tree)
    {
      forall j | 0 <= j < |children| ensures tree.children[j].Group? {
        assert children[j].node.Valid();
      }
    }

    /** The loop of tourne for 'origine': each child's transform is set
        back to its premiere, and the yaw counter to 0 on every pass. */
    method RestoreEachChild()
      requires Valid() && Turnable(tree)
      requires forall j :: 0 <= j < |children| ==> children[j].Subnode?
      modifies Repr
      ensures Valid() && Repr == old(Repr) && children == old(children)
      ensures tree == old(tree).(rotation := if |children| > 0 then 0 else old(rotation),
                                 children := RestoredChildren(old(tree).children))
    {
      ghost var target := RestoredChildren(tree.children);
      ghost var kids := tree.children;
      var cs := children;
      var i := 0;
      while i < |cs|
        invariant 0 <= i <= |cs|
        invariant children == cs && Repr == old(Repr) && tree == old(tree) && this in Repr
        invariant transform == old(transform) && premiere == old(premiere)
        invariant rotation == if i > 0 then 0 else old(rotation)
        invariant Separate(cs, Repr - {this})
        invariant forall j :: 0 <= j < i ==> SceneOf(cs[j]) == target[j]
        invariant forall j :: i <= j < |cs| ==> SceneOf(cs[j]) == kids[j]
      {
        var child := cs[i].node;
        label before:
        child.transform := child.premiere;
        child.tree := child.tree.(transform := child.premiere);
        child.ValidAfterRetransform@before();
        SeparateAfterChange@before(cs, Repr - {this}, i);
        rotation := 0;
        i := i + 1;
      }
      tree := tree.(rotation := rotation, children := target);
    }

    /** The loop of tourne for the four directions: child.tranforme(step)
        for every child. */
    method TurnEachChild(step: Mat4)
      requires Valid() && Turnable(tree)
      requires forall j :: 0 <= j < |children| ==> children[j].Subnode?
      modifies Repr
      ensures Valid() && Repr == old(Repr) && children == old(children)
      ensures tree == old(tree).(children := TurnedChildren(old(tree).children, step))
    {
      ghost var target := TurnedChildren(tree.children, step);
      ghost var kids := tree.children;
      var cs := children;
      var i := 0;
      while i < |cs|
        invariant 0 <= i <= |cs|
        invariant children == cs && Repr == old(Repr) && tree == old(tree) && this in Repr
        invariant transform == old(transform) && premiere == old(premiere) && rotation == old(rotation)
        invariant Separate(cs, Repr - {this})
        invariant forall j :: 0 <= j < i ==> SceneOf(cs[j]) == target[j]
        invariant forall j :: i <= j < |cs| ==> SceneOf(cs[j]) == kids[j]
      {
        label before:
        cs[i].node.Tranforme(step);
        SeparateAfterChange@before(cs, Repr - {this}, i);
        i := i + 1;
      }
      tree := tree.(children := target);
    }
  }

  /** Valid children with pairwise disjoint footprints are separate
      within the union of their footprints. */
  lemma SeparateOwn(cs: seq<Child>)
    requires forall j :: 0 <= j < |cs| && cs[j].Subnode? ==> cs[j].node.Valid()
    requires forall j, k :: 0 <= j < k < |cs| && cs[j].Subnode? && cs[k].Subnode? ==>
      cs[j].node.Repr !! cs[k].node.Repr
    ensures Separate(cs, ReprOf(cs))
  {
    forall j | 0 <= j < |cs| && cs[j].Subnode?
      ensures cs[j].node in ReprOf(cs) && cs[j].node.Repr <= ReprOf(cs)
    {
      assert cs[j].node in cs[j].node.Repr;
    }
  }

  /** Two separate lists of children within disjoint footprints are
      separate together. */
  lemma SeparateAppend(cs: seq<Child>, ds: seq<Child>, r1: set<object>, r2: set<object>)
    requires Separate(cs, r1) && Separate(ds, r2) && r1 !! r2
    ensures Separate(cs + ds, r1 + r2)
  {
    var es := cs + ds;
    forall j, k | 0 <= j < k < |es| && es[j].Subnode? && es[k].Subnode?
      ensures es[j].node.Repr !! es[k].node.Repr
    {
      if k < |cs| {
        assert es[j] == cs[j] && es[k] == cs[k];
      } else if j >= |cs| {
        assert es[j] == ds[j - |cs|] && es[k] == ds[k - |cs|];
      } else {
        assert es[j] == cs[j] && es[k] == ds[k - |cs|];
      }
    }
    forall j | 0 <= j < |es| && es[j].Subnode?
      ensures es[j].node in r1 + r2 && es[j].node.Repr <= r1 + r2 && es[j].node.Valid()
    {
      if j < |cs| {
        assert es[j] == cs[j];
      } else {
        assert es[j] == ds[j - |cs|];
      }
    }
  }

  /** Node(*children, transform): a fresh node holding the given children,
      which must be valid trees owned by no one else. */
  method NewNode(cs: seq<Child>, initial: Mat4) returns (n: Node)
    requires forall j :: 0 <= j < |cs| && cs[j].Subnode? ==> cs[j].node.Valid()
    requires forall j, k :: 0 <= j < k < |cs| && cs[j].Subnode? && cs[k].Subnode? ==>
      cs[j].node.Repr !! cs[k].node.Repr
    ensures fresh(n) && n.Valid()
    ensures n.children == cs && n.transform == initial && n.premiere == initial
    ensures n.rotation == 0 && n.animation == None
    ensures n.tree == Group(initial, initial, 0, None, old(ScenesOf(cs)))
    ensures n.Repr == {n} + old(ReprOf(cs))
  {
    ghost var mirror := ScenesOf(cs);
    ghost var owned := ReprOf(cs);
    n := new Node(initial);
    assert ScenesOf(cs) == mirror && ReprOf(cs) == owned;
    n.Add(cs);
  }

  /** Mirrors of two child lists concatenate to the mirror of their
      concatenation. */
  lemma MirrorAppend(cs: seq<Child>, ds: seq<Child>, m1: seq<Scene>, m2: seq<Scene>)
    requires |m1| == |cs| && forall j :: 0 <= j < |cs| ==> m1[j] == SceneOf(cs[j])
    requires |m2| == |ds| && forall j :: 0 <= j < |ds| ==> m2[j] == SceneOf(ds[j])
    ensures forall j :: 0 <= j < |cs + ds| ==> (m1 + m2)[j] == SceneOf((cs + ds)[j])
  {
    forall j | 0 <= j < |cs + ds| ensures (m1 + m2)[j] == SceneOf((cs + ds)[j]) {
      if j < |cs| {
        assert (m1 + m2)[j] == m1[j] && (cs + ds)[j] == cs[j];
      } else {
        assert (m1 + m2)[j] == m2[j - |cs|] && (cs + ds)[j] == ds[j - |cs|];
      }
    }
  }

  /** Changing only objects outside the children's footprints keeps them
      separate and keeps what they stand for. */
  twostate lemma ChildrenUnchanged(new cs: seq<Child>, new owned: set<object>, new mirror: seq<Scene>)
    requires old(allocated(cs)) && old(allocated(owned))
    requires old(Separate(cs, owned)) && unchanged(owned)
    requires |mirror| == |cs| && forall j :: 0 <= j < |cs| ==> mirror[j] == old(SceneOf(cs[j]))
    ensures Separate(cs, owned)
    ensures forall j :: 0 <= j < |cs| ==> mirror[j] == SceneOf(cs[j])
  {
    forall j | 0 <= j < |cs| && cs[j].Subnode?
      ensures cs[j].node.Valid() && cs[j].node.tree == old(cs[j].node.tree)
    {
      assert cs[j].node in owned;
      assert cs[j].node.Repr == old(cs[j].node.Repr);
    }
  }

  /** A change confined to the objects of child i keeps the children
      separate and valid, with the same footprints, and leaves every
      sibling's mirror as it was. */
  twostate lemma SeparateAfterChange(new cs: seq<Child>, new repr: set<object>, i: int)
    requires old(allocated(cs)) && old(allocated(repr))
    requires 0 <= i < |cs| && cs[i].Subnode?
    requires old(Separate(cs, repr))
    requires cs[i].node.Valid() && cs[i].node.Repr == old(cs[i].node.Repr)
    requires unchanged(repr - old(cs[i].node.Repr))
    ensures Separate(cs, repr)
    ensures forall j :: 0 <= j < |cs| && j != i ==> SceneOf(cs[j]) == old(SceneOf(cs[j]))
  {
    forall j | 0 <= j < |cs| && j != i && cs[j].Subnode?
      ensures cs[j].node.Valid() && cs[j].node.Repr == old(cs[j].node.Repr) && cs[j].node.tree == old(cs[j].node.tree)
    {
      var m := cs[j].node;
      assert m in old(m.Repr);
      assert old(m.Repr) !! old(cs[i].node.Repr);
      assert unchanged(old(m.Repr));
    }
  }

  /** KeyFrameControlNode(translate_keys, rotate_keys, scale_keys, max): a
      childless identity node animated by the three key lists, looped with
      period max; it fails when one of the key lists is empty. */
  method NewKeyFrameControlNode(translateKeys: seq<(real, Vec3)>, rotateKeys: seq<(real, Quat)>,
                                scaleKeys: seq<(real, real)>, max: real)
    returns (r: KeyFrameTracks.Result<Node>)
    ensures r.Success? <==> translateKeys != [] && rotateKeys != [] && scaleKeys != []
    ensures r.Success? ==>
      var k := TransformTracks.New(translateKeys, rotateKeys, scaleKeys);
      && fresh(r.value) && r.value.Valid() && r.value.Repr == {r.value}
      && r.value.children == [] && r.value.transform == Identity && r.value.premiere == Identity
      && r.value.rotation == 0 && k.Success? && r.value.animation == Some(Animation(k.value, max))
  {
    var k := TransformTracks.New(translateKeys, rotateKeys, scaleKeys);
    if k.Failure? {
      return KeyFrameTracks.Failure(k.error);
    }
    var n := new Node.Animated(k.value, max);
    return KeyFrameTracks.Success(n);
  }
}
