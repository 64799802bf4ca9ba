/** AnimationObjectFactory and its two builders (projects/setup_test/animation_factory.cc).

    The factory owns at most one session (State): its stage, the live builder, the flattened
    skeleton and the AnimationObject being built. A SkeletonBuilder edits a tree of BuildingJoints
    through a cursor; an AnimationBuilder poses a copy of the skeleton in each keyframe of an ordered
    keyframe list through a cursor of its own. Pointers into trees are paths (module Trees); the
    engine code the factory calls and whose bodies are not shown is the `EngineCode` parameter. */
module Factory {
  import opened Types
  import opened Trees
  import opened Joints
  import opened Flatteners
  import opened AnimationObjects
  import opened Stages
  import Layout

  /** Engine code the factory and the builders call and that is not part of this model. */
  datatype EngineCode = EngineCode(
    // the player every new AnimationObject starts with, and its members
    player: PlayerCode,
    // Skeleton(): the session's skeleton before the skeleton builder completes
    emptySkeleton: Skeleton,
    // the payload BuildingJoint's constructor gives a new joint
    newJoint: BuildingJointData,
    // BuildingSkeleton::jointCount for a joint tree (kept by BuildingJoint's constructor and destructor)
    jointCount: BuildingJoint -> nat,
    // the skeleton that BuildingSkeleton::BuildSkeletonAndBindPose builds from a joint tree
    buildSkeleton: BuildingJoint -> Skeleton,
    // the inverse world matrices and world weight volumes it writes into the bind pose
    bindInverses: BuildingJoint -> seq<Mat4>,
    bindVolumes: BuildingJoint -> seq<JointWeightVolume>,
    // the keyframes (timestamp and one transform per joint) BuildingAnimation::BuildAnimation writes
    buildAnimation: seq<BuildingKeyframe> -> seq<Layout.SavedKeyframe>,
    // BuildingAnimation::InitBorderKeyframes
    initBorderKeyframes: Skeleton -> seq<BuildingKeyframe>)

  // -----------------------------------------------------------------------------------------------
  // The keyframe list of an AnimationBuilder

  /** What the keyframe cursor relies on: at least one keyframe, timestamps strictly increasing (the
      list is ordered by time), and every keyframe a posed copy of the same skeleton. */
  predicate OrderedKeyframes(ks: seq<BuildingKeyframe>)
  {
    |ks| > 0 &&
    (forall i, j :: 0 <= i < j < |ks| ==> ks[i].timestamp < ks[j].timestamp) &&
    forall i :: 0 <= i < |ks| ==> SameShape(ks[i].skeleton.root, ks[0].skeleton.root)
  }

  /** Removing a keyframe other than the first and the last keeps the list ordered and keeps both
      border keyframes: they stay first and last. */
  lemma RemoveKeyframeKeepsBorders(ks: seq<BuildingKeyframe>, i: nat)
    requires OrderedKeyframes(ks) && 0 < i < |ks| - 1
    ensures OrderedKeyframes(RemoveAt(ks, i))
    ensures RemoveAt(ks, i)[0] == ks[0] && RemoveAt(ks, i)[|ks| - 2] == ks[|ks| - 1]
  {
    var r := RemoveAt(ks, i);
    forall a, b | 0 <= a < b < |r| ensures r[a].timestamp < r[b].timestamp {
      var a' := if a < i then a else a + 1;
      var b' := if b < i then b else b + 1;
      assert r[a] == ks[a'] && r[b] == ks[b'];
    }
  }

  /** Reposing one keyframe without changing its shape keeps the list ordered. */
  lemma ReposeKeepsOrdered(ks: seq<BuildingKeyframe>, k: nat, root: Joint)
    requires OrderedKeyframes(ks) && k < |ks| && SameShape(ks[k].skeleton.root, root)
    ensures OrderedKeyframes(ks[k := ks[k].(skeleton := ks[k].skeleton.(root := root))])
  {
    var ks' := ks[k := ks[k].(skeleton := ks[k].skeleton.(root := root))];
    var first := ks[0].skeleton.root;
    SameShapeSymmetric(ks[k].skeleton.root, root);
    SameShapeTransitive(root, ks[k].skeleton.root, first);
    forall i | 0 <= i < |ks'| ensures SameShape(ks'[i].skeleton.root, ks'[0].skeleton.root) {
      if k == 0 && i != 0 {
        SameShapeTransitive(ks[i].skeleton.root, first, root);
      } else if k == 0 {
        SameShapeRefl([root]);
        assert [root][0] == root;
      }
    }
  }

  /** Neighbouring keyframes have the same shape, so the lock-step walk over them stays in range. */
  lemma KeyframesCover(ks: seq<BuildingKeyframe>, i: nat, j: nat)
    requires OrderedKeyframes(ks) && i < |ks| && j < |ks|
    ensures Covers(ks[i].skeleton.root, ks[j].skeleton.root)
  {
    SameShapeSymmetric(ks[j].skeleton.root, ks[0].skeleton.root);
    SameShapeTransitive(ks[i].skeleton.root, ks[0].skeleton.root, ks[j].skeleton.root);
    SameShapeCovers(ks[i].skeleton.root, ks[j].skeleton.root);
  }

  /** The search of GetJointNodes from index `i` on: the first keyframe after the first one whose
      timestamp is later than `time`. */
  function BracketFrom(ks: seq<BuildingKeyframe>, time: real, i: nat): (r: Option<nat>)
    requires i > 0
    ensures r.Some? ==>
      i <= r.value < |ks| && ks[r.value].timestamp > time &&
      forall j :: i <= j < r.value ==> ks[j].timestamp <= time
    ensures r.None? ==> forall j :: i <= j < |ks| ==> ks[j].timestamp <= time
    decreases |ks| - i
  {
    if i >= |ks| then Option.None
    else if ks[i].timestamp > time then Some(i)
    else BracketFrom(ks, time, i + 1)
  }

  /** The keyframe GetJointNodes interpolates towards, if any. */
  function Bracket(ks: seq<BuildingKeyframe>, time: real): Option<nat>
  {
    BracketFrom(ks, time, 1)
  }

  /** In an ordered list, a time from the first keyframe on lies between the bracketing keyframes,
      and the interpolation factor GetJointNodes computes lies in [0, 1). */
  lemma BracketInterval(ks: seq<BuildingKeyframe>, time: real)
    requires OrderedKeyframes(ks) && Bracket(ks, time).Some? && ks[0].timestamp <= time
    ensures var i := Bracket(ks, time).value;
      ks[i - 1].timestamp <= time < ks[i].timestamp &&
      0.0 <= (time - ks[i - 1].timestamp) / (ks[i].timestamp - ks[i - 1].timestamp) < 1.0
  {
    var i := Bracket(ks, time).value;
    UnitFraction(time - ks[i - 1].timestamp, ks[i].timestamp - ks[i - 1].timestamp);
  }

  lemma UnitFraction(x: real, y: real)
    requires 0.0 <= x < y
    ensures 0.0 <= x / y < 1.0
  {
  }

  /** The keyframes GetJointNodes walks at `time` and the interpolation factor between them: at
      time 1 the last keyframe with itself; otherwise the keyframes around the first keyframe after
      the first that is later than `time`; none when there is no such keyframe. */
  function Walked(ks: seq<BuildingKeyframe>, time: real): (w: Option<(nat, nat, real)>)
    requires OrderedKeyframes(ks)
    ensures w.Some? ==> w.value.0 < |ks| && w.value.1 < |ks|
    ensures time == 1.0 ==> w.Some? && w.value == (|ks| - 1, |ks| - 1, 1.0)
    ensures time != 1.0 ==> (w.None? <==> forall j :: 1 <= j < |ks| ==> ks[j].timestamp <= time)
    ensures time != 1.0 && w.Some? ==>
      var (l, r, _) := w.value;
      r == l + 1 && ks[r].timestamp > time && forall j :: 1 <= j < r ==> ks[j].timestamp <= time
  {
    if time == 1.0 then Some((|ks| - 1, |ks| - 1, 1.0))
    else match Bracket(ks, time)
      case None => Option.None
      case Some(i) =>
        Some((i - 1, i, (time - ks[i - 1].timestamp) / (ks[i].timestamp - ks[i - 1].timestamp)))
  }

  /** The nodes GetJointNodes leaves in the caller's vector: the lock-step walk over the walked
      keyframes, marking the joint `current`. */
  function PoseNodes(g: Glm, ks: seq<BuildingKeyframe>, time: real, current: JointRef): seq<JointNode>
    requires OrderedKeyframes(ks)
  {
    match Walked(ks, time)
      case None => []
      case Some((l, r, alpha)) =>
        KeyframesCover(ks, l, r);
        JointNodes(g, ks[l].skeleton.root, ks[r].skeleton.root, g.identity, alpha, l, [], current)
  }

  /** GetJointNodes gives one node per joint of the left keyframe walked, and marks exactly one of
      them when the cursor is in that keyframe and none otherwise; it gives nothing when no keyframe
      is walked. */
  lemma PoseNodesPerJoint(g: Glm, ks: seq<BuildingKeyframe>, time: real, current: JointRef)
    requires OrderedKeyframes(ks) && current.keyframe < |ks|
    requires ValidPath(ks[current.keyframe].skeleton.root, current.path)
    ensures Walked(ks, time).None? ==> PoseNodes(g, ks, time, current) == []
    ensures Walked(ks, time).Some? ==>
      var l := Walked(ks, time).value.0;
      |PoseNodes(g, ks, time, current)| == Size(ks[l].skeleton.root) &&
      CountCurrent(PoseNodes(g, ks, time, current)) == if current.keyframe == l then 1 else 0
  {
    if Walked(ks, time).Some? {
      var (l, r, alpha) := Walked(ks, time).value;
      KeyframesCover(ks, l, r);
      var left, right := ks[l].skeleton.root, ks[r].skeleton.root;
      JointNodesLength(g, left, right, g.identity, alpha, l, [], current);
      JointNodesCurrent(g, left, right, g.identity, alpha, l, [], current);
      assert current.path[0..] == current.path;
    }
  }

  // -----------------------------------------------------------------------------------------------
  // The factory

  /** AnimationObjectFactory::State. */
  class State {
    var stage: Stage
    // p_builder, as the builder of the kind the stage calls for
    var skeletonBuilder: SkeletonBuilder?
    var animationBuilder: AnimationBuilder?
    var skeleton: Skeleton
    var animationObject: AnimationObject

    /** State() with the session's skeleton and object: no stage yet and no builder. */
    constructor(skeleton: Skeleton, animationObject: AnimationObject)
      ensures stage == Stage.None && skeletonBuilder == null && animationBuilder == null
      ensures this.skeleton == skeleton && this.animationObject == animationObject
    {
      stage := Stage.None;
      skeletonBuilder := null;
      animationBuilder := null;
      this.skeleton := skeleton;
      this.animationObject := animationObject;
    }
  }

  class AnimationObjectFactory {
    // p_state
    var state: State?

    /** A session is always in one of the four working stages, and its live builder is the one the
        stage calls for and belongs to this factory. The session's object is always valid, and it
        has no keyframes until the animation is complete. */
    predicate Valid()
      reads this, state
      reads if state != null then {state.animationObject} else {}
      reads if state != null then {state.animationObject.keyframes} else {}
    {
      state != null ==>
        state.stage != Stage.None &&
        state.animationObject.Valid() &&
        (state.stage != AnimationCompleted ==> state.animationObject.keyframes.Length == 0) &&
        (state.stage == BuildingSkeleton || state.stage == SkeletonCompleted ==>
          state.skeletonBuilder != null && state.skeletonBuilder.factory == this && state.animationBuilder == null) &&
        (state.stage == Animating || state.stage == AnimationCompleted ==>
          state.animationBuilder != null && state.animationBuilder.factory == this && state.skeletonBuilder == null)
    }

    constructor()
      ensures Valid() && state == null
    {
      state := null;
    }

    /** CurrentStage reports None exactly when there is no session. */
    function CurrentStage(): (s: Stage)
      requires Valid()
      reads this, state
      reads if state != null then {state.animationObject} else {}
      reads if state != null then {state.animationObject.keyframes} else {}
      ensures s == Stage.None <==> state == null
    {
      if state == null then Stage.None else state.stage
    }

    /** StartBuildingSkeleton opens a session with a new object and a new skeleton builder whose
        cursor is at the root of a one-joint skeleton. */
    method StartBuildingSkeleton(code: EngineCode) returns (builder: SkeletonBuilder)
      requires Valid() && state == null
      modifies this
      ensures Valid() && CurrentStage() == Next(old(CurrentStage()), StartBuildingSkeletonCall).value == BuildingSkeleton
      ensures fresh(state) && state.skeletonBuilder == builder && fresh(builder) && builder.factory == this
      ensures builder.Valid() && builder.root == Node(code.newJoint, []) && builder.current == []
      ensures state.skeleton == code.emptySkeleton
      ensures fresh(state.animationObject) && state.animationObject.jointCount == 0
    {
      var animationObject := new AnimationObject(code.player);
      var s := new State(code.emptySkeleton, animationObject);
      s.stage := BuildingSkeleton;
      state := s;
      builder := new SkeletonBuilder(this, code);
      s.skeletonBuilder := builder;
    }

    /** GetSkeletonBuilder hands out the live skeleton builder; only while the skeleton is built. */
    method GetSkeletonBuilder() returns (builder: SkeletonBuilder)
      requires Valid() && CurrentStage() == BuildingSkeleton
      ensures builder == state.skeletonBuilder && builder.factory == this
    {
      builder := state.skeletonBuilder;
    }

    /** StartAnimating is allowed only once the skeleton is complete: it drops the skeleton builder
        and opens an animation builder on border keyframes of the session's skeleton. */
    method StartAnimating(code: EngineCode) returns (builder: AnimationBuilder)
      requires Valid() && CurrentStage() == SkeletonCompleted
      requires OrderedKeyframes(code.initBorderKeyframes(state.skeleton))
      modifies state
      ensures Valid() && state == old(state)
      ensures CurrentStage() == Next(old(CurrentStage()), StartAnimatingCall).value == Animating
      ensures state.animationBuilder == builder && fresh(builder) && builder.factory == this && builder.Valid()
      ensures builder.keyframes == code.initBorderKeyframes(state.skeleton)
      ensures builder.currentKeyframeIndex == 0 && builder.current == JointRef(0, [])
      ensures state.skeleton == old(state.skeleton) && state.animationObject == old(state.animationObject)
    {
      state.skeletonBuilder := null;
      state.stage := Animating;
      builder := new AnimationBuilder(this, code);
      state.animationBuilder := builder;
    }

    /** GetAnimationBuilder hands out the live animation builder; only while animating. */
    method GetAnimationBuilder() returns (builder: AnimationBuilder)
      requires Valid() && CurrentStage() == Animating
      ensures builder == state.animationBuilder && builder.factory == this
    {
      builder := state.animationBuilder;
    }

    /** CompleteObject is allowed only once the animation is complete: it returns the object and
        ends the session. */
    method CompleteObject() returns (animationObject: AnimationObject)
      requires Valid() && CurrentStage() == AnimationCompleted
      modifies this
      ensures Valid() && CurrentStage() == Next(old(CurrentStage()), CompleteObjectCall).value == Stage.None
      ensures animationObject == old(state.animationObject) && animationObject.Valid()
    {
      animationObject := state.animationObject;
      state := null;
    }
  }

  // -----------------------------------------------------------------------------------------------
  // The skeleton builder

  class SkeletonBuilder {
    // p_factory
    const factory: AnimationObjectFactory
    // skeleton.root
    var root: BuildingJoint
    // p_currentJoint
    var current: Path

    predicate Valid()
      reads this
    {
      ValidPath(root, current)
    }

    /** The joint under the cursor. */
    function CurrentJoint(): BuildingJoint
      requires Valid()
      reads this
    {
      NodeAt(root, current)
    }

    /** A new builder edits a skeleton of one new joint, with the cursor on it. */
    constructor(factory: AnimationObjectFactory, code: EngineCode)
      ensures this.factory == factory && root == Node(code.newJoint, []) && current == [] && Valid()
    {
      this.factory := factory;
      root := Node(code.newJoint, []);
      current := [];
    }

    /** The cursor joint's position and scale, and the Euler angles it keeps beside its rotation. */
    function GetJointTransform(): (t: AnimationTransform)
      requires Valid()
      reads this
      ensures t.position == CurrentJoint().data.localTransform.position
      ensures t.eulerAngles == CurrentJoint().data.eulerAngles
      ensures t.scale == CurrentJoint().data.localTransform.scale
    {
      var data := CurrentJoint().data;
      AnimationTransform(data.localTransform.position, data.eulerAngles, data.localTransform.scale)
    }

    /** The cursor joint's weight volume, in its own space. */
    function GetJointWeightVolume(): (w: JointWeightVolume)
      requires Valid()
      reads this
      ensures w == NodeAt(root, current).data.weightVolume
    {
      CurrentJoint().data.weightVolume
    }

    /** How many children the cursor joint has: the indices GoToChild accepts are those below it. */
    function GetChildCount(): (n: nat)
      requires Valid()
      reads this
      ensures n == |NodeAt(root, current).children|
    {
      |CurrentJoint().children|
    }

    /** Only the root has no parent: the cursor has one exactly when it is below the root. */
    predicate HasParent()
      reads this
      ensures HasParent() <==> |current| > 0
    {
      current != []
    }

    /** The parent of the joint under the cursor, which has that joint as its child. */
    function Parent(): (p: BuildingJoint)
      requires Valid() && HasParent()
      reads this
      ensures ValidPath(root, current[..|current| - 1]) && p == NodeAt(root, current[..|current| - 1])
      ensures current[|current| - 1] < |p.children| && p.children[current[|current| - 1]] == CurrentJoint()
    {
      var k := current[|current| - 1];
      assert current == current[..|current| - 1] + [k];
      ValidPathPrefix(root, current[..|current| - 1], k);
      NodeAt(root, current[..|current| - 1])
    }

    /** SetJointTransform rewrites the current joint's transform and Euler angles and nothing else;
        reading the transform back gives what was set. */
    method SetJointTransform(g: Glm, transform: AnimationTransform)
      requires Valid()
      modifies this
      ensures Valid() && current == old(current) && GetJointTransform() == transform
      ensures CurrentJoint().data.weightVolume == old(CurrentJoint().data.weightVolume)
      ensures CurrentJoint().data.localTransform.rotation == g.quatFromEuler(transform.eulerAngles)
      ensures root == ReplaceAt(old(root), current, NodeAt(root, current))
      ensures SameShape(old(root), root)
    {
      var joint := NodeAt(root, current);
      var data := joint.data.(
        localTransform := Transform(transform.position, g.quatFromEuler(transform.eulerAngles), transform.scale),
        eulerAngles := transform.eulerAngles);
      ReplaceAtNodeAt(root, current, joint.(data := data));
      ReplaceDataKeepsShape(root, current, data);
      root := ReplaceAt(root, current, joint.(data := data));
    }

    /** SetJointWeightVolume rewrites the current joint's weight volume and nothing else. */
    method SetJointWeightVolume(weightVolume: JointWeightVolume)
      requires Valid()
      modifies this
      ensures Valid() && current == old(current) && GetJointWeightVolume() == weightVolume
      ensures CurrentJoint().data.localTransform == old(CurrentJoint().data.localTransform)
      ensures CurrentJoint().data.eulerAngles == old(CurrentJoint().data.eulerAngles)
      ensures root == ReplaceAt(old(root), current, NodeAt(root, current))
      ensures SameShape(old(root), root)
    {
      var joint := NodeAt(root, current);
      var data := joint.data.(weightVolume := weightVolume);
      ReplaceAtNodeAt(root, current, joint.(data := data));
      ReplaceDataKeepsShape(root, current, data);
      root := ReplaceAt(root, current, joint.(data := data));
    }

    /** AddChild appends one new joint to the current joint's children, placed at the end of the
        current joint's weight volume; the cursor stays, and the skeleton grows by one joint. */
    method AddChild(g: Glm, code: EngineCode)
      requires Valid()
      modifies this
      ensures Valid() && current == old(current)
      ensures CurrentJoint().data == old(CurrentJoint().data)
      ensures var volume := old(CurrentJoint().data.weightVolume);
        CurrentJoint().children == old(CurrentJoint().children) + [Node(code.newJoint.(
          localTransform := code.newJoint.localTransform.(position := g.add(volume.startPoint, volume.startToEnd))), [])]
      ensures root == ReplaceAt(old(root), current, NodeAt(root, current))
      ensures Size(root) == old(Size(root)) + 1
    {
      var joint := NodeAt(root, current);
      var volume := joint.data.weightVolume;
      var child := Node(code.newJoint.(
        localTransform := code.newJoint.localTransform.(position := g.add(volume.startPoint, volume.startToEnd))), []);
      var joint' := joint.(children := joint.children + [child]);
      assert joint'.children[..|joint.children|] == joint.children;
      assert Size(joint') == Size(joint) + 1 by {
        var children := joint.children + [child];
        assert children[..|children| - 1] == joint.children && children[|children| - 1] == child;
        assert Size(child) == 1;
        assert SizeOfAll(children) == SizeOfAll(joint.children) + 1;
      }
      ReplaceAtNodeAt(root, current, joint');
      SizeReplaceAt(root, current, joint');
      root := ReplaceAt(root, current, joint');
    }

    /** RemoveJointAndGoToParent needs a parent: it removes the current joint (and its subtree) from
        the parent's children, keeps the remaining siblings in order, and moves the cursor to the
        parent. */
    method RemoveJointAndGoToParent()
      requires Valid() && HasParent()
      modifies this
      ensures Valid() && current == old(current[..|current| - 1])
      ensures CurrentJoint().children == RemoveAt(old(Parent().children), old(current[|current| - 1]))
      ensures CurrentJoint().data == old(Parent().data)
      ensures root == ReplaceAt(old(root), current, NodeAt(root, current))
      ensures Size(root) + old(Size(CurrentJoint())) == old(Size(root))
    {
      var parent := current[..|current| - 1];
      var k := current[|current| - 1];
      assert current == parent + [k];
      ValidPathPrefix(root, parent, k);
      var p := NodeAt(root, parent);
      var siblings := p.children;
      var i := 0;
      while i < |siblings| && parent + [i] != current
        invariant i <= k
        decreases |siblings| - i
      {
        i := i + 1;
      }
      var p' := p.(children := RemoveAt(siblings, i));
      SizeOfAllRemoveAt(siblings, i);
      ReplaceAtNodeAt(root, parent, p');
      SizeReplaceAt(root, parent, p');
      root := ReplaceAt(root, parent, p');
      current := parent;
    }

    /** GoToChild moves the cursor to a child of the current joint. */
    method GoToChild(index: nat)
      requires Valid() && index < GetChildCount()
      modifies this
      ensures Valid() && root == old(root) && current == old(current) + [index]
      ensures CurrentJoint() == old(CurrentJoint().children[index])
    {
      ValidPathExtend(root, current, index);
      current := current + [index];
    }

    /** GoToParent moves the cursor to the parent of the current joint. */
    method GoToParent()
      requires Valid() && HasParent()
      modifies this
      ensures Valid() && root == old(root) && current == old(current[..|current| - 1])
      ensures CurrentJoint() == old(Parent())
    {
      ghost var parent := Parent();
      current := current[..|current| - 1];
    }

    /** GetBuildingJointNodes replaces the caller's nodes by one node per joint, root first in
        pre-order, exactly one of them marked as the current joint. */
    method GetBuildingJointNodes(g: Glm) returns (nodes: seq<BuildingJointNode>)
      requires Valid()
      ensures nodes == BuildingNodes(g, root, g.identity, [], current)
      ensures |nodes| == Size(root) && CountCurrentBuilding(nodes) == 1
    {
      nodes := BuildBuildingJointNodes(g, root, g.identity, [], current, []);
      BuildingNodesLength(g, root, g.identity, [], current);
      BuildingNodesCurrent(g, root, g.identity, [], current);
      assert current[0..] == current;
    }

    /** GetWorldJointWeightVolumes replaces the caller's volumes by one world weight volume per joint,
        in pre-order, each with its joint's falloff rate. */
    method GetWorldJointWeightVolumes(g: Glm) returns (weightVolumes: seq<JointWeightVolume>)
      requires Valid()
      ensures weightVolumes == WeightVolumes(g, root, g.identity)
      ensures |weightVolumes| == Size(root) == |PreOrder(root)|
      ensures forall k :: 0 <= k < |weightVolumes| ==>
        weightVolumes[k].falloffRate == PreOrder(root)[k].weightVolume.falloffRate
    {
      weightVolumes := BuildWeightVolumes(g, root, g.identity, []);
      WeightVolumesPreOrder(g, root, g.identity);
    }

    /** Complete builds the session's skeleton and the object's bind pose from the joint tree,
        gives the object the joint count and a pose buffer of that many matrices, and marks the
        skeleton complete. The bind pose and the pose buffer are allocated here, which an engine
        buffer allows only once: so the skeleton must still be being built. */
    method Complete(code: EngineCode) returns (f: AnimationObjectFactory)
      requires Valid() && factory.Valid() && factory.state != null && factory.state.skeletonBuilder == this
      requires factory.CurrentStage() == BuildingSkeleton
      requires code.jointCount(root) < Layout.SIZE_T_LIMIT
      requires |code.bindInverses(root)| == code.jointCount(root) && |code.bindVolumes(root)| == code.jointCount(root)
      modifies factory.state, factory.state.animationObject
      ensures f == factory && factory.Valid() && factory.state == old(factory.state)
      ensures factory.CurrentStage() == Next(old(factory.CurrentStage()), CompleteSkeletonCall).value == SkeletonCompleted
      ensures factory.state.skeletonBuilder == this
      ensures factory.state.skeleton == code.buildSkeleton(root)
      ensures factory.state.animationObject == old(factory.state.animationObject)
      ensures var obj := factory.state.animationObject;
        obj.Valid() && obj.jointCount == code.jointCount(root) &&
        fresh(obj.inverseWorldMatrices) && obj.inverseWorldMatrices[..] == code.bindInverses(root) &&
        fresh(obj.worldWeightVolumes) && obj.worldWeightVolumes[..] == code.bindVolumes(root) &&
        fresh(obj.deformationMatrices) && obj.deformationMatrices.Length == obj.jointCount
      ensures var obj := factory.state.animationObject;
        obj.keyframeCount == old(obj.keyframeCount) && obj.keyframes == old(obj.keyframes) &&
        obj.player == old(obj.player)
    {
      var state := factory.state;
      var obj := state.animationObject;
      var inverses, volumes := code.bindInverses(root), code.bindVolumes(root);
      state.skeleton := code.buildSkeleton(root);
      obj.jointCount := code.jointCount(root);
      // BindPose::Allocate, filled by BuildSkeletonAndBindPose
      obj.inverseWorldMatrices := new Mat4[obj.jointCount](i requires 0 <= i < |inverses| => inverses[i]);
      obj.worldWeightVolumes := new JointWeightVolume[obj.jointCount](i requires 0 <= i < |volumes| => volumes[i]);
      // AnimationPose::Allocate
      obj.deformationMatrices := new Mat4[obj.jointCount](_ => MAT4_ZERO);
      state.stage := SkeletonCompleted;
      f := factory;
    }
  }

  /** A child index within range extends a valid path. */
  lemma {:induction false} ValidPathExtend<D>(t: Tree<D>, p: Path, i: nat)
    requires ValidPath(t, p) && i < |NodeAt(t, p).children|
    ensures ValidPath(t, p + [i]) && NodeAt(t, p + [i]) == NodeAt(t, p).children[i]
    decreases |p|
  {
    if p == [] {
      assert [i][1..] == [];
    } else {
      ValidPathExtend(t.children[p[0]], p[1..], i);
      assert (p + [i])[1..] == p[1..] + [i];
    }
  }

  /** The parent part of a valid path is valid, and the last index picks the child. */
  lemma {:induction false} ValidPathPrefix<D>(t: Tree<D>, p: Path, i: nat)
    requires ValidPath(t, p + [i])
    ensures ValidPath(t, p) && i < |NodeAt(t, p).children| && NodeAt(t, p + [i]) == NodeAt(t, p).children[i]
    decreases |p|
  {
    if p == [] {
      assert ([] + [i])[1..] == [];
    } else {
      assert (p + [i])[1..] == p[1..] + [i];
      ValidPathPrefix(t.children[p[0]], p[1..], i);
    }
  }

  // -----------------------------------------------------------------------------------------------
  // The animation builder

  class AnimationBuilder {
    // p_factory
    const factory: AnimationObjectFactory
    // animation.keyframes
    var keyframes: seq<BuildingKeyframe>
    var currentKeyframeIndex: nat
    // p_currentJoint: a joint of the current keyframe's skeleton
    var current: JointRef

    predicate Valid()
      reads this
    {
      OrderedKeyframes(keyframes) && currentKeyframeIndex < |keyframes| &&
      current.keyframe == currentKeyframeIndex &&
      ValidPath(keyframes[currentKeyframeIndex].skeleton.root, current.path)
    }

    /** The joint under the cursor. */
    function CurrentJoint(): Joint
      requires Valid()
      reads this
    {
      NodeAt(keyframes[currentKeyframeIndex].skeleton.root, current.path)
    }

    /** A new builder starts on the border keyframes of the session's skeleton, at the root of the
        first one. */
    constructor(factory: AnimationObjectFactory, code: EngineCode)
      requires factory.state != null && OrderedKeyframes(code.initBorderKeyframes(factory.state.skeleton))
      ensures this.factory == factory && Valid()
      ensures keyframes == code.initBorderKeyframes(factory.state.skeleton)
      ensures currentKeyframeIndex == 0 && current == JointRef(0, [])
    {
      this.factory := factory;
      keyframes := code.initBorderKeyframes(factory.state.skeleton);
      currentKeyframeIndex := 0;
      current := JointRef(0, []);
    }

    /** The number of keyframes. */
    function GetKeyframeCount(): (n: nat)
      reads this
      ensures n == |keyframes|
    {
      |keyframes|
    }

    /** The keyframe the cursor is in: always one of the keyframes. */
    function GetKeyframeIndex(): (i: nat)
      reads this
      ensures i == currentKeyframeIndex
      ensures Valid() ==> i < |keyframes| && i == current.keyframe
    {
      currentKeyframeIndex
    }

    /** The timestamp of the cursor's keyframe, which lies between those of the border keyframes. */
    function GetKeyframeTime(): (t: real)
      requires Valid()
      reads this
      ensures t == keyframes[currentKeyframeIndex].timestamp
      ensures keyframes[0].timestamp <= t <= keyframes[|keyframes| - 1].timestamp
    {
      keyframes[currentKeyframeIndex].timestamp
    }

    /** Only a keyframe strictly between the first and the last may be removed: never a border one. */
    predicate CanKeyframeBeRemoved()
      reads this
      ensures CanKeyframeBeRemoved() <==> 0 < currentKeyframeIndex < |keyframes| - 1
      ensures CanKeyframeBeRemoved() ==> currentKeyframeIndex != 0 && currentKeyframeIndex != |keyframes| - 1
    {
      currentKeyframeIndex > 0 && currentKeyframeIndex + 1 < |keyframes|
    }

    /** RemoveKeyframeAndGoLeft removes the current keyframe, which may not be a border keyframe, and
        moves the cursor to the root of the keyframe before it. */
    method RemoveKeyframeAndGoLeft()
      requires Valid() && CanKeyframeBeRemoved()
      modifies this
      ensures Valid()
      ensures keyframes == RemoveAt(old(keyframes), old(currentKeyframeIndex))
      ensures currentKeyframeIndex == old(currentKeyframeIndex) - 1
      ensures keyframes[currentKeyframeIndex] == old(keyframes[currentKeyframeIndex - 1])
      ensures current == JointRef(currentKeyframeIndex, [])
    {
      RemoveKeyframeKeepsBorders(keyframes, currentKeyframeIndex);
      keyframes := RemoveAt(keyframes, currentKeyframeIndex);
      currentKeyframeIndex := currentKeyframeIndex - 1;
      current := JointRef(currentKeyframeIndex, []);
    }

    /** GoToKeyframe moves the cursor to the root of another keyframe. */
    method GoToKeyframe(index: nat)
      requires Valid() && index < |keyframes|
      modifies this
      ensures Valid() && keyframes == old(keyframes)
      ensures currentKeyframeIndex == index && current == JointRef(index, [])
    {
      currentKeyframeIndex := index;
      current := JointRef(currentKeyframeIndex, []);
    }

    /** The cursor joint's position and scale, and the Euler angles it keeps beside its rotation. */
    function GetJointTransform(): (t: AnimationTransform)
      requires Valid()
      reads this
      ensures t.position == CurrentJoint().data.localTransform.position
      ensures t.eulerAngles == CurrentJoint().data.eulerAngles
      ensures t.scale == CurrentJoint().data.localTransform.scale
    {
      var data := CurrentJoint().data;
      AnimationTransform(data.localTransform.position, data.eulerAngles, data.localTransform.scale)
    }

    /** How many children the cursor joint has in the current keyframe's skeleton. */
    function GetChildCount(): (n: nat)
      requires Valid()
      reads this
      ensures n == |NodeAt(keyframes[currentKeyframeIndex].skeleton.root, current.path).children|
    {
      |CurrentJoint().children|
    }

    /** Only the root has no parent: the cursor has one exactly when it is below the root. */
    predicate HasParent()
      reads this
      ensures HasParent() <==> |current.path| > 0
    {
      current.path != []
    }

    /** The parent of the joint under the cursor, which has that joint as its child. */
    function Parent(): (p: Joint)
      requires Valid() && HasParent()
      reads this
      ensures var path, root := current.path, keyframes[currentKeyframeIndex].skeleton.root;
        ValidPath(root, path[..|path| - 1]) && p == NodeAt(root, path[..|path| - 1]) &&
        path[|path| - 1] < |p.children| && p.children[path[|path| - 1]] == CurrentJoint()
    {
      var path, root := current.path, keyframes[currentKeyframeIndex].skeleton.root;
      var k := path[|path| - 1];
      assert path == path[..|path| - 1] + [k];
      ValidPathPrefix(root, path[..|path| - 1], k);
      NodeAt(root, path[..|path| - 1])
    }

    /** The animation pose's joint count: the one of the session's skeleton. */
    function GetJointCount(): (n: nat)
      requires factory.state != null
      reads factory, factory.state
      ensures n == factory.state.skeleton.jointCount
    {
      factory.state.skeleton.jointCount
    }

    /** SetJointTransform reposes the current joint of the current keyframe and nothing else; the
        keyframe keeps its shape, and reading the transform back gives what was set. */
    method SetJointTransform(g: Glm, transform: AnimationTransform)
      requires Valid()
      modifies this
      ensures Valid() && currentKeyframeIndex == old(currentKeyframeIndex) && current == old(current)
      ensures GetJointTransform() == transform
      ensures CurrentJoint().data.localTransform.rotation == g.quatFromEuler(transform.eulerAngles)
      ensures |keyframes| == old(|keyframes|)
      ensures forall k :: 0 <= k < |keyframes| && k != currentKeyframeIndex ==> keyframes[k] == old(keyframes[k])
      ensures var k := currentKeyframeIndex; var old_root := old(keyframes[k].skeleton.root);
        keyframes[k].timestamp == old(keyframes[k].timestamp) &&
        keyframes[k].skeleton.jointCount == old(keyframes[k].skeleton.jointCount) &&
        keyframes[k].skeleton.root == ReplaceAt(old_root, current.path, CurrentJoint()) &&
        SameShape(old_root, keyframes[k].skeleton.root)
    {
      var k := currentKeyframeIndex;
      var keyframe := keyframes[k];
      var root := keyframe.skeleton.root;
      var joint := NodeAt(root, current.path);
      var data := JointData(
        Transform(transform.position, g.quatFromEuler(transform.eulerAngles), transform.scale),
        transform.eulerAngles);
      ReplaceAtNodeAt(root, current.path, joint.(data := data));
      ReplaceDataKeepsShape(root, current.path, data);
      var root' := ReplaceAt(root, current.path, joint.(data := data));
      ReposeKeepsOrdered(keyframes, k, root');
      keyframes := keyframes[k := keyframe.(skeleton := keyframe.skeleton.(root := root'))];
    }

    /** GoToChild moves the cursor to a child of the current joint. */
    method GoToChild(index: nat)
      requires Valid() && index < GetChildCount()
      modifies this
      ensures Valid() && keyframes == old(keyframes) && currentKeyframeIndex == old(currentKeyframeIndex)
      ensures current == JointRef(currentKeyframeIndex, old(current.path) + [index])
      ensures CurrentJoint() == old(CurrentJoint().children[index])
    {
      ValidPathExtend(keyframes[currentKeyframeIndex].skeleton.root, current.path, index);
      current := current.(path := current.path + [index]);
    }

    /** GoToParent moves the cursor to the parent of the current joint. */
    method GoToParent()
      requires Valid() && HasParent()
      modifies this
      ensures Valid() && keyframes == old(keyframes) && currentKeyframeIndex == old(currentKeyframeIndex)
      ensures current == JointRef(currentKeyframeIndex, old(current.path[..|current.path| - 1]))
      ensures CurrentJoint() == old(Parent())
    {
      ghost var parent := Parent();
      var path := current.path;
      current := current.(path := path[..|path| - 1]);
    }

    /** GetJointNodes replaces the caller's nodes by the pose that PoseNodes describes. */
    method GetJointNodes(g: Glm, time: real) returns (nodes: seq<JointNode>)
      requires Valid()
      ensures nodes == PoseNodes(g, keyframes, time, current)
    {
      var ks := keyframes;
      if time == 1.0 {
        var last := |ks| - 1;
        var root := ks[last].skeleton.root;
        KeyframesCover(ks, last, last);
        nodes := BuildJointNodes(g, root, root, g.identity, last, [], current, 1.0, []);
        return;
      }
      nodes := [];
      for i := 1 to |ks|
        invariant forall j :: 1 <= j < i ==> ks[j].timestamp <= time
      {
        if ks[i].timestamp > time {
          var alpha := (time - ks[i - 1].timestamp) / (ks[i].timestamp - ks[i - 1].timestamp);
          KeyframesCover(ks, i - 1, i);
          nodes := BuildJointNodes(g, ks[i - 1].skeleton.root, ks[i].skeleton.root, g.identity, i - 1, [], current, alpha, []);
          return;
        }
      }
    }

    /** Complete builds the animation into the object and marks the animation complete. The
        animation is allocated here, which an engine buffer allows only once: so the animation must
        still be being authored. */
    method Complete(code: EngineCode) returns (f: AnimationObjectFactory)
      requires factory.Valid() && factory.state != null && factory.state.animationBuilder == this
      requires factory.CurrentStage() == Animating
      requires |code.buildAnimation(keyframes)| < Layout.SIZE_T_LIMIT
      requires forall k :: 0 <= k < |code.buildAnimation(keyframes)| ==>
        |code.buildAnimation(keyframes)[k].transforms| == factory.state.animationObject.jointCount
      modifies factory.state, factory.state.animationObject
      ensures f == factory && factory.Valid() && factory.state == old(factory.state)
      ensures factory.CurrentStage() == Next(old(factory.CurrentStage()), CompleteAnimationCall).value == AnimationCompleted
      ensures factory.state.animationBuilder == this
      ensures factory.state.skeleton == old(factory.state.skeleton)
      ensures factory.state.animationObject == old(factory.state.animationObject)
      ensures var obj := factory.state.animationObject;
        obj.Valid() && obj.keyframeCount == |code.buildAnimation(keyframes)| && fresh(obj.keyframes) &&
        (forall k :: 0 <= k < obj.keyframes.Length ==> fresh(obj.keyframes[k].transformBuffer)) &&
        obj.SavedKeyframes(obj.keyframeCount) == code.buildAnimation(keyframes)
      ensures var obj := factory.state.animationObject;
        obj.jointCount == old(obj.jointCount) && obj.player == old(obj.player) &&
        obj.inverseWorldMatrices == old(obj.inverseWorldMatrices) &&
        obj.worldWeightVolumes == old(obj.worldWeightVolumes) &&
        obj.deformationMatrices == old(obj.deformationMatrices)
    {
      var obj := factory.state.animationObject;
      var built := code.buildAnimation(keyframes);
      var animation := AllocateKeyframes(built, obj.jointCount);
      obj.keyframeCount := |built|;
      obj.keyframes := animation;
      factory.state.stage := AnimationCompleted;
      f := factory;
    }
  }

  /** Animation::Allocate and Keyframe::Allocate, filled as BuildAnimation fills them: a new
      keyframe array, each keyframe holding a new buffer of its transforms. */
  method AllocateKeyframes(built: seq<Layout.SavedKeyframe>, jointCount: nat) returns (keyframes: array<Keyframe>)
    requires forall k :: 0 <= k < |built| ==> |built[k].transforms| == jointCount
    ensures fresh(keyframes) && keyframes.Length == |built|
    ensures forall k :: 0 <= k < |built| ==>
      fresh(keyframes[k].transformBuffer) && keyframes[k].transformBuffer.Length == jointCount &&
      Layout.SavedKeyframe(keyframes[k].timestamp, keyframes[k].transformBuffer[..]) == built[k]
  {
    var unallocated := new Transform[0];
    keyframes := new Keyframe[|built|](_ => Keyframe(FLOAT_ZERO, unallocated));
    for i := 0 to |built|
      invariant forall k :: 0 <= k < i ==>
        fresh(keyframes[k].transformBuffer) && keyframes[k].transformBuffer.Length == jointCount &&
        Layout.SavedKeyframe(keyframes[k].timestamp, keyframes[k].transformBuffer[..]) == built[k]
    {
      var transforms := built[i].transforms;
      var buffer := new Transform[jointCount](j requires 0 <= j < |transforms| => transforms[j]);
      keyframes[i] := Keyframe(built[i].timestamp, buffer);
    }
  }
}
