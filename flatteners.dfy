/** The recursive pre-order flatteners of projects/setup_test/animation_factory.cc: each walks a joint
    tree depth first, parent before children and children in order, and appends one record per joint
    to the caller's vector (modelled as a sequence passed in and returned). */
module Flatteners {
  import opened Types
  import opened Trees
  import opened Joints

  /** The joint addressed by path `current` lies in the subtree `t` whose own address is `at`. */
  predicate IsUnder<D>(t: Tree<D>, at: Path, current: Path)
  {
    |at| <= |current| && current[..|at|] == at && ValidPath(t, current[|at|..])
  }

  /** `at` addresses the child `i` of a node whose children are `ts` and whose address is `parent`,
      and `current` lies in that child's subtree. */
  predicate IsUnderChild<D>(ts: seq<Tree<D>>, parent: Path, current: Path)
  {
    |parent| < |current| && current[..|parent|] == parent && current[|parent|] < |ts| &&
    ValidPath(ts[current[|parent|]], current[|parent| + 1..])
  }

  /** The path condition of a node splits into "it is the node itself" or "it lies under a child". */
  lemma IsUnderSplit<D>(t: Tree<D>, at: Path, current: Path)
    ensures IsUnder(t, at, current) <==> at == current || IsUnderChild(t.children, at, current)
  {
    if |at| < |current| && current[..|at|] == at {
      var rest := current[|at|..];
      assert rest[0] == current[|at|] && rest[1..] == current[|at| + 1..];
    }
    if at == current {
      assert current[|at|..] == [];
    }
  }

  /** Splitting off the last child of a list: the current joint lies under one of the first `n`
      children or under child `n`. */
  lemma IsUnderChildSplit<D>(ts: seq<Tree<D>>, parent: Path, current: Path)
    requires ts != []
    ensures var n := |ts| - 1;
      IsUnderChild(ts, parent, current) <==>
        IsUnderChild(ts[..n], parent, current) || IsUnder(ts[n], parent + [n], current)
  {
    var n := |ts| - 1;
    if |parent| < |current| && current[..|parent|] == parent && current[|parent|] == n {
      assert current[..|parent| + 1] == parent + [n];
      assert current[|parent| + 1..] == current[|parent| + 1..];
    }
    if IsUnder(ts[n], parent + [n], current) {
      assert current[..|parent|] == current[..|parent| + 1][..|parent|];
      assert current[|parent|] == current[..|parent| + 1][|parent|];
    }
  }

  // ---------------------------------------------------------------------------------------------
  // Skeleton editor: BuildBuildingJointNodes

  /** The nodes BuildBuildingJointNodes emits for the subtree `t` at address `at`. */
  function BuildingNodes(g: Glm, t: BuildingJoint, parentWorld: Mat4, at: Path, current: Path): seq<BuildingJointNode>
    decreases t
  {
    var world := g.mul(parentWorld, g.matrix(t.data.localTransform));
    [BuildingJointNode(
      at == current,
      g.translation(world),
      g.transformPoint(world, t.data.weightVolume.startPoint),
      g.transformVector(parentWorld, t.data.weightVolume.startToEnd))]
    + BuildingNodesAll(g, t.children, world, at, current)
  }

  /** The nodes emitted for the children `ts` of the node at `parent`, in child order. */
  function BuildingNodesAll(g: Glm, ts: seq<BuildingJoint>, world: Mat4, parent: Path, current: Path): seq<BuildingJointNode>
    decreases ts
  {
    if ts == [] then []
    else BuildingNodesAll(g, ts[..|ts| - 1], world, parent, current)
         + BuildingNodes(g, ts[|ts| - 1], world, parent + [|ts| - 1], current)
  }

  method BuildBuildingJointNodes(
    g: Glm,
    startBuildingJoint: BuildingJoint,
    parentWorldTransform: Mat4,
    at: Path,
    currentJoint: Path,
    nodes: seq<BuildingJointNode>
  ) returns (nodes': seq<BuildingJointNode>)
    ensures nodes' == nodes + BuildingNodes(g, startBuildingJoint, parentWorldTransform, at, currentJoint)
    decreases startBuildingJoint
  {
    var worldTransform := g.mul(parentWorldTransform, g.matrix(startBuildingJoint.data.localTransform));
    var isCurrentJoint := at == currentJoint;
    nodes' := nodes + [BuildingJointNode(
      isCurrentJoint,
      g.translation(worldTransform),
      g.transformPoint(worldTransform, startBuildingJoint.data.weightVolume.startPoint),
      g.transformVector(parentWorldTransform, startBuildingJoint.data.weightVolume.startToEnd))];
    ghost var before := nodes';
    var children := startBuildingJoint.children;
    for i := 0 to |children|
      invariant nodes' == before + BuildingNodesAll(g, children[..i], worldTransform, at, currentJoint)
    {
      assert children[..i + 1][..i] == children[..i];
      nodes' := BuildBuildingJointNodes(g, children[i], worldTransform, at + [i], currentJoint, nodes');
      AppendAssoc(before, BuildingNodesAll(g, children[..i], worldTransform, at, currentJoint),
        BuildingNodes(g, children[i], worldTransform, at + [i], currentJoint));
    }
    assert children[..|children|] == children;
  }

  function CountCurrentBuilding(nodes: seq<BuildingJointNode>): nat
  {
    if nodes == [] then 0
    else CountCurrentBuilding(nodes[..|nodes| - 1]) + (if nodes[|nodes| - 1].isCurrentJoint then 1 else 0)
  }

  lemma {:induction false} CountCurrentBuildingAppend(a: seq<BuildingJointNode>, b: seq<BuildingJointNode>)
    ensures CountCurrentBuilding(a + b) == CountCurrentBuilding(a) + CountCurrentBuilding(b)
    decreases |b|
  {
    if b == [] {
      assert a + b == a;
    } else {
      assert (a + b)[..|a + b| - 1] == a + b[..|b| - 1];
      CountCurrentBuildingAppend(a, b[..|b| - 1]);
    }
  }

  /** One record per joint of the subtree. */
  lemma {:induction false} BuildingNodesLength(g: Glm, t: BuildingJoint, parentWorld: Mat4, at: Path, current: Path)
    ensures |BuildingNodes(g, t, parentWorld, at, current)| == Size(t)
    decreases t
  {
    BuildingNodesAllLength(g, t.children, g.mul(parentWorld, g.matrix(t.data.localTransform)), at, current);
  }

  lemma {:induction false} BuildingNodesAllLength(g: Glm, ts: seq<BuildingJoint>, world: Mat4, parent: Path, current: Path)
    ensures |BuildingNodesAll(g, ts, world, parent, current)| == SizeOfAll(ts)
    decreases ts
  {
    if ts != [] {
      var n := |ts| - 1;
      BuildingNodesAllLength(g, ts[..n], world, parent, current);
      BuildingNodesLength(g, ts[n], world, parent + [n], current);
    }
  }

  /** Exactly one record is marked current when the current joint lies in the subtree, none otherwise. */
  lemma {:induction false} BuildingNodesCurrent(g: Glm, t: BuildingJoint, parentWorld: Mat4, at: Path, current: Path)
    ensures CountCurrentBuilding(BuildingNodes(g, t, parentWorld, at, current)) == if IsUnder(t, at, current) then 1 else 0
    decreases t
  {
    var world := g.mul(parentWorld, g.matrix(t.data.localTransform));
    var head := BuildingNodes(g, t, parentWorld, at, current)[..1];
    BuildingNodesAllCurrent(g, t.children, world, at, current);
    CountCurrentBuildingAppend(head, BuildingNodesAll(g, t.children, world, at, current));
    assert head[..0] == [];
    IsUnderSplit(t, at, current);
  }

  lemma {:induction false} BuildingNodesAllCurrent(g: Glm, ts: seq<BuildingJoint>, world: Mat4, parent: Path, current: Path)
    ensures CountCurrentBuilding(BuildingNodesAll(g, ts, world, parent, current)) ==
      if IsUnderChild(ts, parent, current) then 1 else 0
    decreases ts
  {
    if ts != [] {
      var n := |ts| - 1;
      BuildingNodesAllCurrent(g, ts[..n], world, parent, current);
      BuildingNodesCurrent(g, ts[n], world, parent + [n], current);
      CountCurrentBuildingAppend(BuildingNodesAll(g, ts[..n], world, parent, current), BuildingNodes(g, ts[n], world, parent + [n], current));
      IsUnderChildSplit(ts, parent, current);
    }
  }

  // ---------------------------------------------------------------------------------------------
  // Skeleton editor: BuildWeightVolumes

  /** The world-space weight volumes BuildWeightVolumes emits for the subtree `t`. */
  function WeightVolumes(g: Glm, t: BuildingJoint, parentWorld: Mat4): seq<JointWeightVolume>
    decreases t
  {
    var world := g.mul(parentWorld, g.matrix(t.data.localTransform));
    [JointWeightVolume(
      g.transformPoint(world, t.data.weightVolume.startPoint),
      g.transformVector(parentWorld, t.data.weightVolume.startToEnd),
      t.data.weightVolume.falloffRate)]
    + WeightVolumesAll(g, t.children, world)
  }

  function WeightVolumesAll(g: Glm, ts: seq<BuildingJoint>, world: Mat4): seq<JointWeightVolume>
    decreases ts
  {
    if ts == [] then []
    else WeightVolumesAll(g, ts[..|ts| - 1], world) + WeightVolumes(g, ts[|ts| - 1], world)
  }

  method BuildWeightVolumes(
    g: Glm,
    startBuildingJoint: BuildingJoint,
    parentWorldTransform: Mat4,
    weightVolumes: seq<JointWeightVolume>
  ) returns (weightVolumes': seq<JointWeightVolume>)
    ensures weightVolumes' == weightVolumes + WeightVolumes(g, startBuildingJoint, parentWorldTransform)
    decreases startBuildingJoint
  {
    var worldTransform := g.mul(parentWorldTransform, g.matrix(startBuildingJoint.data.localTransform));
    var local := startBuildingJoint.data.weightVolume;
    weightVolumes' := weightVolumes + [JointWeightVolume(
      g.transformPoint(worldTransform, local.startPoint),
      g.transformVector(parentWorldTransform, local.startToEnd),
      local.falloffRate)];
    ghost var before := weightVolumes';
    var children := startBuildingJoint.children;
    for i := 0 to |children|
      invariant weightVolumes' == before + WeightVolumesAll(g, children[..i], worldTransform)
    {
      assert children[..i + 1][..i] == children[..i];
      weightVolumes' := BuildWeightVolumes(g, children[i], worldTransform, weightVolumes');
      AppendAssoc(before, WeightVolumesAll(g, children[..i], worldTransform), WeightVolumes(g, children[i], worldTransform));
    }
    assert children[..|children|] == children;
  }

  /** One world weight volume per joint, each keeping its joint's falloff rate, in pre-order. */
  lemma {:induction false} WeightVolumesPreOrder(g: Glm, t: BuildingJoint, parentWorld: Mat4)
    ensures |WeightVolumes(g, t, parentWorld)| == Size(t) == |PreOrder(t)|
    ensures forall k :: 0 <= k < Size(t) ==>
      WeightVolumes(g, t, parentWorld)[k].falloffRate == PreOrder(t)[k].weightVolume.falloffRate
    decreases t
  {
    WeightVolumesAllPreOrder(g, t.children, g.mul(parentWorld, g.matrix(t.data.localTransform)));
  }

  lemma {:induction false} WeightVolumesAllPreOrder(g: Glm, ts: seq<BuildingJoint>, world: Mat4)
    ensures |WeightVolumesAll(g, ts, world)| == SizeOfAll(ts) == |PreOrderAll(ts)|
    ensures forall k :: 0 <= k < SizeOfAll(ts) ==>
      WeightVolumesAll(g, ts, world)[k].falloffRate == PreOrderAll(ts)[k].weightVolume.falloffRate
    decreases ts
  {
    if ts != [] {
      var n := |ts| - 1;
      WeightVolumesAllPreOrder(g, ts[..n], world);
      WeightVolumesPreOrder(g, ts[n], world);
    }
  }

  // ---------------------------------------------------------------------------------------------
  // Animation editor: BuildJointNodes

  /** Every node of `left` has at least as many children as the corresponding node of `right`:
      the lock-step walk over `left` never indexes past the children of `right`. */
  predicate Covers<A, B>(left: Tree<A>, right: Tree<B>)
    decreases left
  {
    |left.children| <= |right.children| &&
    forall i :: 0 <= i < |left.children| ==> Covers(left.children[i], right.children[i])
  }

  lemma {:induction false} SameShapeCovers<A, B>(a: Tree<A>, b: Tree<B>)
    requires SameShape(a, b)
    ensures Covers(a, b)
    decreases a
  {
    forall i | 0 <= i < |a.children| ensures Covers(a.children[i], b.children[i]) {
      SameShapeCovers(a.children[i], b.children[i]);
    }
  }

  predicate CoversAll<A, B>(ls: seq<Tree<A>>, rs: seq<Tree<B>>)
  {
    |ls| <= |rs| && forall i :: 0 <= i < |ls| ==> Covers(ls[i], rs[i])
  }

  /** The positions BuildJointNodes emits for the subtree `left` of keyframe `keyframe`, interpolated
      towards `right`; a node is current when its address is the cursor's. */
  function JointNodes(
    g: Glm, left: Joint, right: Joint, parentWorld: Mat4, alpha: real, keyframe: nat, at: Path, current: JointRef
  ): seq<JointNode>
    requires Covers(left, right)
    decreases left
  {
    var world := g.mul(parentWorld, g.matrix(g.lerp(left.data.localTransform, right.data.localTransform, alpha)));
    [JointNode(JointRef(keyframe, at) == current, g.translation(world))]
    + JointNodesAll(g, left.children, right.children, world, alpha, keyframe, at, current)
  }

  function JointNodesAll(
    g: Glm, ls: seq<Joint>, rs: seq<Joint>, world: Mat4, alpha: real, keyframe: nat, parent: Path, current: JointRef
  ): seq<JointNode>
    requires CoversAll(ls, rs)
    decreases ls
  {
    if ls == [] then []
    else JointNodesAll(g, ls[..|ls| - 1], rs, world, alpha, keyframe, parent, current)
         + JointNodes(g, ls[|ls| - 1], rs[|ls| - 1], world, alpha, keyframe, parent + [|ls| - 1], current)
  }

  lemma JointNodesSnoc(
    g: Glm, ls: seq<Joint>, rs: seq<Joint>, i: nat, world: Mat4, alpha: real, keyframe: nat, parent: Path, current: JointRef)
    requires CoversAll(ls, rs) && i < |ls|
    ensures CoversAll(ls[..i], rs) && CoversAll(ls[..i + 1], rs)
    ensures JointNodesAll(g, ls[..i + 1], rs, world, alpha, keyframe, parent, current)
      == JointNodesAll(g, ls[..i], rs, world, alpha, keyframe, parent, current)
         + JointNodes(g, ls[i], rs[i], world, alpha, keyframe, parent + [i], current)
  {
    assert ls[..i + 1][..i] == ls[..i];
  }

  method BuildJointNodes(
    g: Glm,
    startLeftJoint: Joint,
    startRightJoint: Joint,
    parentWorldTransform: Mat4,
    keyframe: nat,
    at: Path,
    currentJoint: JointRef,
    alpha: real,
    positions: seq<JointNode>
  ) returns (positions': seq<JointNode>)
    requires Covers(startLeftJoint, startRightJoint)
    ensures positions' == positions +
      JointNodes(g, startLeftJoint, startRightJoint, parentWorldTransform, alpha, keyframe, at, currentJoint)
    decreases startLeftJoint
  {
    var worldTransform := g.mul(parentWorldTransform,
      g.matrix(g.lerp(startLeftJoint.data.localTransform, startRightJoint.data.localTransform, alpha)));
    var isCurrentJoint := JointRef(keyframe, at) == currentJoint;
    positions' := positions + [JointNode(isCurrentJoint, g.translation(worldTransform))];
    ghost var before := positions';
    var ls, rs := startLeftJoint.children, startRightJoint.children;
    for i := 0 to |ls|
      invariant positions' == before + JointNodesAll(g, ls[..i], rs, worldTransform, alpha, keyframe, at, currentJoint)
    {
      JointNodesSnoc(g, ls, rs, i, worldTransform, alpha, keyframe, at, currentJoint);
      positions' := BuildJointNodes(g, ls[i], rs[i], worldTransform, keyframe, at + [i], currentJoint, alpha, positions');
      AppendAssoc(before, JointNodesAll(g, ls[..i], rs, worldTransform, alpha, keyframe, at, currentJoint),
        JointNodes(g, ls[i], rs[i], worldTransform, alpha, keyframe, at + [i], currentJoint));
    }
    assert ls[..|ls|] == ls;
  }

  function CountCurrent(nodes: seq<JointNode>): nat
  {
    if nodes == [] then 0
    else CountCurrent(nodes[..|nodes| - 1]) + (if nodes[|nodes| - 1].isCurrentJoint then 1 else 0)
  }

  lemma {:induction false} CountCurrentAppend(a: seq<JointNode>, b: seq<JointNode>)
    ensures CountCurrent(a + b) == CountCurrent(a) + CountCurrent(b)
    decreases |b|
  {
    if b == [] {
      assert a + b == a;
    } else {
      assert (a + b)[..|a + b| - 1] == a + b[..|b| - 1];
      CountCurrentAppend(a, b[..|b| - 1]);
    }
  }

  /** One position per joint of the left tree. */
  lemma {:induction false} JointNodesLength(
    g: Glm, left: Joint, right: Joint, parentWorld: Mat4, alpha: real, keyframe: nat, at: Path, current: JointRef)
    requires Covers(left, right)
    ensures |JointNodes(g, left, right, parentWorld, alpha, keyframe, at, current)| == Size(left)
    decreases left
  {
    var world := g.mul(parentWorld, g.matrix(g.lerp(left.data.localTransform, right.data.localTransform, alpha)));
    JointNodesAllLength(g, left.children, right.children, world, alpha, keyframe, at, current);
  }

  lemma {:induction false} JointNodesAllLength(
    g: Glm, ls: seq<Joint>, rs: seq<Joint>, world: Mat4, alpha: real, keyframe: nat, parent: Path, current: JointRef)
    requires CoversAll(ls, rs)
    ensures |JointNodesAll(g, ls, rs, world, alpha, keyframe, parent, current)| == SizeOfAll(ls)
    decreases ls
  {
    if ls != [] {
      var n := |ls| - 1;
      JointNodesAllLength(g, ls[..n], rs, world, alpha, keyframe, parent, current);
      JointNodesLength(g, ls[n], rs[n], world, alpha, keyframe, parent + [n], current);
    }
  }

  /** Exactly one position is marked current when the cursor lies in this keyframe's subtree. */
  lemma {:induction false} JointNodesCurrent(
    g: Glm, left: Joint, right: Joint, parentWorld: Mat4, alpha: real, keyframe: nat, at: Path, current: JointRef)
    requires Covers(left, right)
    ensures CountCurrent(JointNodes(g, left, right, parentWorld, alpha, keyframe, at, current)) ==
      if current.keyframe == keyframe && IsUnder(left, at, current.path) then 1 else 0
    decreases left
  {
    var world := g.mul(parentWorld, g.matrix(g.lerp(left.data.localTransform, right.data.localTransform, alpha)));
    var nodes := JointNodes(g, left, right, parentWorld, alpha, keyframe, at, current);
    var rest := JointNodesAll(g, left.children, right.children, world, alpha, keyframe, at, current);
    JointNodesAllCurrent(g, left.children, right.children, world, alpha, keyframe, at, current);
    CountCurrentAppend(nodes[..1], rest);
    assert nodes[..1][..0] == [];
    assert nodes == nodes[..1] + rest;
    IsUnderSplit(left, at, current.path);
  }

  lemma {:induction false} JointNodesAllCurrent(
    g: Glm, ls: seq<Joint>, rs: seq<Joint>, world: Mat4, alpha: real, keyframe: nat, parent: Path, current: JointRef)
    requires CoversAll(ls, rs)
    ensures CountCurrent(JointNodesAll(g, ls, rs, world, alpha, keyframe, parent, current)) ==
      if current.keyframe == keyframe && IsUnderChild(ls, parent, current.path) then 1 else 0
    decreases ls
  {
    if ls != [] {
      var n := |ls| - 1;
      JointNodesAllCurrent(g, ls[..n], rs, world, alpha, keyframe, parent, current);
      JointNodesCurrent(g, ls[n], rs[n], world, alpha, keyframe, parent + [n], current);
      CountCurrentAppend(
        JointNodesAll(g, ls[..n], rs, world, alpha, keyframe, parent, current),
        JointNodes(g, ls[n], rs[n], world, alpha, keyframe, parent + [n], current));
      IsUnderChildSplit(ls, parent, current.path);
    }
  }
}
