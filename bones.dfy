/** The Bone-based revision of the skeleton in engine/animation.cc: a tree of heap objects, each owning
    an ordered vector of children and pointing back at its parent, that can deep-copy itself and
    flatten itself, in pre-order, into a bind pose or an animation pose. */
module Bones {
  import opened Types
  import opened Trees

  /** What a Bone carries besides its links. */
  datatype BoneData = BoneData(localTransform: BoneTransform, localWeightVolume: BoneWeightVolume)

  /** Transform() in engine/animation.cc: zero position, zero Euler angles, unit scale on every axis. */
  const DEFAULT_BONE_TRANSFORM: BoneTransform := BoneTransform(VEC3_ZERO, VEC3_ZERO, VEC3_ONE)

  /** BoneWeightVolume(): start point, start-to-end, squared length and falloff rate all zero. */
  function DefaultBoneWeightVolume(): (w: BoneWeightVolume)
    ensures forall i :: 0 <= i < VEC3_SIZE ==> w.startPoint[i] == 0 && w.startToEnd[i] == 0
    ensures forall i :: 0 <= i < FLOAT_SIZE ==> w.lengthSquared[i] == 0 && w.falloffRate[i] == 0
  {
    BoneWeightVolume(VEC3_ZERO, VEC3_ZERO, FLOAT_ZERO, FLOAT_ZERO)
  }

  /** The derived cache of a weight volume agrees with its direction. */
  predicate LengthCached(g: Glm, w: BoneWeightVolume)
  {
    w.lengthSquared == g.dot(w.startToEnd, w.startToEnd)
  }

  /** BoneWeightVolume(startPoint, startToEnd, falloffRate): caches the squared length of startToEnd. */
  function NewBoneWeightVolume(g: Glm, startPoint: Vec3, startToEnd: Vec3, falloffRate: Float): (w: BoneWeightVolume)
    ensures w.startPoint == startPoint && w.startToEnd == startToEnd && w.falloffRate == falloffRate
    ensures LengthCached(g, w)
  {
    BoneWeightVolume(startPoint, startToEnd, g.dot(startToEnd, startToEnd), falloffRate)
  }

  /** The vectors a bind pose is generated into. */
  datatype SkeletonBindPose = SkeletonBindPose(inverseWorldTransforms: seq<Mat4>, weightVolumes: seq<BoneWeightVolume>)

  /** The vector an animation pose is generated into. */
  datatype SkeletonAnimationPose = SkeletonAnimationPose(worldTransforms: seq<Mat4>)

  // ---------------------------------------------------------------------------------------------
  // What the pose generators append, as functions of the tree

  function World(g: Glm, t: Tree<BoneData>, parentWorld: Mat4): Mat4
  {
    g.mul(parentWorld, g.boneMatrix(t.data.localTransform))
  }

  /** The world transforms GenerateAnimationPose appends for the subtree `t`, in pre-order. */
  function WorldTransforms(g: Glm, t: Tree<BoneData>, parentWorld: Mat4): seq<Mat4>
    decreases t
  {
    [World(g, t, parentWorld)] + WorldTransformsAll(g, t.children, World(g, t, parentWorld))
  }

  function WorldTransformsAll(g: Glm, ts: seq<Tree<BoneData>>, world: Mat4): seq<Mat4>
    decreases ts
  {
    if ts == [] then []
    else WorldTransformsAll(g, ts[..|ts| - 1], world) + WorldTransforms(g, ts[|ts| - 1], world)
  }

  /** The inverse world transforms GenerateBindPose appends for the subtree `t`, in pre-order. */
  function BindInverses(g: Glm, t: Tree<BoneData>, parentWorld: Mat4): seq<Mat4>
    decreases t
  {
    [g.inverse(World(g, t, parentWorld))] + BindInversesAll(g, t.children, World(g, t, parentWorld))
  }

  function BindInversesAll(g: Glm, ts: seq<Tree<BoneData>>, world: Mat4): seq<Mat4>
    decreases ts
  {
    if ts == [] then []
    else BindInversesAll(g, ts[..|ts| - 1], world) + BindInverses(g, ts[|ts| - 1], world)
  }

  /** The world weight volume of one bone: both the start point and the direction are carried by the
      bone's own world transform. */
  function WorldVolume(g: Glm, t: Tree<BoneData>, parentWorld: Mat4): BoneWeightVolume
  {
    var world := World(g, t, parentWorld);
    var local := t.data.localWeightVolume;
    NewBoneWeightVolume(g, g.transformPoint(world, local.startPoint), g.transformVector(world, local.startToEnd), local.falloffRate)
  }

  /** The world weight volumes GenerateBindPose appends for the subtree `t`, in pre-order. */
  function BindVolumes(g: Glm, t: Tree<BoneData>, parentWorld: Mat4): seq<BoneWeightVolume>
    decreases t
  {
    [WorldVolume(g, t, parentWorld)] + BindVolumesAll(g, t.children, World(g, t, parentWorld))
  }

  function BindVolumesAll(g: Glm, ts: seq<Tree<BoneData>>, world: Mat4): seq<BoneWeightVolume>
    decreases ts
  {
    if ts == [] then []
    else BindVolumesAll(g, ts[..|ts| - 1], world) + BindVolumes(g, ts[|ts| - 1], world)
  }

  // ---------------------------------------------------------------------------------------------
  // Properties of the generated poses

  /** The bind pose holds, at every pre-order index, the inverse of the world transform that the
      animation pose of the same tree holds at that index; both have one entry per bone. */
  lemma {:induction false} BindInversesInvertWorld(g: Glm, t: Tree<BoneData>, parentWorld: Mat4)
    ensures |BindInverses(g, t, parentWorld)| == |WorldTransforms(g, t, parentWorld)| == Size(t)
    ensures forall k :: 0 <= k < Size(t) ==>
      BindInverses(g, t, parentWorld)[k] == g.inverse(WorldTransforms(g, t, parentWorld)[k])
    decreases t
  {
    BindInversesAllInvertWorld(g, t.children, World(g, t, parentWorld));
  }

  lemma {:induction false} BindInversesAllInvertWorld(g: Glm, ts: seq<Tree<BoneData>>, world: Mat4)
    ensures |BindInversesAll(g, ts, world)| == |WorldTransformsAll(g, ts, world)| == SizeOfAll(ts)
    ensures forall k :: 0 <= k < SizeOfAll(ts) ==>
      BindInversesAll(g, ts, world)[k] == g.inverse(WorldTransformsAll(g, ts, world)[k])
    decreases ts
  {
    if ts != [] {
      BindInversesAllInvertWorld(g, ts[..|ts| - 1], world);
      BindInversesInvertWorld(g, ts[|ts| - 1], world);
    }
  }

  /** The bind pose holds one weight volume per bone, in pre-order; each keeps its bone's falloff rate
      and carries a squared length that agrees with its direction. */
  lemma {:induction false} BindVolumesPreOrder(g: Glm, t: Tree<BoneData>, parentWorld: Mat4)
    ensures |BindVolumes(g, t, parentWorld)| == Size(t) == |PreOrder(t)|
    ensures forall k :: 0 <= k < Size(t) ==>
      BindVolumes(g, t, parentWorld)[k].falloffRate == PreOrder(t)[k].localWeightVolume.falloffRate &&
      LengthCached(g, BindVolumes(g, t, parentWorld)[k])
    decreases t
  {
    BindVolumesAllPreOrder(g, t.children, World(g, t, parentWorld));
  }

  lemma {:induction false} BindVolumesAllPreOrder(g: Glm, ts: seq<Tree<BoneData>>, world: Mat4)
    ensures |BindVolumesAll(g, ts, world)| == SizeOfAll(ts) == |PreOrderAll(ts)|
    ensures forall k :: 0 <= k < SizeOfAll(ts) ==>
      BindVolumesAll(g, ts, world)[k].falloffRate == PreOrderAll(ts)[k].localWeightVolume.falloffRate &&
      LengthCached(g, BindVolumesAll(g, ts, world)[k])
    decreases ts
  {
    if ts != [] {
      BindVolumesAllPreOrder(g, ts[..|ts| - 1], world);
      BindVolumesPreOrder(g, ts[|ts| - 1], world);
    }
  }

  /** Generating the poses of the first i + 1 children is generating the first i, then child i. */
  lemma BindPoseSnoc(g: Glm, ts: seq<Tree<BoneData>>, i: nat, world: Mat4)
    requires i < |ts|
    ensures BindInversesAll(g, ts[..i + 1], world) == BindInversesAll(g, ts[..i], world) + BindInverses(g, ts[i], world)
    ensures BindVolumesAll(g, ts[..i + 1], world) == BindVolumesAll(g, ts[..i], world) + BindVolumes(g, ts[i], world)
    ensures WorldTransformsAll(g, ts[..i + 1], world) == WorldTransformsAll(g, ts[..i], world) + WorldTransforms(g, ts[i], world)
  {
    assert ts[..i + 1][..i] == ts[..i];
  }

  // ---------------------------------------------------------------------------------------------

  class Bone {
    var parent: Bone?
    var children: seq<Bone>
    var localTransform: BoneTransform
    var localWeightVolume: BoneWeightVolume

    /** The tree of payloads this bone heads. */
    ghost var Model: Tree<BoneData>
    /** This bone and every bone below it. */
    ghost var Repr: set<object>

    ghost predicate Valid()
      reads this, Repr
      decreases Repr
    {
      this in Repr &&
      Model.data == BoneData(localTransform, localWeightVolume) &&
      |Model.children| == |children| &&
      (forall i :: 0 <= i < |children| ==>
        children[i] in Repr && children[i].Repr <= Repr && this !in children[i].Repr &&
        children[i].parent == this && children[i].Model == Model.children[i] && children[i].Valid()) &&
      (forall i, j :: 0 <= i < j < |children| ==> children[i].Repr !! children[j].Repr)
    }

    /** Bone() when `p` is null, Bone(p) otherwise: a leaf with default transform and weight volume. */
    constructor (p: Bone?)
      ensures Valid() && fresh(Repr) && Repr == {this}
      ensures parent == p && children == []
      ensures Model == Node(BoneData(DEFAULT_BONE_TRANSFORM, DefaultBoneWeightVolume()), [])
    {
      parent := p;
      children := [];
      localTransform := DEFAULT_BONE_TRANSFORM;
      localWeightVolume := DefaultBoneWeightVolume();
      Model := Node(BoneData(DEFAULT_BONE_TRANSFORM, DefaultBoneWeightVolume()), []);
      Repr := {this};
    }

    /** Appends one new default child whose parent is this bone. */
    method AddChild()
      requires Valid()
      modifies this
      ensures Valid() && fresh(Repr - old(Repr))
      ensures |children| == |old(children)| + 1 && children[..|old(children)|] == old(children)
      ensures fresh(children[|children| - 1]) && children[|children| - 1].parent == this
      ensures parent == old(parent)
      ensures Model == Node(old(Model).data, old(Model).children + [Node(BoneData(DEFAULT_BONE_TRANSFORM, DefaultBoneWeightVolume()), [])])
    {
      var child := new Bone(this);
      children := children + [child];
      Repr := Repr + child.Repr;
      Model := Model.(children := Model.children + [child.Model]);
      AppendedKeepsValid(child);
    }

    /** Removes child `childIndex`; the later children move down by one. */
    method RemoveChild(childIndex: nat)
      requires Valid() && childIndex < |children|
      modifies this
      ensures Valid() && Repr == old(Repr)
      ensures children == RemoveAt(old(children), childIndex)
      ensures parent == old(parent)
      ensures Model == Node(old(Model).data, RemoveAt(old(Model).children, childIndex))
    {
      children := RemoveAt(children, childIndex);
      Model := Model.(children := RemoveAt(Model.children, childIndex));
      assert forall i, j :: 0 <= i < j < |children| ==>
        children[i] == old(children)[if i < childIndex then i else i + 1] &&
        children[j] == old(children)[if j < childIndex then j else j + 1];
    }

    function ChildrenCount(): (n: nat)
      reads this, Repr
      requires Valid()
      ensures n == |Model.children|
    {
      |children|
    }

    function GetChild(childIndex: nat): (c: Bone)
      reads this, Repr
      requires Valid() && childIndex < |Model.children|
      ensures c in Repr && c.Repr < Repr && c.Valid()
      ensures c.parent == this && c.Model == Model.children[childIndex]
    {
      children[childIndex]
    }

    /** Appends the inverse world transform and the world weight volume of every bone below and
        including this one, in pre-order. */
    method GenerateBindPose(g: Glm, outData: SkeletonBindPose, parentWorldTransform: Mat4) returns (outData': SkeletonBindPose)
      requires Valid()
      ensures outData'.inverseWorldTransforms == outData.inverseWorldTransforms + BindInverses(g, Model, parentWorldTransform)
      ensures outData'.weightVolumes == outData.weightVolumes + BindVolumes(g, Model, parentWorldTransform)
      decreases Repr
    {
      ghost var t := Model;
      var worldTransform := g.mul(parentWorldTransform, g.boneMatrix(localTransform));
      var worldStartPoint := g.transformPoint(worldTransform, localWeightVolume.startPoint);
      var worldStartToEnd := g.transformVector(worldTransform, localWeightVolume.startToEnd);
      outData' := SkeletonBindPose(
        outData.inverseWorldTransforms + [g.inverse(worldTransform)],
        outData.weightVolumes + [NewBoneWeightVolume(g, worldStartPoint, worldStartToEnd, localWeightVolume.falloffRate)]);
      assert worldTransform == World(g, t, parentWorldTransform);
      assert outData'.weightVolumes == outData.weightVolumes + [WorldVolume(g, t, parentWorldTransform)];
      ghost var before := outData';
      for i := 0 to |children|
        invariant outData'.inverseWorldTransforms == before.inverseWorldTransforms + BindInversesAll(g, t.children[..i], worldTransform)
        invariant outData'.weightVolumes == before.weightVolumes + BindVolumesAll(g, t.children[..i], worldTransform)
      {
        var child := GetChild(i);
        BindPoseSnoc(g, t.children, i, worldTransform);
        outData' := child.GenerateBindPose(g, outData', worldTransform);
        AppendAssoc(before.inverseWorldTransforms, BindInversesAll(g, t.children[..i], worldTransform), BindInverses(g, t.children[i], worldTransform));
        AppendAssoc(before.weightVolumes, BindVolumesAll(g, t.children[..i], worldTransform), BindVolumes(g, t.children[i], worldTransform));
      }
      assert t.children[..|children|] == t.children;
    }

    /** Appends the world transform of every bone below and including this one, in pre-order. */
    method GenerateAnimationPose(g: Glm, outData: SkeletonAnimationPose, parentWorldTransform: Mat4) returns (outData': SkeletonAnimationPose)
      requires Valid()
      ensures outData'.worldTransforms == outData.worldTransforms + WorldTransforms(g, Model, parentWorldTransform)
      decreases Repr
    {
      ghost var t := Model;
      var worldTransform := g.mul(parentWorldTransform, g.boneMatrix(localTransform));
      outData' := SkeletonAnimationPose(outData.worldTransforms + [worldTransform]);
      ghost var before := outData';
      for i := 0 to |children|
        invariant outData'.worldTransforms == before.worldTransforms + WorldTransformsAll(g, t.children[..i], worldTransform)
      {
        var child := GetChild(i);
        BindPoseSnoc(g, t.children, i, worldTransform);
        outData' := child.GenerateAnimationPose(g, outData', worldTransform);
        AppendAssoc(before.worldTransforms, WorldTransformsAll(g, t.children[..i], worldTransform), WorldTransforms(g, t.children[i], worldTransform));
      }
      assert t.children[..|children|] == t.children;
    }

    /** A bone none of whose footprint has changed is still valid. */
    twostate lemma ValidFramed(b: Bone)
      requires old(b.Valid()) && unchanged(old(b.Repr))
      ensures b.Valid() && b.Repr == old(b.Repr) && b.Model == old(b.Model)
    {
    }

    /** Appending a valid bone whose footprint is new keeps this bone valid, provided that nothing
        else below this bone changed. */
    twostate lemma AppendedKeepsValid(new c: Bone)
      requires old(Valid()) && unchanged(old(Repr) - {this})
      requires children == old(children) + [c]
      requires Model == Node(old(Model).data, old(Model).children + [c.Model])
      requires Repr == old(Repr) + c.Repr
      requires localTransform == old(localTransform) && localWeightVolume == old(localWeightVolume)
      requires c.Valid() && c.parent == this && old(Repr) !! c.Repr
      ensures Valid()
    {
      var kids := old(children);
      forall k | 0 <= k < |kids|
        ensures kids[k].Valid() && kids[k].Repr == old(kids[k].Repr) && kids[k].Model == old(kids[k].Model)
      {
        ValidFramed(kids[k]);
      }
      forall k | 0 <= k < |children|
        ensures children[k] in Repr && children[k].Repr <= Repr && this !in children[k].Repr
        ensures children[k].parent == this && children[k].Model == Model.children[k] && children[k].Valid()
      {
        if k < |kids| {
          assert children[k] == kids[k] && Model.children[k] == old(Model.children[k]);
        }
      }
      forall i, j | 0 <= i < j < |children| ensures children[i].Repr !! children[j].Repr {
        if j < |kids| {
          assert children[i] == kids[i] && children[j] == kids[j];
        } else {
          assert children[i] == kids[i] && children[j] == c;
        }
      }
    }

    /** Appends to `outCopy` a fresh copy of every child subtree, each copied child pointing back at
        `outCopy`, then copies this bone's transform and weight volume into `outCopy`. */
    method MakeCopy(outCopy: Bone)
      requires Valid() && outCopy.Valid() && Repr !! outCopy.Repr
      modifies outCopy
      ensures outCopy.Valid() && fresh(outCopy.Repr - old(outCopy.Repr))
      ensures outCopy.Model == Node(Model.data, old(outCopy.Model).children + Model.children)
      ensures outCopy.children[..|old(outCopy.children)|] == old(outCopy.children)
      ensures outCopy.parent == old(outCopy.parent)
      decreases Repr, 1
    {
      ghost var n0 := |outCopy.children|;
      ghost var data0 := outCopy.Model.data;
      for i := 0 to |children|
        invariant Valid()
        invariant outCopy.Valid()
        invariant Repr !! outCopy.Repr
        invariant fresh(outCopy.Repr - old(outCopy.Repr))
        invariant outCopy.Model == Node(data0, old(outCopy.Model).children + Model.children[..i])
        invariant |outCopy.children| == n0 + i && outCopy.children[..n0] == old(outCopy.children)
        invariant outCopy.parent == old(outCopy.parent)
        invariant outCopy.localTransform == old(outCopy.localTransform)
        invariant outCopy.localWeightVolume == old(outCopy.localWeightVolume)
      {
        var child := GetChild(i);
        outCopy.AppendCopyOf(child);
        assert Model.children[..i + 1] == Model.children[..i] + [Model.children[i]];
      }
      outCopy.localTransform := localTransform;
      outCopy.localWeightVolume := localWeightVolume;
      outCopy.Model := outCopy.Model.(data := Model.data);
      assert Model.children[..|children|] == Model.children;
    }

    /** The body of MakeCopy's loop, run on the copy: appends a new bone whose parent is this one and
        makes it a deep copy of `child`. */
    method AppendCopyOf(child: Bone)
      requires Valid() && child.Valid() && Repr !! child.Repr
      modifies this
      ensures Valid() && fresh(Repr - old(Repr))
      ensures Model == Node(old(Model).data, old(Model).children + [child.Model])
      ensures |children| == |old(children)| + 1 && children[..|old(children)|] == old(children)
      ensures parent == old(parent) && localTransform == old(localTransform) && localWeightVolume == old(localWeightVolume)
      decreases child.Repr, 2
    {
      ghost var kids := children;
      var childCopy := new Bone(this);
      children := children + [childCopy];
      child.MakeCopy(childCopy);
      assert [] + child.Model.children == child.Model.children;
      assert this !in childCopy.Repr && childCopy.Repr !! Repr;
      label Copied:
      Repr := Repr + childCopy.Repr;
      Model := Model.(children := Model.children + [childCopy.Model]);
      ValidFramed@Copied(childCopy);
      AppendedKeepsValid(childCopy);
    }
  }
}
