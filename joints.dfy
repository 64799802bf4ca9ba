/** The joint trees of the authoring factory (engine/animation.h declarations) and the records its
    visualisation flatteners emit (projects/setup_test/animation_factory.h). */
module Joints {
  import opened Types
  import opened Trees

  /** The payload of an Engine::BuildingJoint: the editable joint of the authoring skeleton. */
  datatype BuildingJointData = BuildingJointData(localTransform: Transform, eulerAngles: Vec3, weightVolume: JointWeightVolume)

  type BuildingJoint = Tree<BuildingJointData>

  /** The payload of an Engine::Joint: a joint of the flattened skeleton that every keyframe copies. */
  datatype JointData = JointData(localTransform: Transform, eulerAngles: Vec3)

  type Joint = Tree<JointData>

  /** Engine::Skeleton: the flattened skeleton and its joint count. */
  datatype Skeleton = Skeleton(jointCount: nat, root: Joint)

  /** Engine::BuildingKeyframe: a timestamp in [0, 1] and a full copy of the skeleton posed at it. */
  datatype BuildingKeyframe = BuildingKeyframe(timestamp: real, skeleton: Skeleton)

  /** The position, Euler angles and uniform scale that the builders read and write. */
  datatype AnimationTransform = AnimationTransform(position: Vec3, eulerAngles: Vec3, scale: Float)

  /** What the skeleton editor draws for one joint. */
  datatype BuildingJointNode = BuildingJointNode(
    isCurrentJoint: bool,
    jointWorldPosition: Vec3,
    weightWorldStartPoint: Vec3,
    weightWorldStartToEnd: Vec3)

  /** What the animation editor draws for one joint. */
  datatype JointNode = JointNode(isCurrentJoint: bool, jointWorldPosition: Vec3)

  /** The address of a joint inside the keyframes of an animation being authored. */
  datatype JointRef = JointRef(keyframe: nat, path: Path)
}
