# Skeletal animation bookkeeping of deformed_sdf_rendering, in Dafny

This project models the part of the deformed_sdf_rendering engine that keeps track of skeletons and
animations. The numeric work is left to glm, so it is not modelled. Four pieces are covered:

- **The authoring factory** (`AnimationObjectFactory` in `projects/setup_test/animation_factory.cc`).
  - A session moves through five stages: None, BuildingSkeleton, SkeletonCompleted, Animating,
    AnimationCompleted, then None again.
  - A `SkeletonBuilder` edits a joint tree through a cursor.
  - An `AnimationBuilder` poses one copy of the skeleton per keyframe of an ordered keyframe list,
    again through a cursor.
  - Three recursive flatteners turn a tree into per-joint records in pre-order. They are
    `BuildBuildingJointNodes`, `BuildWeightVolumes` and `BuildJointNodes`.
  - `GetJointNodes` searches for the pair of keyframes that brackets a time.
- **The Bone tree** (`engine/animation.cc`). Bones own ordered children and point back at their
  parent. A bone can deep-copy its subtree and append its bind pose or animation pose, in pre-order,
  to output vectors.
- **The binary serialiser** (`projects/setup_test/animation_serializer.h` and `.cc`).
  - `AppendData<T>` and `ReadData<T>` copy raw bytes.
  - `AppendAnimationObjectToBuffer` and `ReadAnimationObjectFromBuffer` write and read a fixed
    layout. The header holds jointCount, keyframeCount, duration and loop. Then come J inverse
    world matrices, J weight volumes, and K keyframes, each a timestamp followed by J transforms.
- **The runtime `AnimationObject`** (`projects/setup_test/animation_object.cc`): its constructor,
  `Start`, `Restart` and `Update`.

How the model is built:

- Modules follow the program: `Types`, `Trees`, `Joints`, `Flatteners`, `Bones`, `Layout`,
  `AnimationObjects`, `Serializer`, `Stages` and `Factory`.
- Values that glm computes with (float, vec3, quat, mat4, transforms, weight volumes) are
  fixed-width byte blocks of their `sizeof`.
- glm's maths is a `Glm` value of functions that callers pass in: the matrix product, the inverse,
  `Transform::Matrix`, `Lerp`, vector add and dot, and Euler-to-quaternion.
- Trees of joints and bones are a `Tree` datatype. A pointer to a joint is the path of child
  indices from the root, so pointer equality is path equality.
- The builders, the factory, its session `State`, `Bone` and `AnimationObject` are classes whose
  methods update their fields.
- The object's heap buffers are Dafny arrays.

The serialised format is given as a pure encoder `Encode` and decoder `DecodeObject`. Both
directions of the round trip are proved. The imperative `Append` is proved to append exactly
`Encode` of the object. The imperative `Read` is proved to rebuild exactly what `DecodeObject` reads
and to consume exactly the bytes that encode it.

## Model

| member | source | states |
|---|---|---|
| Serializer.AppendData | projects/setup_test/animation_serializer.h:5-12 | the buffer grows by the value's bytes, in memory order, behind the unchanged old contents |
| Serializer.ReadData | projects/setup_test/animation_serializer.h:14-21 | needs `index + sizeof(T)` bytes in the buffer (nothing is checked); returns exactly those bytes and advances the cursor by `sizeof(T)` |
| Layout.FromLittleEndianInverse | projects/setup_test/animation_serializer.h:5-21 | reading back the bytes of a size_t that was appended recovers the number |
| Layout.LittleEndianInverse | projects/setup_test/animation_serializer.h:5-21 | every 8-byte block is the encoding of the size_t read from it |
| Layout.SizeTBytesRead | projects/setup_test/animation_serializer.h:14-21 | a size_t read from 8 bytes is below 2^64 and re-encodes to the same bytes |
| Layout.ReadBlocks | projects/setup_test/animation_serializer.cc:36-40 | reading n fixed-width values gives n blocks of that width |
| Layout.ReadBlocksConcat | projects/setup_test/animation_serializer.cc:10-14 | reading n blocks back from their concatenation gives the same blocks and leaves the rest |
| Layout.ConcatReadBlocks | projects/setup_test/animation_serializer.cc:36-40 | whatever n blocks are read, the input is their concatenation followed by what is left |
| Layout.ConcatLength | projects/setup_test/animation_serializer.cc:10-14 | n blocks of width w take n·w bytes |
| Layout.WeightVolumeRoundTrip | projects/setup_test/animation_serializer.cc:14 | a weight volume's bytes read back as the same weight volume |
| Layout.WeightVolumeBytesOf | projects/setup_test/animation_serializer.cc:40 | a weight-volume-sized block is the bytes of the weight volume read from it |
| Layout.TransformRoundTrip | projects/setup_test/animation_serializer.cc:21 | a transform's bytes read back as the same transform |
| Layout.TransformBytesOf | projects/setup_test/animation_serializer.cc:48 | a transform-sized block is the bytes of the transform read from it |
| Layout.WeightVolumesRoundTrip | projects/setup_test/animation_serializer.cc:13-14 | a sequence of weight volumes survives encoding and decoding |
| Layout.WeightVolumesBytesOf | projects/setup_test/animation_serializer.cc:39-40 | decoding and re-encoding weight-volume blocks gives the same blocks |
| Layout.TransformsRoundTrip | projects/setup_test/animation_serializer.cc:20-21 | a sequence of transforms survives encoding and decoding |
| Layout.TransformsBytesOf | projects/setup_test/animation_serializer.cc:47-48 | decoding and re-encoding transform blocks gives the same blocks |
| Layout.ReadKeyframe | projects/setup_test/animation_serializer.cc:44-48 | a keyframe read for J joints has J transforms |
| Layout.ReadKeyframes | projects/setup_test/animation_serializer.cc:42-49 | reading K keyframes gives K keyframes of J transforms each |
| Layout.ReadKeyframeBytes | projects/setup_test/animation_serializer.cc:18-21 | a keyframe's bytes (timestamp, then J transforms) read back as the same keyframe, leaving what follows |
| Layout.KeyframeBytesRead | projects/setup_test/animation_serializer.cc:44-48 | any input a keyframe is read from begins with that keyframe's bytes |
| Layout.ReadKeyframesBytes | projects/setup_test/animation_serializer.cc:16-22 | K keyframes written back to back read back as the same K keyframes |
| Layout.KeyframesBytesRead | projects/setup_test/animation_serializer.cc:42-49 | any input K keyframes are read from begins with their bytes |
| Layout.ReadHeaderBytes | projects/setup_test/animation_serializer.cc:5-8 | the header (jointCount, keyframeCount, duration, loop) reads back unchanged |
| Layout.HeaderBytesRead | projects/setup_test/animation_serializer.cc:27-30 | a header that reads successfully has counts below 2^64, and the input begins with its bytes |
| Layout.ReadBodyBytes | projects/setup_test/animation_serializer.cc:10-22 | the matrices, volumes and keyframes after a header read back unchanged, given that header |
| Layout.BodyBytesRead | projects/setup_test/animation_serializer.cc:36-49 | a body read for a header agrees with the header, and the input begins with its bytes |
| Layout.DecodeEncode | projects/setup_test/animation_serializer.cc:3-50 | round trip: decoding an encoded well-formed object recovers every field and leaves the bytes after it |
| Layout.EncodeDecode | projects/setup_test/animation_serializer.cc:25-50 | whatever decodes successfully is well formed, and the consumed bytes are exactly its encoding |
| Layout.KeyframesLength | projects/setup_test/animation_serializer.cc:16-22 | K keyframes take K·(sizeof(float) + J·sizeof(Transform)) bytes |
| Layout.EncodeLength | projects/setup_test/animation_serializer.cc:3-23 | an object takes 2·sizeof(size_t) + sizeof(float) + sizeof(bool) + J·(sizeof(mat4) + sizeof(JointWeightVolume)) + K·(sizeof(float) + J·sizeof(Transform)) bytes |
| Layout.BackToBack | projects/setup_test/animation_serializer.cc:25-50 | two objects appended back to back read back in order, the cursor landing at the start of the second |
| Layout.KeyframesBytesAppend | projects/setup_test/animation_serializer.cc:16-22 | the bytes of two runs of keyframes are the bytes of the first followed by those of the second |
| Serializer.AppendKeyframe | projects/setup_test/animation_serializer.cc:18-21 | the buffer grows by the keyframe's timestamp and then its J transforms |
| Serializer.AppendInverseWorldMatrices | projects/setup_test/animation_serializer.cc:10-11 | the buffer grows by the J inverse world matrices, in index order |
| Serializer.AppendWorldWeightVolumes | projects/setup_test/animation_serializer.cc:13-14 | the buffer grows by the J weight volumes, in index order |
| Serializer.AppendKeyframes | projects/setup_test/animation_serializer.cc:16-22 | the buffer grows by every keyframe in index order, each as its timestamp and J transforms |
| Serializer.AppendAnimationObjectToBuffer | projects/setup_test/animation_serializer.cc:3-23 | only appends: the new buffer is the old one followed by exactly the encoding of the object |
| Serializer.ReadHeaderFields | projects/setup_test/animation_serializer.cc:27-30 | reads the four header fields at the cursor and advances it past them |
| Serializer.AllocateBuffers | projects/setup_test/animation_serializer.cc:32-34 | fresh keyframe, bind-pose and pose arrays sized from the header's counts, the pose distinct from the bind pose |
| Serializer.ReadInverseWorldMatrices | projects/setup_test/animation_serializer.cc:36-37 | fills the J matrices with the next J matrix blocks and advances the cursor past them |
| Serializer.ReadWorldWeightVolumes | projects/setup_test/animation_serializer.cc:39-40 | fills the J weight volumes from the next J blocks and advances the cursor past them |
| Serializer.ReadKeyframeFromBuffer | projects/setup_test/animation_serializer.cc:44-48 | allocates a fresh buffer of J transforms and reads one keyframe at the cursor into it |
| Serializer.ReadKeyframesFromBuffer | projects/setup_test/animation_serializer.cc:42-49 | reads K keyframes in order, each into a fresh transform buffer, and advances the cursor past them |
| Serializer.Install | projects/setup_test/animation_serializer.cc:27-34 | the object holds the header fields and the filled arrays; the player's index and time stay |
| Serializer.ReadAnimationObjectFromBuffer | projects/setup_test/animation_serializer.cc:25-50 | the object ends up holding exactly what the decoder reads at the cursor; the cursor moves past exactly the bytes that encode it; the arrays are fresh; the player's index and time are untouched |
| AnimationObjects.AnimationObject.SavedKeyframes | projects/setup_test/animation_serializer.cc:16-22 | what is saved of each keyframe is its timestamp and transform buffer |
| AnimationObjects.AnimationObject.Saved | projects/setup_test/animation_serializer.cc:3-23 | what Append saves of a valid object is well formed and carries its counts and player settings |
| AnimationObjects.AnimationObject.SavedUnchanged | projects/setup_test/animation_serializer.cc:3-23 | what is saved depends only on the counts, the player and the buffer contents |
| AnimationObjects.AnimationObject.constructor | projects/setup_test/animation_object.cc:3-5 | a new object has no joints and no keyframes, empty buffers, and the player's initial state |
| AnimationObjects.AnimationObject.Start | projects/setup_test/animation_object.cc:7-10 | the duration and the loop flag are handed unchanged to the player; nothing else changes |
| AnimationObjects.AnimationObject.Restart | projects/setup_test/animation_object.cc:12-16 | asks nothing of its caller; the player's keyframe index and time become 0; its duration and loop flag, and every other field, are kept, so a valid object stays valid and saves the same content |
| AnimationObjects.AnimationObject.Update | projects/setup_test/animation_object.cc:18-21 | the player advances with the object's own counts, bind pose, animation and pose; only the player and the pose contents change |
| Bones.DefaultBoneWeightVolume | engine/animation.cc:6-11 | the default weight volume has zero start point, direction, squared length and falloff |
| Bones.NewBoneWeightVolume | engine/animation.cc:13-19 | keeps the given start point, direction and falloff, and caches the squared length of the direction |
| Bones.Bone.constructor | engine/animation.cc:50-56 | a new bone has the given parent, no children, the default transform and weight volume |
| Bones.Bone.AddChild | engine/animation.cc:64-67 | appends exactly one new default bone whose parent is this one; earlier children are unchanged |
| Bones.Bone.RemoveChild | engine/animation.cc:69-73 | needs an index in range; removes that child and shifts the later ones down by one |
| Trees.RemoveAt | engine/animation.cc:72 | erasing index i keeps the elements before i and shifts those after i down by one |
| Trees.SizeOfAllRemoveAt | engine/animation.cc:69-73 | removing a child removes exactly that child's subtree from the count of bones |
| Bones.Bone.ChildrenCount | engine/animation.cc:75-78 | the number of children |
| Bones.Bone.GetChild | engine/animation.cc:80-83 | child i, whose parent is this bone and whose subtree is the i-th subtree |
| Bones.Bone.GenerateBindPose | engine/animation.cc:85-96 | appends one inverse world transform and one weight volume per bone, in pre-order, to the two output vectors |
| Bones.BindInversesInvertWorld | engine/animation.cc:85-105 | the bind pose has one entry per bone; at every pre-order index it is the inverse of the animation pose's world transform |
| Bones.BindVolumesPreOrder | engine/animation.cc:88-92 | the bind pose has one weight volume per bone, in pre-order; each keeps its bone's falloff rate and caches its squared length |
| Bones.Bone.GenerateAnimationPose | engine/animation.cc:98-105 | appends one world transform per bone, in the same pre-order, to the output vector |
| Bones.Bone.MakeCopy | engine/animation.cc:107-118 | the copy gets the same transform and weight volume and a copy of every child subtree, in order; every copied child has the copy as its parent |
| Bones.Bone.AppendCopyOf | engine/animation.cc:109-114 | one loop step of MakeCopy: a new child whose subtree is a copy of the given one |
| Trees.PreOrderSize | engine/animation.cc:85-105 | a pre-order walk visits every node once |
| Trees.SameShapeSymmetric | projects/setup_test/animation_factory.cc:331-341 | two trees with the same shape, read the other way round, still have the same shape |
| Trees.SameShapeTransitive | projects/setup_test/animation_factory.cc:331-341 | sharing a shape is transitive, so every keyframe copy of a skeleton has the skeleton's shape |
| Trees.SameShapePaths | projects/setup_test/animation_factory.cc:284-295 | a cursor path is valid in a tree exactly when it is valid in a tree of the same shape |
| Trees.ReplaceAtNodeAt | projects/setup_test/animation_factory.cc:66-69 | after a joint is rewritten in place, the cursor reaches the new joint |
| Trees.SizeReplaceAt | projects/setup_test/animation_factory.cc:80-108 | replacing a subtree changes the joint count by the difference of the subtrees' sizes |
| Trees.ReplaceDataKeepsShape | projects/setup_test/animation_factory.cc:273-281 | rewriting one joint's payload keeps the tree's shape |
| Stages.Next | projects/setup_test/animation_factory.cc:202-491 | a call is allowed exactly in the one stage its assert (or, for a builder's Complete, the single allocation it makes) allows, and then moves the stage one on, or ends the session from AnimationCompleted |
| Stages.StagesInOrder | projects/setup_test/animation_factory.h:81-88 | a session only reaches a stage after passing through every stage before it |
| Stages.SessionEndsWithCompleteObject | projects/setup_test/animation_factory.cc:480-491 | a session returns to None only through CompleteObject, called in AnimationCompleted |
| Factory.AnimationObjectFactory.constructor | projects/setup_test/animation_factory.cc:415-417 | a new factory has no session |
| Factory.State.constructor | projects/setup_test/animation_factory.cc:428-431 | a new session starts at stage None without a builder |
| Factory.AnimationObjectFactory.CurrentStage | projects/setup_test/animation_factory.cc:433-439 | None exactly when there is no session, else the session's stage |
| Factory.AnimationObjectFactory.StartBuildingSkeleton | projects/setup_test/animation_factory.cc:441-453 | needs no session; opens one at BuildingSkeleton with a fresh object and a fresh skeleton builder whose cursor is the root |
| Factory.AnimationObjectFactory.GetSkeletonBuilder | projects/setup_test/animation_factory.cc:455-459 | needs stage BuildingSkeleton; returns the session's skeleton builder |
| Factory.AnimationObjectFactory.StartAnimating | projects/setup_test/animation_factory.cc:461-472 | needs stage SkeletonCompleted; moves to Animating with a fresh animation builder over the border keyframes, its cursor at the first keyframe's root |
| Factory.AnimationObjectFactory.GetAnimationBuilder | projects/setup_test/animation_factory.cc:474-478 | needs stage Animating; returns the session's animation builder |
| Factory.AnimationObjectFactory.CompleteObject | projects/setup_test/animation_factory.cc:480-491 | needs stage AnimationCompleted; returns the session's object, which is valid (every buffer as long as its count says), and ends the session, so the stage is None |
| Factory.SkeletonBuilder.constructor | projects/setup_test/animation_factory.cc:57-61 | the skeleton is one new joint and the cursor is at it |
| Factory.SkeletonBuilder.GetJointTransform | projects/setup_test/animation_factory.cc:124-131 | the cursor joint's position and scale, with the Euler angles it keeps beside its rotation |
| Factory.SkeletonBuilder.GetJointWeightVolume | projects/setup_test/animation_factory.cc:133-136 | the cursor joint's weight volume |
| Factory.SkeletonBuilder.GetChildCount | projects/setup_test/animation_factory.cc:138-141 | the number of children of the cursor joint |
| Factory.SkeletonBuilder.HasParent | projects/setup_test/animation_factory.cc:143-146 | true exactly when the cursor is below the root |
| Factory.SkeletonBuilder.Parent | projects/setup_test/animation_factory.cc:93-95 | the parent of the cursor joint, which holds the cursor joint among its children |
| Factory.SkeletonBuilder.SetJointTransform | projects/setup_test/animation_factory.cc:63-71 | the getter returns what was set; the weight volume, the cursor and the tree's shape are kept; only the cursor joint changes |
| Factory.SkeletonBuilder.SetJointWeightVolume | projects/setup_test/animation_factory.cc:73-78 | the getter returns what was set; the transform, the cursor and the tree's shape are kept; only the cursor joint changes |
| Factory.SkeletonBuilder.AddChild | projects/setup_test/animation_factory.cc:80-88 | appends exactly one new joint to the cursor joint, placed at `startPoint + startToEnd` of its weight volume; the cursor stays; the skeleton grows by one joint |
| Factory.SkeletonBuilder.RemoveJointAndGoToParent | projects/setup_test/animation_factory.cc:90-108 | needs a parent; removes exactly the cursor joint from the parent's children, keeps the other siblings in order, and moves the cursor to the parent; the skeleton loses exactly the removed subtree |
| Factory.SkeletonBuilder.GoToChild | projects/setup_test/animation_factory.cc:110-115 | needs a child index in range; the cursor moves to that child; the tree is unchanged |
| Factory.SkeletonBuilder.GoToParent | projects/setup_test/animation_factory.cc:117-122 | needs a parent; the cursor moves to it; the tree is unchanged |
| Factory.SkeletonBuilder.GetBuildingJointNodes | projects/setup_test/animation_factory.cc:169-175 | one node per joint, in pre-order from the root, exactly one of them marked as the cursor joint |
| Factory.SkeletonBuilder.GetWorldJointWeightVolumes | projects/setup_test/animation_factory.cc:194-200 | one weight volume per joint, in pre-order from the root, each keeping its joint's falloff rate |
| Factory.SkeletonBuilder.Complete | projects/setup_test/animation_factory.cc:202-214 | needs the skeleton still being built (its buffers are allocated once); the stage becomes SkeletonCompleted and the builder stays live; the session's skeleton is built from the tree; the object gets the joint count, fresh bind-pose arrays holding what BuildSkeletonAndBindPose writes, and a fresh pose buffer of that size, and is valid; its keyframes and player are kept |
| Flatteners.BuildBuildingJointNodes | projects/setup_test/animation_factory.cc:148-167 | appends one node per joint of the subtree, in pre-order, behind the caller's nodes |
| Flatteners.BuildingNodesLength | projects/setup_test/animation_factory.cc:148-167 | one node per joint |
| Flatteners.BuildingNodesCurrent | projects/setup_test/animation_factory.cc:156 | exactly one node is marked when the cursor lies in the subtree, none otherwise |
| Flatteners.BuildWeightVolumes | projects/setup_test/animation_factory.cc:177-192 | appends one weight volume per joint of the subtree, in pre-order, behind the caller's volumes |
| Flatteners.WeightVolumesPreOrder | projects/setup_test/animation_factory.cc:177-192 | one volume per joint, in pre-order, each with its joint's falloff rate |
| Flatteners.SameShapeCovers | projects/setup_test/animation_factory.cc:331-341 | a right tree of the same shape has every child the lock-step walk indexes |
| Flatteners.BuildJointNodes | projects/setup_test/animation_factory.cc:316-342 | walks the left and right trees in lock step by child index and appends one node per joint of the left tree |
| Flatteners.JointNodesLength | projects/setup_test/animation_factory.cc:316-342 | one node per joint of the left tree |
| Flatteners.JointNodesCurrent | projects/setup_test/animation_factory.cc:327 | exactly one node is marked when the cursor lies in the left subtree, none otherwise |
| Factory.RemoveKeyframeKeepsBorders | projects/setup_test/animation_factory.cc:233-243 | removing an inner keyframe keeps the list ordered and keeps its first and last keyframes |
| Factory.ReposeKeepsOrdered | projects/setup_test/animation_factory.cc:273-281 | reposing a keyframe's skeleton without changing its shape keeps the list ordered |
| Factory.KeyframesCover | projects/setup_test/animation_factory.cc:331-341 | any two keyframes of an ordered list can be walked in lock step |
| Factory.BracketFrom | projects/setup_test/animation_factory.cc:364-381 | the first keyframe from index i on that is later than the time, or none when no such keyframe exists |
| Factory.BracketInterval | projects/setup_test/animation_factory.cc:366-369 | from the first keyframe's time on, the time lies between the bracketing keyframes and the interpolation factor lies in [0, 1) |
| Factory.Walked | projects/setup_test/animation_factory.cc:351-381 | at time 1, the last keyframe with itself; otherwise the first pair (i-1, i) with keyframe i later than the time; none when no keyframe after the first is later |
| Factory.PoseNodesPerJoint | projects/setup_test/animation_factory.cc:344-382 | one node per joint of the left keyframe walked, exactly one marked when the cursor is in that keyframe; no nodes when no pair is found |
| Factory.AnimationBuilder.constructor | projects/setup_test/animation_factory.cc:217-223 | the border keyframes of the skeleton, the cursor at the first keyframe's root |
| Factory.AnimationBuilder.RemoveKeyframeAndGoLeft | projects/setup_test/animation_factory.cc:233-243 | needs an inner keyframe; removes exactly it, decrements the index by one and moves the cursor to the left keyframe's root |
| Factory.AnimationBuilder.GetKeyframeCount | projects/setup_test/animation_factory.cc:253-256 | the number of keyframes |
| Factory.AnimationBuilder.GetKeyframeIndex | projects/setup_test/animation_factory.cc:258-261 | the cursor's keyframe, always one of the keyframes |
| Factory.AnimationBuilder.GetKeyframeTime | projects/setup_test/animation_factory.cc:263-266 | the cursor keyframe's timestamp, which lies between those of the first and the last keyframe |
| Factory.AnimationBuilder.CanKeyframeBeRemoved | projects/setup_test/animation_factory.cc:268-271 | true exactly when the cursor keyframe lies strictly between the first and the last, so a border keyframe is never removable |
| Factory.AnimationBuilder.GetJointTransform | projects/setup_test/animation_factory.cc:297-304 | the cursor joint's position and scale, with the Euler angles it keeps beside its rotation |
| Factory.AnimationBuilder.GetChildCount | projects/setup_test/animation_factory.cc:306-309 | the number of children of the cursor joint in the current keyframe |
| Factory.AnimationBuilder.HasParent | projects/setup_test/animation_factory.cc:311-314 | true exactly when the cursor is below the keyframe's root |
| Factory.AnimationBuilder.GetJointCount | projects/setup_test/animation_factory.cc:384-387 | the joint count of the session's skeleton |
| Factory.AnimationBuilder.GoToKeyframe | projects/setup_test/animation_factory.cc:245-251 | needs an index in range; the cursor moves to that keyframe's root |
| Factory.AnimationBuilder.Parent | projects/setup_test/animation_factory.cc:290-295 | the parent of the cursor joint in the current keyframe, which holds the cursor joint among its children |
| Factory.AnimationBuilder.SetJointTransform | projects/setup_test/animation_factory.cc:273-281 | the getter returns what was set; only the cursor joint of the current keyframe changes, and that keyframe keeps its shape |
| Factory.AnimationBuilder.GoToChild | projects/setup_test/animation_factory.cc:283-288 | needs a child index in range; the cursor moves to that child; the keyframes are unchanged |
| Factory.AnimationBuilder.GoToParent | projects/setup_test/animation_factory.cc:290-295 | needs a parent; the cursor moves to it; the keyframes are unchanged |
| Factory.AnimationBuilder.GetJointNodes | projects/setup_test/animation_factory.cc:344-382 | the nodes of the lock-step walk over the bracketing keyframes at that time, or none when no pair is found |
| Factory.AnimationBuilder.Complete | projects/setup_test/animation_factory.cc:405-412 | needs the animation still being authored (it is allocated once); the stage becomes AnimationCompleted and the builder stays live; the object gets a fresh keyframe array holding what BuildAnimation builds, each keyframe with a fresh transform buffer, and is valid; its joint count, bind pose, pose buffer and player are kept |
| Factory.AllocateKeyframes | projects/setup_test/animation_factory.cc:407 | a fresh keyframe array with one entry per built keyframe, each with a fresh buffer holding that keyframe's timestamp and transforms |

## Left out

- glm's arithmetic is not modelled. It covers `Transform::Matrix`, `Lerp`, matrix products, `glm::inverse`, `glm::dot`, vector add and Euler-to-quaternion, and is passed in as a `Glm` value of functions. Nothing is claimed about floating-point results.
- `BuildWeightVolumes` transforms `startToEnd` by the parent's world matrix (animation_factory.cc:187). `Bone::GenerateBindPose` uses the bone's own world matrix (animation.cc:89). Both are modelled as written, and no relation between them is claimed.
- Raw memory layout is simplified. Values are dumped as their bytes. `size_t` is 8 little-endian bytes and `bool` one byte. A loop byte other than 0 or 1 is treated as unreadable: reading it into a C++ `bool` is undefined. Struct padding is part of each value's fixed width.
- `~Bone`, `delete`, the factory's destructor and all other deallocation are left out. Dafny has no explicit freeing.
- The engine's player code is not shown. `AnimationPlayer`'s constructor, `Start` and `Update` are the `PlayerCode` parameter.
- The skeleton and animation code the factory calls is not shown either. These are the `EngineCode` parameter:
  - the empty `Skeleton`;
  - the payload of a new `BuildingJoint`;
  - `BuildingSkeleton`'s joint count;
  - the skeleton that `BuildSkeletonAndBindPose` builds, and the inverse world matrices and world weight volumes it writes into the bind pose;
  - the keyframes `BuildAnimation` writes into the object's animation;
  - `InitBorderKeyframes`.
- Factory.SkeletonBuilder.Complete: how `BuildSkeletonAndBindPose` computes the bind pose is not modelled, because its body is not shown. The contract states that the object holds, in fresh arrays, whatever it produces, and requires that this has one entry per joint and fits a size_t.
- Factory.AnimationBuilder.Complete: how `BuildAnimation` turns the building keyframes into the object's keyframes is not modelled, because its body is not shown. The contract states that the object holds, in fresh arrays, whatever it produces, and requires that every keyframe has one transform per joint.
- The engine's `Allocate` methods are not shown. Their documented rule is that a buffer is allocated only once and that re-allocating is an assertion failure. A builder's `Complete` allocates, so each `Complete` is modelled as allowed once, from its builder's own stage. `ReadAnimationObjectFromBuffer` also allocates; the model does not require its object to be unallocated, and it gives the object fresh arrays instead.
- Some `AnimationBuilder` operations are not modelled because they only call unshown engine code: `AddAndGoToKeyframe` (`AddKeyframe`), `GetAnimationPose` and `GetBindPose`. The same holds for `AnimationPlayer::IsDone`.
- `BuildingAnimation::RemoveKeyframe` is modelled as a vector erase at the index.
- `BuildingJoint::AddChild` is modelled as a push_back of a new joint, and `RemoveChild` as an erase at the index.
- Some cursor moves dereference an invalid pointer in C++ when given bad input. For those, the model instead requires valid input:
  - `GoToParent` at the root;
  - `GoToChild` with an index out of range;
  - `GoToKeyframe` with an index out of range;
  - `GetKeyframeTime` with an index out of range.
- The keyframe list of an `AnimationBuilder` is assumed strictly ordered by timestamp, with every keyframe a copy of the same skeleton. This is what `InitBorderKeyframes` and `AddKeyframe` are documented to keep. With equal neighbouring timestamps, `GetJointNodes` would divide by zero.
- Authoring timestamps (`BuildingKeyframe`) are real numbers. The serialised timestamps, duration and matrices are byte blocks.
- `Allocate` fills the arrays with default values: a zero matrix, the default weight volume and the default transform. A not-yet-allocated buffer (nullptr) is a zero-length array.
- The factory uses the `AnimationObject` of projects/setup_test/animation_object.h, whose fields match the struct in projects/setup_test/animation_factory.h.
- The factory follows animation_factory.cc. Its methods differ from the declarations in animation_factory.h: `AddChild` and `RemoveJointAndGoToParent` versus `AddAndGoToChild` and `RemoveChild`, and an `AnimationTransform` argument to `SetJointTransform`.
- In-place aliasing of joints is not modelled. The builders' joint trees are values that each operation replaces. A pointer into a tree is its path, and pointer equality is path equality.
- The loops of `AppendAnimationObjectToBuffer` and `ReadAnimationObjectFromBuffer` are each a method of their own, such as `AppendKeyframes` and `ReadKeyframesFromBuffer`. The field order and the nesting are as in the source.
- engine/shader.cc, engine/voxelizer.cc, engine/file_io.cc, engine/file_watcher.cc and the app are not part of this model. They are OpenGL, GPU and file I/O code.
