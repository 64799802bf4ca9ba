/** Values shared by every part of the animation core.

    The numeric content of glm vectors, quaternions and matrices is not modelled: each such value is an
    opaque block of bytes of the width it has in memory, and the glm operations the core calls are the
    fields of a `Glm` value of total functions that the callers pass in. */
module Types {

  newtype byte = x: int | 0 <= x < 256

  type Bytes = seq<byte>

  datatype Option<T> = None | Some(value: T)

  // Widths, in bytes, of the types the binary layout dumps.
  const SIZE_T_SIZE: nat := 8
  const FLOAT_SIZE: nat := 4
  const BOOL_SIZE: nat := 1
  const VEC3_SIZE: nat := 12
  const QUAT_SIZE: nat := 16
  const MAT4_SIZE: nat := 64
  /** Engine::Transform: vec3 position, quat rotation, float scale. */
  const TRANSFORM_SIZE: nat := VEC3_SIZE + QUAT_SIZE + FLOAT_SIZE
  /** Engine::JointWeightVolume: vec3 startPoint, vec3 startToEnd, float falloffRate. */
  const WEIGHT_VOLUME_SIZE: nat := VEC3_SIZE + VEC3_SIZE + FLOAT_SIZE

  lemma AppendAssoc<T>(a: seq<T>, b: seq<T>, c: seq<T>)
    ensures (a + b) + c == a + (b + c)
  {
  }

  function Zeros(n: nat): (z: Bytes)
    ensures |z| == n
  {
    seq(n, _ => 0)
  }

  type Float = b: Bytes | |b| == FLOAT_SIZE witness Zeros(FLOAT_SIZE)
  type Vec3 = b: Bytes | |b| == VEC3_SIZE witness Zeros(VEC3_SIZE)
  type Quat = b: Bytes | |b| == QUAT_SIZE witness Zeros(QUAT_SIZE)
  type Mat4 = b: Bytes | |b| == MAT4_SIZE witness Zeros(MAT4_SIZE)

  /** 0.0f: IEEE 754 single precision, native (little-endian) byte order. */
  const FLOAT_ZERO: Float := [0, 0, 0, 0]
  /** 1.0f = 0x3F800000. */
  const FLOAT_ONE: Float := [0x00, 0x00, 0x80, 0x3F]
  /** 10.0f = 0x41200000. */
  const FLOAT_TEN: Float := [0x00, 0x00, 0x20, 0x41]
  const VEC3_ZERO: Vec3 := FLOAT_ZERO + FLOAT_ZERO + FLOAT_ZERO
  const VEC3_ONE: Vec3 := FLOAT_ONE + FLOAT_ONE + FLOAT_ONE
  const VEC3_UP: Vec3 := FLOAT_ZERO + FLOAT_ONE + FLOAT_ZERO
  /** The identity quaternion in glm's (x, y, z, w) storage order. */
  const QUAT_IDENTITY: Quat := FLOAT_ZERO + FLOAT_ZERO + FLOAT_ZERO + FLOAT_ONE
  const MAT4_ZERO: Mat4 := Zeros(MAT4_SIZE)

  /** Engine::Transform (engine/transform.h): the transform of the flattened skeleton and of keyframes. */
  datatype Transform = Transform(position: Vec3, rotation: Quat, scale: Float)

  /** Transform() in engine/transform.cc: zero position, identity rotation, unit scale. */
  const DEFAULT_TRANSFORM: Transform := Transform(VEC3_ZERO, QUAT_IDENTITY, FLOAT_ONE)

  /** Engine::JointWeightVolume: a capsule given by a start point, a start-to-end vector and a falloff rate. */
  datatype JointWeightVolume = JointWeightVolume(startPoint: Vec3, startToEnd: Vec3, falloffRate: Float)

  /** The documented default weight volume: start 0, start-to-end (0,1,0), falloff 10. */
  const DEFAULT_WEIGHT_VOLUME: JointWeightVolume := JointWeightVolume(VEC3_ZERO, VEC3_UP, FLOAT_TEN)

  /** The revision of Transform used by Bone (engine/animation.cc): vec3 position, Euler angles, vec3 scale. */
  datatype BoneTransform = BoneTransform(position: Vec3, eulerAngles: Vec3, scale: Vec3)

  /** BoneWeightVolume (engine/animation.cc), with its cached squared length. */
  datatype BoneWeightVolume = BoneWeightVolume(startPoint: Vec3, startToEnd: Vec3, lengthSquared: Float, falloffRate: Float)

  /** The glm and quaternion arithmetic the core calls, as uninterpreted total functions. */
  datatype Glm = Glm(
    identity: Mat4,                                // glm::mat4(1.f)
    mul: (Mat4, Mat4) -> Mat4,                     // matrix product
    inverse: Mat4 -> Mat4,                         // glm::inverse
    matrix: Transform -> Mat4,                     // Transform::Matrix (engine/transform.cc)
    boneMatrix: BoneTransform -> Mat4,             // Transform::Matrix (engine/animation.cc)
    lerp: (Transform, Transform, real) -> Transform, // Lerp (engine/transform.cc)
    translation: Mat4 -> Vec3,                     // glm::vec3(m[3])
    transformPoint: (Mat4, Vec3) -> Vec3,          // glm::vec3(m * glm::vec4(p, 1))
    transformVector: (Mat4, Vec3) -> Vec3,         // glm::vec3(m * glm::vec4(v, 0))
    add: (Vec3, Vec3) -> Vec3,                     // vector sum
    dot: (Vec3, Vec3) -> Float,                    // glm::dot
    quatFromEuler: Vec3 -> Quat                    // glm::quat(eulerAngles)
  )
}
