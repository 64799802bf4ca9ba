/** The runtime animation object (projects/setup_test/animation_object.h): a joint count, a bind pose,
    an animation of keyframes, the pose buffer playback writes, and the player that drives playback.

    The engine structs it aggregates (BindPose, Animation, Keyframe, AnimationPose, AnimationPlayer
    in engine/animation.h) own heap buffers through raw pointers; here each buffer is a Dafny array.
    The player's own Start and Update are not part of this model: the object delegates to them, so
    they are the fields of a `PlayerCode` value that callers pass in. */
module AnimationObjects {
  import opened Types
  import opened Layout

  /** Engine::Keyframe: a timestamp and the transform buffer Keyframe::Allocate creates. */
  datatype Keyframe = Keyframe(timestamp: Float, transformBuffer: array<Transform>)

  /** Engine::AnimationPlayer: which keyframe playback is at, the time into the animation, how long
      it lasts and whether it loops. */
  datatype AnimationPlayer = AnimationPlayer(currentKeyframeIndex: nat, currentTime: Float, duration: Float, loop: bool)

  /** The behaviour of the player's own members, which the object delegates to. */
  datatype PlayerCode = PlayerCode(
    // AnimationPlayer(): the player a new object starts with
    initial: AnimationPlayer,
    // AnimationPlayer::Start(duration, loop)
    start: (AnimationPlayer, Float, bool) -> AnimationPlayer,
    // the new player after AnimationPlayer::Update(deltaTime, object, pose)
    update: (AnimationPlayer, Float, SavedObject, seq<Mat4>) -> AnimationPlayer,
    // the deformation matrix Update leaves at a joint index of the pose
    deform: (AnimationPlayer, Float, SavedObject, seq<Mat4>, nat) -> Mat4)

  class AnimationObject {
    var jointCount: nat
    // bindPose
    var inverseWorldMatrices: array<Mat4>
    var worldWeightVolumes: array<JointWeightVolume>
    // animation
    var keyframeCount: nat
    var keyframes: array<Keyframe>
    // animationPose
    var deformationMatrices: array<Mat4>
    var player: AnimationPlayer

    /** The transform buffers of the keyframes. */
    function TransformBuffers(): set<array<Transform>>
      reads this, keyframes
    {
      set k | 0 <= k < keyframes.Length :: keyframes[k].transformBuffer
    }

    /** Every buffer holds as many entries as its count says, and the counts fit in a size_t. The
        pose buffer, which playback writes, is not the bind pose. */
    predicate Valid()
      reads this, keyframes
    {
      jointCount < SIZE_T_LIMIT && keyframeCount < SIZE_T_LIMIT &&
      inverseWorldMatrices.Length == jointCount && worldWeightVolumes.Length == jointCount &&
      deformationMatrices.Length == jointCount && deformationMatrices != inverseWorldMatrices &&
      keyframes.Length == keyframeCount &&
      forall k :: 0 <= k < keyframes.Length ==> keyframes[k].transformBuffer.Length == jointCount
    }

    /** What is saved of the first n keyframes. */
    function SavedKeyframes(n: nat): (ks: seq<SavedKeyframe>)
      requires n <= keyframes.Length
      reads this, keyframes, TransformBuffers()
      ensures |ks| == n
      ensures forall k :: 0 <= k < n ==>
        ks[k] == SavedKeyframe(keyframes[k].timestamp, keyframes[k].transformBuffer[..])
    {
      if n == 0 then []
      else
        var kf := keyframes[n - 1];
        SavedKeyframes(n - 1) + [SavedKeyframe(kf.timestamp, kf.transformBuffer[..])]
    }

    /** The part of the object that AppendAnimationObjectToBuffer saves. */
    function Saved(): (s: SavedObject)
      requires Valid()
      reads this, inverseWorldMatrices, worldWeightVolumes, keyframes, TransformBuffers()
      ensures WellFormed(s)
      ensures HeaderOf(s) == HeaderFields(jointCount, keyframeCount, player.duration, player.loop)
    {
      SavedObject(jointCount, keyframeCount, player.duration, player.loop,
        inverseWorldMatrices[..], worldWeightVolumes[..], SavedKeyframes(keyframes.Length))
    }

    /** What is saved depends only on the counts, the player, and the contents of the buffers. */
    twostate lemma SavedUnchanged()
      requires old(Valid()) && unchanged(this)
      requires unchanged(inverseWorldMatrices, worldWeightVolumes, keyframes)
      requires forall k :: 0 <= k < keyframes.Length ==> unchanged(keyframes[k].transformBuffer)
      ensures Valid() && Saved() == old(Saved())
    {
      forall k | 0 <= k < keyframes.Length
        ensures SavedKeyframes(keyframes.Length)[k] == old(SavedKeyframes(keyframes.Length))[k]
      {
        assert keyframes[k].transformBuffer[..] == old(keyframes[k].transformBuffer[..]);
      }
    }

    /** AnimationObject(): no joints; the engine structs start with nothing allocated, which the
        model shows as zero-length buffers. */
    constructor(code: PlayerCode)
      ensures Valid()
      ensures jointCount == 0 && keyframeCount == 0 && player == code.initial
      ensures fresh(inverseWorldMatrices) && fresh(worldWeightVolumes) && fresh(keyframes) && fresh(deformationMatrices)
    {
      jointCount := 0;
      inverseWorldMatrices := new Mat4[0];
      worldWeightVolumes := new JointWeightVolume[0];
      keyframeCount := 0;
      keyframes := new Keyframe[0];
      deformationMatrices := new Mat4[0];
      player := code.initial;
    }

    /** Start hands the duration and the loop flag to the player and touches nothing else. */
    method Start(code: PlayerCode, duration: Float, loop: bool)
      modifies this
      ensures player == code.start(old(player), duration, loop)
      ensures jointCount == old(jointCount) && keyframeCount == old(keyframeCount)
      ensures inverseWorldMatrices == old(inverseWorldMatrices) && worldWeightVolumes == old(worldWeightVolumes)
      ensures keyframes == old(keyframes) && deformationMatrices == old(deformationMatrices)
    {
      player := code.start(player, duration, loop);
    }

    /** Restart rewinds the player to the first keyframe at time zero; its duration and loop flag,
        and so everything the object saves, are kept. */
    method Restart()
      modifies this
      ensures player == old(player).(currentKeyframeIndex := 0, currentTime := FLOAT_ZERO)
      ensures jointCount == old(jointCount) && keyframeCount == old(keyframeCount)
      ensures inverseWorldMatrices == old(inverseWorldMatrices) && worldWeightVolumes == old(worldWeightVolumes)
      ensures keyframes == old(keyframes) && deformationMatrices == old(deformationMatrices)
      ensures old(Valid()) ==> Valid() && Saved() == old(Saved())
    {
      player := player.(currentKeyframeIndex := 0, currentTime := FLOAT_ZERO);
    }

    /** Update lets the player advance with the object's own joint count, bind pose and animation;
        the player and the pose buffer's contents are all that change. */
    method Update(code: PlayerCode, deltaTime: Float)
      requires Valid()
      modifies this, deformationMatrices
      ensures Valid()
      ensures player == code.update(old(player), deltaTime, old(Saved()), old(deformationMatrices[..]))
      ensures forall i :: 0 <= i < deformationMatrices.Length ==>
        deformationMatrices[i] == code.deform(old(player), deltaTime, old(Saved()), old(deformationMatrices[..]), i)
      ensures jointCount == old(jointCount) && keyframeCount == old(keyframeCount)
      ensures inverseWorldMatrices == old(inverseWorldMatrices) && worldWeightVolumes == old(worldWeightVolumes)
      ensures keyframes == old(keyframes) && deformationMatrices == old(deformationMatrices)
      ensures Saved().(duration := old(player).duration, loop := old(player).loop) == old(Saved())
    {
      var saved := Saved();
      var pose := deformationMatrices[..];
      var p := player;
      forall i | 0 <= i < deformationMatrices.Length {
        deformationMatrices[i] := code.deform(p, deltaTime, saved, pose, i);
      }
      player := code.update(p, deltaTime, saved, pose);
      forall k | 0 <= k < keyframes.Length
        ensures SavedKeyframes(keyframes.Length)[k] == saved.keyframes[k]
      {
        assert keyframes[k].transformBuffer[..] == old(keyframes[k].transformBuffer[..]);
      }
    }
  }
}
