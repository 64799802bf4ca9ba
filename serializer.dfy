/** The binary serialiser of animation objects (projects/setup_test/animation_serializer.h and .cc).

    The buffer, a std::string passed by reference, is a byte sequence that each method takes and
    returns; the read cursor `inoutBufferIndex` is likewise taken and returned. AppendData<T> and
    ReadData<T> copy the sizeof(T) bytes of a value's memory image; the callers here hand them that
    image (the `...Bytes` functions of module Layout) and interpret what they return (the `...Of`
    functions). */
module Serializer {
  import opened Types
  import opened Layout
  import opened AnimationObjects

  /** AppendData<T>: the bytes of `data`, in memory order, go after the bytes already in the buffer. */
  method AppendData(data: Bytes, buffer: Bytes) returns (buffer': Bytes)
    ensures buffer' == buffer + data
  {
    buffer' := buffer;
    for i := 0 to |data|
      invariant buffer' == buffer + data[..i]
    {
      buffer' := buffer' + [data[i]];
      assert data[..i + 1] == data[..i] + [data[i]];
    }
    assert data[..|data|] == data;
  }

  /** ReadData<T>: copies `size` bytes out of the buffer at the cursor and advances the cursor past
      them. The source does no bounds check, so the caller must leave enough bytes. */
  method ReadData(buffer: Bytes, index: nat, size: nat) returns (data: Bytes, index': nat)
    requires index + size <= |buffer|
    ensures data == buffer[index..index + size] && index' == index + size
  {
    data := [];
    index' := index;
    for i := 0 to size
      invariant data == buffer[index..index + i] && index' == index + i
    {
      data := data + [buffer[index']];
      index' := index' + 1;
      assert buffer[index..index + i + 1] == buffer[index..index + i] + [buffer[index + i]];
    }
  }

  /** One pass of the keyframe loop of AppendAnimationObjectToBuffer: the timestamp, then the
      first jointCount transforms of the keyframe's buffer. */
  method AppendKeyframe(keyframe: Keyframe, jointCount: nat, buffer: Bytes) returns (buffer': Bytes)
    requires keyframe.transformBuffer.Length == jointCount
    ensures buffer' == buffer + KeyframeBytes(SavedKeyframe(keyframe.timestamp, keyframe.transformBuffer[..]))
  {
    ghost var transforms := TransformsBytes(keyframe.transformBuffer[..]);
    buffer' := AppendData(keyframe.timestamp, buffer);
    ghost var timestamp := buffer';
    for j := 0 to jointCount
      invariant buffer' == timestamp + Concat(transforms[..j])
    {
      buffer' := AppendData(TransformBytes(keyframe.transformBuffer[j]), buffer');
      ConcatSnoc(transforms, j);
      AppendAssoc(timestamp, Concat(transforms[..j]), transforms[j]);
    }
    assert transforms[..jointCount] == transforms;
    AppendAssoc(buffer, keyframe.timestamp, Concat(transforms));
  }

  /** The first loop of AppendAnimationObjectToBuffer: the bind pose's inverse world matrices. */
  method AppendInverseWorldMatrices(matrices: array<Mat4>, buffer: Bytes) returns (buffer': Bytes)
    ensures buffer' == buffer + Concat(matrices[..])
  {
    ghost var blocks := matrices[..];
    buffer' := buffer;
    for i := 0 to matrices.Length
      invariant buffer' == buffer + Concat(blocks[..i])
    {
      buffer' := AppendData(matrices[i], buffer');
      ConcatSnoc(blocks, i);
      AppendAssoc(buffer, Concat(blocks[..i]), blocks[i]);
    }
    assert blocks[..matrices.Length] == blocks;
  }

  /** The second loop of AppendAnimationObjectToBuffer: the bind pose's weight volumes. */
  method AppendWorldWeightVolumes(volumes: array<JointWeightVolume>, buffer: Bytes) returns (buffer': Bytes)
    ensures buffer' == buffer + Concat(WeightVolumesBytes(volumes[..]))
  {
    ghost var blocks := WeightVolumesBytes(volumes[..]);
    buffer' := buffer;
    for i := 0 to volumes.Length
      invariant buffer' == buffer + Concat(blocks[..i])
    {
      buffer' := AppendData(WeightVolumeBytes(volumes[i]), buffer');
      ConcatSnoc(blocks, i);
      AppendAssoc(buffer, Concat(blocks[..i]), blocks[i]);
    }
    assert blocks[..volumes.Length] == blocks;
  }

  /** The third loop of AppendAnimationObjectToBuffer: every keyframe, `ks` being what is saved of
      them. */
  method AppendKeyframes(keyframes: array<Keyframe>, jointCount: nat, ghost ks: seq<SavedKeyframe>, buffer: Bytes)
    returns (buffer': Bytes)
    requires |ks| == keyframes.Length
    requires forall k :: 0 <= k < keyframes.Length ==>
      keyframes[k].transformBuffer.Length == jointCount &&
      SavedKeyframe(keyframes[k].timestamp, keyframes[k].transformBuffer[..]) == ks[k]
    ensures buffer' == buffer + KeyframesBytes(ks)
  {
    buffer' := buffer;
    for i := 0 to keyframes.Length
      invariant buffer' == buffer + KeyframesBytes(ks[..i])
    {
      buffer' := AppendKeyframe(keyframes[i], jointCount, buffer');
      KeyframesBytesSnoc(ks, i);
      AppendAssoc(buffer, KeyframesBytes(ks[..i]), KeyframeBytes(ks[i]));
    }
    assert ks[..keyframes.Length] == ks;
  }

  /** AppendAnimationObjectToBuffer appends the object's saved layout after the bytes already in the
      buffer. */
  method AppendAnimationObjectToBuffer(obj: AnimationObject, buffer: Bytes) returns (buffer': Bytes)
    requires obj.Valid()
    ensures buffer' == buffer + Encode(obj.Saved())
  {
    ghost var s := obj.Saved();
    buffer' := AppendData(SizeTBytes(obj.jointCount), buffer);
    buffer' := AppendData(SizeTBytes(obj.keyframeCount), buffer');
    buffer' := AppendData(obj.player.duration, buffer');
    buffer' := AppendData([BoolByte(obj.player.loop)], buffer');
    assert buffer' == buffer + HeaderBytes(HeaderOf(s));
    buffer' := AppendInverseWorldMatrices(obj.inverseWorldMatrices, buffer');
    buffer' := AppendWorldWeightVolumes(obj.worldWeightVolumes, buffer');
    buffer' := AppendKeyframes(obj.keyframes, obj.jointCount, s.keyframes, buffer');
    AppendedParts(buffer, s);
    obj.SavedUnchanged();
  }

  /** One pass of the keyframe loop of ReadAnimationObjectFromBuffer: Keyframe::Allocate, then the
      timestamp, then jointCount transforms into the new buffer. */
  method ReadKeyframeFromBuffer(buffer: Bytes, index: nat, jointCount: nat) returns (keyframe: Keyframe, index': nat)
    requires index <= |buffer| && ReadKeyframe(buffer[index..], jointCount).Some?
    ensures fresh(keyframe.transformBuffer) && keyframe.transformBuffer.Length == jointCount
    ensures SavedKeyframe(keyframe.timestamp, keyframe.transformBuffer[..]) == ReadKeyframe(buffer[index..], jointCount).value.0
    ensures index <= index' <= |buffer| && buffer[index'..] == ReadKeyframe(buffer[index..], jointCount).value.1
  {
    ghost var (k, rest) := ReadKeyframe(buffer[index..], jointCount).value;
    ReadKeyframeStep(buffer, index, jointCount, k, rest);
    var transformBuffer := new Transform[jointCount](_ => DEFAULT_TRANSFORM);
    var timestamp;
    timestamp, index' := ReadData(buffer, index, FLOAT_SIZE);
    ghost var blocks := ReadBlocks(buffer[index'..], jointCount, TRANSFORM_SIZE).value.0;
    for j := 0 to jointCount
      invariant index <= index' <= |buffer|
      invariant ReadBlocks(buffer[index'..], jointCount - j, TRANSFORM_SIZE) == Some((blocks[j..], rest))
      invariant forall j' :: 0 <= j' < j ==> transformBuffer[j'] == TransformOf(blocks[j'])
    {
      ReadBlocksStep(buffer, index', jointCount, TRANSFORM_SIZE, blocks, j, rest);
      var data;
      data, index' := ReadData(buffer, index', TRANSFORM_SIZE);
      transformBuffer[j] := TransformOf(data);
    }
    keyframe := Keyframe(timestamp, transformBuffer);
    assert ReadBlocks(buffer[index'..], 0, TRANSFORM_SIZE).value.1 == buffer[index'..];
    assert transformBuffer[..] == TransformsOf(blocks);
  }

  /** The loop of ReadAnimationObjectFromBuffer that fills the bind pose's inverse world matrices. */
  method ReadInverseWorldMatrices(buffer: Bytes, index: nat, matrices: array<Mat4>) returns (index': nat)
    requires index <= |buffer| && ReadBlocks(buffer[index..], matrices.Length, MAT4_SIZE).Some?
    modifies matrices
    ensures matrices[..] == ReadBlocks(buffer[index..], matrices.Length, MAT4_SIZE).value.0
    ensures index <= index' <= |buffer| && buffer[index'..] == ReadBlocks(buffer[index..], matrices.Length, MAT4_SIZE).value.1
  {
    ghost var (blocks, rest) := ReadBlocks(buffer[index..], matrices.Length, MAT4_SIZE).value;
    index' := index;
    for i := 0 to matrices.Length
      invariant index <= index' <= |buffer|
      invariant ReadBlocks(buffer[index'..], matrices.Length - i, MAT4_SIZE) == Some((blocks[i..], rest))
      invariant forall i' :: 0 <= i' < i ==> matrices[i'] == blocks[i']
    {
      ReadBlocksStep(buffer, index', matrices.Length, MAT4_SIZE, blocks, i, rest);
      var data;
      data, index' := ReadData(buffer, index', MAT4_SIZE);
      matrices[i] := data;
    }
    assert ReadBlocks(buffer[index'..], 0, MAT4_SIZE).value.1 == buffer[index'..];
    assert matrices[..] == blocks;
  }

  /** The loop of ReadAnimationObjectFromBuffer that fills the bind pose's world weight volumes. */
  method ReadWorldWeightVolumes(buffer: Bytes, index: nat, volumes: array<JointWeightVolume>) returns (index': nat)
    requires index <= |buffer| && ReadBlocks(buffer[index..], volumes.Length, WEIGHT_VOLUME_SIZE).Some?
    modifies volumes
    ensures volumes[..] == WeightVolumesOf(ReadBlocks(buffer[index..], volumes.Length, WEIGHT_VOLUME_SIZE).value.0)
    ensures index <= index' <= |buffer|
    ensures buffer[index'..] == ReadBlocks(buffer[index..], volumes.Length, WEIGHT_VOLUME_SIZE).value.1
  {
    ghost var (blocks, rest) := ReadBlocks(buffer[index..], volumes.Length, WEIGHT_VOLUME_SIZE).value;
    index' := index;
    for i := 0 to volumes.Length
      invariant index <= index' <= |buffer|
      invariant ReadBlocks(buffer[index'..], volumes.Length - i, WEIGHT_VOLUME_SIZE) == Some((blocks[i..], rest))
      invariant forall i' :: 0 <= i' < i ==> volumes[i'] == WeightVolumeOf(blocks[i'])
    {
      ReadBlocksStep(buffer, index', volumes.Length, WEIGHT_VOLUME_SIZE, blocks, i, rest);
      var data;
      data, index' := ReadData(buffer, index', WEIGHT_VOLUME_SIZE);
      volumes[i] := WeightVolumeOf(data);
    }
    assert ReadBlocks(buffer[index'..], 0, WEIGHT_VOLUME_SIZE).value.1 == buffer[index'..];
    assert volumes[..] == WeightVolumesOf(blocks);
  }

  /** The loop of ReadAnimationObjectFromBuffer that fills the animation's keyframes, each with a
      new transform buffer. */
  method ReadKeyframesFromBuffer(buffer: Bytes, index: nat, jointCount: nat, keyframes: array<Keyframe>) returns (index': nat)
    requires index <= |buffer| && ReadKeyframes(buffer[index..], keyframes.Length, jointCount).Some?
    modifies keyframes
    ensures forall k :: 0 <= k < keyframes.Length ==>
      fresh(keyframes[k].transformBuffer) && keyframes[k].transformBuffer.Length == jointCount &&
      SavedKeyframe(keyframes[k].timestamp, keyframes[k].transformBuffer[..])
        == ReadKeyframes(buffer[index..], keyframes.Length, jointCount).value.0[k]
    ensures index <= index' <= |buffer|
    ensures buffer[index'..] == ReadKeyframes(buffer[index..], keyframes.Length, jointCount).value.1
  {
    ghost var (ks, rest) := ReadKeyframes(buffer[index..], keyframes.Length, jointCount).value;
    index' := index;
    for i := 0 to keyframes.Length
      invariant index <= index' <= |buffer|
      invariant ReadKeyframes(buffer[index'..], keyframes.Length - i, jointCount) == Some((ks[i..], rest))
      invariant forall i' :: 0 <= i' < i ==>
        fresh(keyframes[i'].transformBuffer) && keyframes[i'].transformBuffer.Length == jointCount &&
        SavedKeyframe(keyframes[i'].timestamp, keyframes[i'].transformBuffer[..]) == ks[i']
    {
      ReadKeyframesStepAt(buffer, index', keyframes.Length, jointCount, ks, i, rest);
      var keyframe;
      keyframe, index' := ReadKeyframeFromBuffer(buffer, index', jointCount);
      keyframes[i] := keyframe;
    }
    assert ReadKeyframes(buffer[index'..], 0, jointCount).value.1 == buffer[index'..];
  }

  /** The four header reads of ReadAnimationObjectFromBuffer: jointCount, keyframeCount, duration
      and loop. */
  method ReadHeaderFields(buffer: Bytes, index: nat) returns (jointCount: nat, keyframeCount: nat, duration: Float, loop: bool, index': nat)
    requires index <= |buffer| && ReadHeader(buffer[index..]).Some?
    ensures ReadHeader(buffer[index..]).value.0 == HeaderFields(jointCount, keyframeCount, duration, loop)
    ensures index' == index + HEADER_SIZE <= |buffer| && buffer[index'..] == ReadHeader(buffer[index..]).value.1
  {
    HeaderAt(buffer, index);
    var data;
    data, index' := ReadData(buffer, index, SIZE_T_SIZE);
    jointCount := FromLittleEndian(data);
    data, index' := ReadData(buffer, index', SIZE_T_SIZE);
    keyframeCount := FromLittleEndian(data);
    data, index' := ReadData(buffer, index', FLOAT_SIZE);
    duration := data;
    data, index' := ReadData(buffer, index', BOOL_SIZE);
    loop := data[0] == 1;
  }

  /** Animation::Allocate, BindPose::Allocate and AnimationPose::Allocate as
      ReadAnimationObjectFromBuffer calls them: new buffers of the sizes the header gives. A keyframe's
      own transform buffer is allocated later, when the keyframe is read. */
  method AllocateBuffers(jointCount: nat, keyframeCount: nat)
    returns (inverseWorldMatrices: array<Mat4>, worldWeightVolumes: array<JointWeightVolume>,
             keyframes: array<Keyframe>, deformationMatrices: array<Mat4>)
    ensures fresh(inverseWorldMatrices) && fresh(worldWeightVolumes) && fresh(keyframes) && fresh(deformationMatrices)
    ensures inverseWorldMatrices.Length == jointCount && worldWeightVolumes.Length == jointCount
    ensures deformationMatrices.Length == jointCount && keyframes.Length == keyframeCount
    ensures deformationMatrices != inverseWorldMatrices
  {
    var unallocated := new Transform[0];
    keyframes := new Keyframe[keyframeCount](_ => Keyframe(FLOAT_ZERO, unallocated));
    inverseWorldMatrices := new Mat4[jointCount](_ => MAT4_ZERO);
    worldWeightVolumes := new JointWeightVolume[jointCount](_ => DEFAULT_WEIGHT_VOLUME);
    deformationMatrices := new Mat4[jointCount](_ => MAT4_ZERO);
  }

  /** The stores of ReadAnimationObjectFromBuffer into the object: the two counts, the player's
      duration and loop flag, and the buffers it allocated and filled. */
  method Install(obj: AnimationObject, header: HeaderFields,
                 inverseWorldMatrices: array<Mat4>, worldWeightVolumes: array<JointWeightVolume>,
                 keyframes: array<Keyframe>, deformationMatrices: array<Mat4>, ghost ks: seq<SavedKeyframe>)
    requires header.jointCount < SIZE_T_LIMIT && header.keyframeCount < SIZE_T_LIMIT
    requires inverseWorldMatrices.Length == header.jointCount && worldWeightVolumes.Length == header.jointCount
    requires deformationMatrices.Length == header.jointCount && deformationMatrices != inverseWorldMatrices
    requires keyframes.Length == header.keyframeCount == |ks|
    requires forall k :: 0 <= k < keyframes.Length ==>
      keyframes[k].transformBuffer.Length == header.jointCount &&
      SavedKeyframe(keyframes[k].timestamp, keyframes[k].transformBuffer[..]) == ks[k]
    modifies obj
    ensures obj.Valid()
    ensures obj.Saved() == SavedObject(header.jointCount, header.keyframeCount, header.duration, header.loop,
      inverseWorldMatrices[..], worldWeightVolumes[..], ks)
    ensures obj.player == old(obj.player).(duration := header.duration, loop := header.loop)
    ensures obj.inverseWorldMatrices == inverseWorldMatrices && obj.worldWeightVolumes == worldWeightVolumes
    ensures obj.keyframes == keyframes && obj.deformationMatrices == deformationMatrices
  {
    obj.jointCount, obj.keyframeCount := header.jointCount, header.keyframeCount;
    obj.player := obj.player.(duration := header.duration, loop := header.loop);
    obj.inverseWorldMatrices, obj.worldWeightVolumes := inverseWorldMatrices, worldWeightVolumes;
    obj.keyframes, obj.deformationMatrices := keyframes, deformationMatrices;
    assert obj.SavedKeyframes(keyframes.Length) == ks;
  }

  /** ReadAnimationObjectFromBuffer reads the four header fields, allocates the object's buffers to
      the sizes they give, fills them, and leaves the cursor after the object. It requires what the
      source takes for granted: an object's layout at the cursor. Only the player's duration and loop
      flag are read; its keyframe index and time are kept. */
  method ReadAnimationObjectFromBuffer(buffer: Bytes, index: nat, outObject: AnimationObject) returns (index': nat)
    requires index <= |buffer| && DecodeObject(buffer[index..]).Some?
    modifies outObject
    ensures outObject.Valid()
    ensures outObject.Saved() == DecodeObject(buffer[index..]).value.0
    ensures index <= index' <= |buffer| && buffer[index'..] == DecodeObject(buffer[index..]).value.1
    ensures buffer[index..index'] == Encode(outObject.Saved())
    ensures outObject.player.currentKeyframeIndex == old(outObject.player.currentKeyframeIndex)
    ensures outObject.player.currentTime == old(outObject.player.currentTime)
    ensures fresh(outObject.inverseWorldMatrices) && fresh(outObject.worldWeightVolumes)
    ensures fresh(outObject.keyframes) && fresh(outObject.deformationMatrices)
    ensures forall k :: 0 <= k < outObject.keyframes.Length ==> fresh(outObject.keyframes[k].transformBuffer)
  {
    ghost var (s, rest) := DecodeObject(buffer[index..]).value;
    ghost var (h, body) := ReadHeader(buffer[index..]).value;
    ghost var (matrices, input1) := ReadBlocks(body, h.jointCount, MAT4_SIZE).value;
    ghost var (volumes, input2) := ReadBlocks(input1, h.jointCount, WEIGHT_VOLUME_SIZE).value;
    ghost var ks := ReadKeyframes(input2, h.keyframeCount, h.jointCount).value.0;
    EncodeDecode(buffer[index..]);

    var jointCount, keyframeCount, duration, loop;
    jointCount, keyframeCount, duration, loop, index' := ReadHeaderFields(buffer, index);
    var inverseWorldMatrices, worldWeightVolumes, keyframes, deformationMatrices := AllocateBuffers(jointCount, keyframeCount);
    index' := ReadInverseWorldMatrices(buffer, index', inverseWorldMatrices);
    index' := ReadWorldWeightVolumes(buffer, index', worldWeightVolumes);
    index' := ReadKeyframesFromBuffer(buffer, index', jointCount, keyframes);
    Consumed(buffer, index, index', Encode(s), rest);
    Install(outObject, HeaderFields(jointCount, keyframeCount, duration, loop), inverseWorldMatrices, worldWeightVolumes, keyframes, deformationMatrices, ks);
  }
}
