/** The binary layout in which an animation object is dumped to a buffer and read back
    (projects/setup_test/animation_serializer.cc): every field is copied as the raw bytes it occupies
    in memory, one field after the other, with nothing in between. */
module Layout {
  import opened Types

  /** One more than the largest size_t (64-bit targets). */
  const SIZE_T_LIMIT: nat := 0x1_0000_0000_0000_0000

  // ---------------------------------------------------------------------------------------------
  // size_t: eight bytes, least significant first

  function Pow256(n: nat): (p: nat)
    ensures p > 0
  {
    if n == 0 then 1 else 256 * Pow256(n - 1)
  }

  /** The `width` low-order bytes of n, least significant first. */
  function LittleEndian(n: nat, width: nat): (b: Bytes)
    ensures |b| == width
  {
    if width == 0 then [] else [(n % 256) as byte] + LittleEndian(n / 256, width - 1)
  }

  /** The number whose little-endian bytes are `b`. */
  function FromLittleEndian(b: Bytes): (n: nat)
    ensures n < Pow256(|b|)
  {
    if b == [] then 0 else b[0] as int + 256 * FromLittleEndian(b[1..])
  }

  /** Reading back the bytes of a number that fits recovers the number. */
  lemma {:induction false} FromLittleEndianInverse(n: nat, width: nat)
    requires n < Pow256(width)
    ensures FromLittleEndian(LittleEndian(n, width)) == n
  {
    if width > 0 {
      var b := LittleEndian(n, width);
      assert b[1..] == LittleEndian(n / 256, width - 1);
      FromLittleEndianInverse(n / 256, width - 1);
    }
  }

  /** Every byte string is the little-endian form of the number it denotes. */
  lemma {:induction false} LittleEndianInverse(b: Bytes)
    ensures LittleEndian(FromLittleEndian(b), |b|) == b
  {
    if b != [] {
      var n := FromLittleEndian(b);
      var r := FromLittleEndian(b[1..]);
      assert n == b[0] as int + 256 * r;
      assert n % 256 == b[0] as int && n / 256 == r;
      LittleEndianInverse(b[1..]);
    }
  }

  lemma SizeTWidth()
    ensures Pow256(SIZE_T_SIZE) == SIZE_T_LIMIT
  {
    assert Pow256(0) == 1;
    assert Pow256(4) == 0x1_0000_0000;
  }

  function SizeTBytes(n: nat): (b: Bytes)
  {
    LittleEndian(n, SIZE_T_SIZE)
  }

  /** Any eight bytes are the bytes of the size_t they denote. */
  lemma SizeTBytesRead(b: Bytes)
    requires |b| == SIZE_T_SIZE
    ensures FromLittleEndian(b) < SIZE_T_LIMIT && SizeTBytes(FromLittleEndian(b)) == b
  {
    SizeTWidth();
    LittleEndianInverse(b);
  }

  /** A bool is one byte, 1 for true and 0 for false. */
  function BoolByte(x: bool): byte
  {
    if x then 1 else 0
  }

  // ---------------------------------------------------------------------------------------------
  // Fixed-width blocks copied byte for byte

  /** The bytes of `blocks`, one after the other: what a loop of AppendData calls appends. */
  function Concat(blocks: seq<Bytes>): Bytes
  {
    if blocks == [] then [] else blocks[0] + Concat(blocks[1..])
  }

  predicate AllWidth(blocks: seq<Bytes>, width: nat)
  {
    forall i :: 0 <= i < |blocks| ==> |blocks[i]| == width
  }

  /** What a loop of n ReadData calls of `width` bytes each reads from the front of `input`, and
      the input left after it; None when the input ends first. */
  function ReadBlocks(input: Bytes, n: nat, width: nat): (r: Option<(seq<Bytes>, Bytes)>)
    ensures r.Some? ==> |r.value.0| == n && AllWidth(r.value.0, width)
  {
    if n == 0 then Some(([], input))
    else if |input| < width then None
    else match ReadBlocks(input[width..], n - 1, width)
      case None => None
      case Some((blocks, rest)) => Some(([input[..width]] + blocks, rest))
  }

  lemma {:induction false} ConcatAppend(a: seq<Bytes>, b: seq<Bytes>)
    ensures Concat(a + b) == Concat(a) + Concat(b)
  {
    if a != [] {
      assert (a + b)[1..] == a[1..] + b;
      ConcatAppend(a[1..], b);
      AppendAssoc(a[0], Concat(a[1..]), Concat(b));
    } else {
      assert a + b == b;
    }
  }

  lemma MulSucc(n: nat, x: nat)
    ensures (n + 1) * x == n * x + x
  {
  }

  /** n blocks of `width` bytes make n * width bytes. */
  lemma {:induction false} ConcatLength(blocks: seq<Bytes>, width: nat)
    requires AllWidth(blocks, width)
    ensures |Concat(blocks)| == |blocks| * width
  {
    if blocks != [] {
      ConcatLength(blocks[1..], width);
      MulSucc(|blocks| - 1, width);
    }
  }

  /** Reading n blocks where n blocks were written gives them back and leaves what follows them. */
  lemma {:induction false} ReadBlocksConcat(blocks: seq<Bytes>, rest: Bytes, width: nat)
    requires AllWidth(blocks, width)
    ensures ReadBlocks(Concat(blocks) + rest, |blocks|, width) == Some((blocks, rest))
  {
    if blocks != [] {
      var input := Concat(blocks) + rest;
      AppendAssoc(blocks[0], Concat(blocks[1..]), rest);
      assert input[..width] == blocks[0] && input[width..] == Concat(blocks[1..]) + rest;
      ReadBlocksConcat(blocks[1..], rest, width);
      assert [blocks[0]] + blocks[1..] == blocks;
    } else {
      assert Concat(blocks) + rest == rest;
    }
  }

  /** Conversely, a successful read consumed exactly the bytes of the blocks it returned. */
  lemma {:induction false} ConcatReadBlocks(input: Bytes, n: nat, width: nat)
    requires ReadBlocks(input, n, width).Some?
    ensures input == Concat(ReadBlocks(input, n, width).value.0) + ReadBlocks(input, n, width).value.1
  {
    if n > 0 {
      ConcatReadBlocks(input[width..], n - 1, width);
      var (blocks, rest) := ReadBlocks(input[width..], n - 1, width).value;
      var blocks' := [input[..width]] + blocks;
      assert blocks'[0] == input[..width] && blocks'[1..] == blocks;
      AppendAssoc(input[..width], Concat(blocks), rest);
      assert input == input[..width] + input[width..];
    }
  }

  // ---------------------------------------------------------------------------------------------
  // The structured values dumped as blocks

  /** Engine::JointWeightVolume in memory: startPoint, startToEnd, falloffRate. */
  function WeightVolumeBytes(w: JointWeightVolume): (b: Bytes)
    ensures |b| == WEIGHT_VOLUME_SIZE
  {
    w.startPoint + w.startToEnd + w.falloffRate
  }

  function WeightVolumeOf(b: Bytes): JointWeightVolume
    requires |b| == WEIGHT_VOLUME_SIZE
  {
    JointWeightVolume(b[..12], b[12..24], b[24..28])
  }

  lemma WeightVolumeRoundTrip(w: JointWeightVolume)
    ensures WeightVolumeOf(WeightVolumeBytes(w)) == w
  {
  }

  lemma WeightVolumeBytesOf(b: Bytes)
    requires |b| == WEIGHT_VOLUME_SIZE
    ensures WeightVolumeBytes(WeightVolumeOf(b)) == b
  {
    assert b == b[..12] + b[12..24] + b[24..28];
  }

  /** Engine::Transform in memory: position, rotation, scale. */
  function TransformBytes(t: Transform): (b: Bytes)
    ensures |b| == TRANSFORM_SIZE
  {
    t.position + t.rotation + t.scale
  }

  function TransformOf(b: Bytes): Transform
    requires |b| == TRANSFORM_SIZE
  {
    Transform(b[..12], b[12..28], b[28..32])
  }

  lemma TransformRoundTrip(t: Transform)
    ensures TransformOf(TransformBytes(t)) == t
  {
  }

  lemma TransformBytesOf(b: Bytes)
    requires |b| == TRANSFORM_SIZE
    ensures TransformBytes(TransformOf(b)) == b
  {
    assert b == b[..12] + b[12..28] + b[28..32];
  }

  function WeightVolumesBytes(ws: seq<JointWeightVolume>): (blocks: seq<Bytes>)
    ensures |blocks| == |ws| && forall i :: 0 <= i < |ws| ==> blocks[i] == WeightVolumeBytes(ws[i])
  {
    seq(|ws|, i requires 0 <= i < |ws| => WeightVolumeBytes(ws[i]))
  }

  function WeightVolumesOf(blocks: seq<Bytes>): (ws: seq<JointWeightVolume>)
    requires AllWidth(blocks, WEIGHT_VOLUME_SIZE)
    ensures |ws| == |blocks| && forall i :: 0 <= i < |ws| ==> ws[i] == WeightVolumeOf(blocks[i])
  {
    seq(|blocks|, i requires 0 <= i < |blocks| => WeightVolumeOf(blocks[i]))
  }

  function TransformsBytes(ts: seq<Transform>): (blocks: seq<Bytes>)
    ensures |blocks| == |ts| && forall i :: 0 <= i < |ts| ==> blocks[i] == TransformBytes(ts[i])
  {
    seq(|ts|, i requires 0 <= i < |ts| => TransformBytes(ts[i]))
  }

  function TransformsOf(blocks: seq<Bytes>): (ts: seq<Transform>)
    requires AllWidth(blocks, TRANSFORM_SIZE)
    ensures |ts| == |blocks| && forall i :: 0 <= i < |ts| ==> ts[i] == TransformOf(blocks[i])
  {
    seq(|blocks|, i requires 0 <= i < |blocks| => TransformOf(blocks[i]))
  }

  lemma WeightVolumesRoundTrip(ws: seq<JointWeightVolume>)
    ensures WeightVolumesOf(WeightVolumesBytes(ws)) == ws
  {
    forall i | 0 <= i < |ws| ensures WeightVolumesOf(WeightVolumesBytes(ws))[i] == ws[i] {
      WeightVolumeRoundTrip(ws[i]);
    }
  }

  lemma WeightVolumesBytesOf(blocks: seq<Bytes>)
    requires AllWidth(blocks, WEIGHT_VOLUME_SIZE)
    ensures WeightVolumesBytes(WeightVolumesOf(blocks)) == blocks
  {
    forall i | 0 <= i < |blocks| ensures WeightVolumesBytes(WeightVolumesOf(blocks))[i] == blocks[i] {
      WeightVolumeBytesOf(blocks[i]);
    }
  }

  lemma TransformsRoundTrip(ts: seq<Transform>)
    ensures TransformsOf(TransformsBytes(ts)) == ts
  {
    forall i | 0 <= i < |ts| ensures TransformsOf(TransformsBytes(ts))[i] == ts[i] {
      TransformRoundTrip(ts[i]);
    }
  }

  lemma TransformsBytesOf(blocks: seq<Bytes>)
    requires AllWidth(blocks, TRANSFORM_SIZE)
    ensures TransformsBytes(TransformsOf(blocks)) == blocks
  {
    forall i | 0 <= i < |blocks| ensures TransformsBytes(TransformsOf(blocks))[i] == blocks[i] {
      TransformBytesOf(blocks[i]);
    }
  }

  // ---------------------------------------------------------------------------------------------
  // The saved object

  /** What is saved of one Engine::Keyframe: its timestamp and its transforms. */
  datatype SavedKeyframe = SavedKeyframe(timestamp: Float, transforms: seq<Transform>)

  /** What AppendAnimationObjectToBuffer saves of an animation object, in the order it saves it. */
  datatype SavedObject = SavedObject(
    jointCount: nat,
    keyframeCount: nat,
    duration: Float,
    loop: bool,
    inverseWorldMatrices: seq<Mat4>,
    worldWeightVolumes: seq<JointWeightVolume>,
    keyframes: seq<SavedKeyframe>)

  /** Every keyframe holds `jointCount` transforms. */
  predicate KeyframesSized(ks: seq<SavedKeyframe>, jointCount: nat)
  {
    forall k :: 0 <= k < |ks| ==> |ks[k].transforms| == jointCount
  }

  /** The counts fit in a size_t and every array holds as many entries as its count says. */
  predicate WellFormed(s: SavedObject)
  {
    s.jointCount < SIZE_T_LIMIT && s.keyframeCount < SIZE_T_LIMIT &&
    |s.inverseWorldMatrices| == s.jointCount && |s.worldWeightVolumes| == s.jointCount &&
    |s.keyframes| == s.keyframeCount && KeyframesSized(s.keyframes, s.jointCount)
  }

  /** The four header fields: jointCount, keyframeCount, duration and loop. */
  datatype HeaderFields = HeaderFields(jointCount: nat, keyframeCount: nat, duration: Float, loop: bool)

  function HeaderOf(s: SavedObject): HeaderFields
  {
    HeaderFields(s.jointCount, s.keyframeCount, s.duration, s.loop)
  }

  function HeaderBytes(h: HeaderFields): Bytes
  {
    SizeTBytes(h.jointCount) + SizeTBytes(h.keyframeCount) + h.duration + [BoolByte(h.loop)]
  }

  /** The width of the header. */
  const HEADER_SIZE: nat := SIZE_T_SIZE + SIZE_T_SIZE + FLOAT_SIZE + BOOL_SIZE

  /** A keyframe's timestamp, then its transforms. */
  function KeyframeBytes(k: SavedKeyframe): Bytes
  {
    k.timestamp + Concat(TransformsBytes(k.transforms))
  }

  function KeyframesBytes(ks: seq<SavedKeyframe>): Bytes
  {
    if ks == [] then [] else KeyframeBytes(ks[0]) + KeyframesBytes(ks[1..])
  }

  /** What follows the header: the inverse matrices, the weight volumes, the keyframes. */
  function BodyBytes(s: SavedObject): Bytes
  {
    Concat(s.inverseWorldMatrices) + Concat(WeightVolumesBytes(s.worldWeightVolumes)) + KeyframesBytes(s.keyframes)
  }

  /** Every byte AppendAnimationObjectToBuffer appends for `s`. */
  function Encode(s: SavedObject): Bytes
  {
    HeaderBytes(HeaderOf(s)) + BodyBytes(s)
  }

  /** The four ReadData calls of the header; None when the input ends first or when the loop byte
      is neither 0 nor 1 (any other byte read into a bool is undefined behaviour). */
  function ReadHeader(input: Bytes): Option<(HeaderFields, Bytes)>
  {
    if |input| < HEADER_SIZE || input[20] > 1 then None
    else Some((HeaderFields(
      FromLittleEndian(input[..8]),
      FromLittleEndian(input[8..16]),
      input[16..20],
      input[20] == 1), input[HEADER_SIZE..]))
  }

  /** What one pass of the keyframe loop reads: a timestamp and `jointCount` transforms. */
  function ReadKeyframe(input: Bytes, jointCount: nat): (r: Option<(SavedKeyframe, Bytes)>)
    ensures r.Some? ==> |r.value.0.transforms| == jointCount
  {
    if |input| < FLOAT_SIZE then None
    else match ReadBlocks(input[FLOAT_SIZE..], jointCount, TRANSFORM_SIZE)
      case None => None
      case Some((blocks, rest)) => Some((SavedKeyframe(input[..FLOAT_SIZE], TransformsOf(blocks)), rest))
  }

  /** What the keyframe loop reads for n keyframes; None when the input ends first. */
  function ReadKeyframes(input: Bytes, n: nat, jointCount: nat): (r: Option<(seq<SavedKeyframe>, Bytes)>)
    ensures r.Some? ==> |r.value.0| == n && KeyframesSized(r.value.0, jointCount)
    decreases n
  {
    if n == 0 then Some(([], input))
    else match ReadKeyframe(input, jointCount)
      case None => None
      case Some((k, input')) =>
        match ReadKeyframes(input', n - 1, jointCount)
          case None => None
          case Some((ks, rest)) => Some(([k] + ks, rest))
  }

  /** The loops that follow the header, sized by the header's counts. */
  function ReadBody(input: Bytes, h: HeaderFields): Option<(SavedObject, Bytes)>
  {
    match ReadBlocks(input, h.jointCount, MAT4_SIZE)
      case None => None
      case Some((matrices, input1)) =>
        match ReadBlocks(input1, h.jointCount, WEIGHT_VOLUME_SIZE)
          case None => None
          case Some((volumes, input2)) =>
            match ReadKeyframes(input2, h.keyframeCount, h.jointCount)
              case None => None
              case Some((keyframes, rest)) =>
                Some((SavedObject(h.jointCount, h.keyframeCount, h.duration, h.loop, matrices,
                  WeightVolumesOf(volumes), keyframes), rest))
  }

  /** What ReadAnimationObjectFromBuffer reads from the front of `input`, and the input left after
      it; None when the input does not start with an object. */
  function DecodeObject(input: Bytes): Option<(SavedObject, Bytes)>
  {
    match ReadHeader(input)
      case None => None
      case Some((h, body)) => ReadBody(body, h)
  }

  // ---------------------------------------------------------------------------------------------
  // Properties of the layout

  /** Reading a keyframe where one was written gives it back and leaves what follows it. */
  lemma ReadKeyframeBytes(k: SavedKeyframe, rest: Bytes, jointCount: nat)
    requires |k.transforms| == jointCount
    ensures ReadKeyframe(KeyframeBytes(k) + rest, jointCount) == Some((k, rest))
  {
    var blocks := TransformsBytes(k.transforms);
    var input := KeyframeBytes(k) + rest;
    AppendAssoc(k.timestamp, Concat(blocks), rest);
    assert input[..FLOAT_SIZE] == k.timestamp && input[FLOAT_SIZE..] == Concat(blocks) + rest;
    ReadBlocksConcat(blocks, rest, TRANSFORM_SIZE);
    TransformsRoundTrip(k.transforms);
  }

  /** Conversely, a keyframe read consumed exactly the bytes of the keyframe it returned. */
  lemma KeyframeBytesRead(input: Bytes, jointCount: nat)
    requires ReadKeyframe(input, jointCount).Some?
    ensures input == KeyframeBytes(ReadKeyframe(input, jointCount).value.0) + ReadKeyframe(input, jointCount).value.1
  {
    var (blocks, rest) := ReadBlocks(input[FLOAT_SIZE..], jointCount, TRANSFORM_SIZE).value;
    ConcatReadBlocks(input[FLOAT_SIZE..], jointCount, TRANSFORM_SIZE);
    TransformsBytesOf(blocks);
    AppendAssoc(input[..FLOAT_SIZE], Concat(blocks), rest);
    assert input == input[..FLOAT_SIZE] + input[FLOAT_SIZE..];
  }

  lemma {:induction false} ReadKeyframesBytes(ks: seq<SavedKeyframe>, rest: Bytes, jointCount: nat)
    requires KeyframesSized(ks, jointCount)
    ensures ReadKeyframes(KeyframesBytes(ks) + rest, |ks|, jointCount) == Some((ks, rest))
  {
    if ks != [] {
      AppendAssoc(KeyframeBytes(ks[0]), KeyframesBytes(ks[1..]), rest);
      ReadKeyframeBytes(ks[0], KeyframesBytes(ks[1..]) + rest, jointCount);
      ReadKeyframesBytes(ks[1..], rest, jointCount);
      assert [ks[0]] + ks[1..] == ks;
    } else {
      assert KeyframesBytes(ks) + rest == rest;
    }
  }

  lemma {:induction false} KeyframesBytesRead(input: Bytes, n: nat, jointCount: nat)
    requires ReadKeyframes(input, n, jointCount).Some?
    ensures input == KeyframesBytes(ReadKeyframes(input, n, jointCount).value.0) + ReadKeyframes(input, n, jointCount).value.1
    decreases n
  {
    if n > 0 {
      var (k, input') := ReadKeyframe(input, jointCount).value;
      KeyframeBytesRead(input, jointCount);
      KeyframesBytesRead(input', n - 1, jointCount);
      var (ks, rest) := ReadKeyframes(input', n - 1, jointCount).value;
      var ks' := [k] + ks;
      assert ks'[0] == k && ks'[1..] == ks;
      AppendAssoc(KeyframeBytes(k), KeyframesBytes(ks), rest);
    } else {
      assert input == [] + input;
    }
  }

  /** Reading a header where one was written gives it back, provided its counts fit in a size_t. */
  lemma ReadHeaderBytes(h: HeaderFields, rest: Bytes)
    requires h.jointCount < SIZE_T_LIMIT && h.keyframeCount < SIZE_T_LIMIT
    ensures ReadHeader(HeaderBytes(h) + rest) == Some((h, rest))
  {
    var input := HeaderBytes(h) + rest;
    assert input[..8] == SizeTBytes(h.jointCount);
    assert input[8..16] == SizeTBytes(h.keyframeCount);
    assert input[16..20] == h.duration;
    assert input[20] == BoolByte(h.loop);
    assert input[HEADER_SIZE..] == rest;
    SizeTWidth();
    FromLittleEndianInverse(h.jointCount, SIZE_T_SIZE);
    FromLittleEndianInverse(h.keyframeCount, SIZE_T_SIZE);
  }

  /** Conversely, a header read has counts that fit in a size_t and consumed exactly its bytes. */
  lemma HeaderBytesRead(input: Bytes)
    requires ReadHeader(input).Some?
    ensures ReadHeader(input).value.0.jointCount < SIZE_T_LIMIT
    ensures ReadHeader(input).value.0.keyframeCount < SIZE_T_LIMIT
    ensures input == HeaderBytes(ReadHeader(input).value.0) + ReadHeader(input).value.1
  {
    var h := ReadHeader(input).value.0;
    SizeTBytesRead(input[..8]);
    SizeTBytesRead(input[8..16]);
    assert HeaderBytes(h) == input[..8] + input[8..16] + input[16..20] + [input[20]];
    assert input == input[..HEADER_SIZE] + input[HEADER_SIZE..];
  }

  lemma ReadBodyBytes(s: SavedObject, rest: Bytes)
    requires WellFormed(s)
    ensures ReadBody(BodyBytes(s) + rest, HeaderOf(s)) == Some((s, rest))
  {
    var m, w, k := Concat(s.inverseWorldMatrices), Concat(WeightVolumesBytes(s.worldWeightVolumes)), KeyframesBytes(s.keyframes);
    AppendAssoc(m + w, k, rest);
    AppendAssoc(m, w, k + rest);
    ReadBlocksConcat(s.inverseWorldMatrices, w + (k + rest), MAT4_SIZE);
    ReadBlocksConcat(WeightVolumesBytes(s.worldWeightVolumes), k + rest, WEIGHT_VOLUME_SIZE);
    WeightVolumesRoundTrip(s.worldWeightVolumes);
    ReadKeyframesBytes(s.keyframes, rest, s.jointCount);
  }

  lemma BodyBytesRead(input: Bytes, h: HeaderFields)
    requires ReadBody(input, h).Some?
    ensures HeaderOf(ReadBody(input, h).value.0) == h
    ensures input == BodyBytes(ReadBody(input, h).value.0) + ReadBody(input, h).value.1
  {
    var (matrices, input1) := ReadBlocks(input, h.jointCount, MAT4_SIZE).value;
    var (volumes, input2) := ReadBlocks(input1, h.jointCount, WEIGHT_VOLUME_SIZE).value;
    var (keyframes, rest) := ReadKeyframes(input2, h.keyframeCount, h.jointCount).value;
    ConcatReadBlocks(input, h.jointCount, MAT4_SIZE);
    ConcatReadBlocks(input1, h.jointCount, WEIGHT_VOLUME_SIZE);
    WeightVolumesBytesOf(volumes);
    KeyframesBytesRead(input2, h.keyframeCount, h.jointCount);
    var m, w, k := Concat(matrices), Concat(volumes), KeyframesBytes(keyframes);
    AppendAssoc(m + w, k, rest);
    AppendAssoc(m, w, k + rest);
  }

  /** Round trip: reading where an object was appended gives the object back and leaves what
      follows it. */
  lemma DecodeEncode(s: SavedObject, rest: Bytes)
    requires WellFormed(s)
    ensures DecodeObject(Encode(s) + rest) == Some((s, rest))
  {
    AppendAssoc(HeaderBytes(HeaderOf(s)), BodyBytes(s), rest);
    ReadHeaderBytes(HeaderOf(s), BodyBytes(s) + rest);
    ReadBodyBytes(s, rest);
  }

  /** Conversely, whatever a successful read returns is well formed, and the bytes it consumed are
      exactly the layout of what it returned. */
  lemma EncodeDecode(input: Bytes)
    requires DecodeObject(input).Some?
    ensures WellFormed(DecodeObject(input).value.0)
    ensures input == Encode(DecodeObject(input).value.0) + DecodeObject(input).value.1
  {
    var (h, body) := ReadHeader(input).value;
    HeaderBytesRead(input);
    BodyBytesRead(body, h);
    var (s, rest) := ReadBody(body, h).value;
    AppendAssoc(HeaderBytes(h), BodyBytes(s), rest);
  }

  lemma {:induction false} KeyframesLength(ks: seq<SavedKeyframe>, jointCount: nat)
    requires KeyframesSized(ks, jointCount)
    ensures |KeyframesBytes(ks)| == |ks| * (FLOAT_SIZE + jointCount * TRANSFORM_SIZE)
  {
    if ks != [] {
      var n := |ks| - 1;
      var width := FLOAT_SIZE + jointCount * TRANSFORM_SIZE;
      KeyframesLength(ks[1..], jointCount);
      ConcatLength(TransformsBytes(ks[0].transforms), TRANSFORM_SIZE);
      assert |KeyframeBytes(ks[0])| == width;
      assert |KeyframesBytes(ks)| == n * width + width;
      MulSucc(n, width);
    }
  }

  /** The appended length is 2 sizeof(size_t) + sizeof(float) + sizeof(bool)
      + J (sizeof(mat4) + sizeof(JointWeightVolume)) + K (sizeof(float) + J sizeof(Transform)). */
  lemma EncodeLength(s: SavedObject)
    requires WellFormed(s)
    ensures |Encode(s)| == 2 * SIZE_T_SIZE + FLOAT_SIZE + BOOL_SIZE
      + s.jointCount * (MAT4_SIZE + WEIGHT_VOLUME_SIZE) + s.keyframeCount * (FLOAT_SIZE + s.jointCount * TRANSFORM_SIZE)
  {
    ConcatLength(s.inverseWorldMatrices, MAT4_SIZE);
    ConcatLength(WeightVolumesBytes(s.worldWeightVolumes), WEIGHT_VOLUME_SIZE);
    KeyframesLength(s.keyframes, s.jointCount);
    assert |HeaderBytes(HeaderOf(s))| == HEADER_SIZE;
  }

  /** Two objects appended back to back are read back in order, the second read starting where
      the first one stopped. */
  lemma BackToBack(a: SavedObject, b: SavedObject, rest: Bytes)
    requires WellFormed(a) && WellFormed(b)
    ensures DecodeObject(Encode(a) + Encode(b) + rest) == Some((a, Encode(b) + rest))
    ensures DecodeObject(Encode(b) + rest) == Some((b, rest))
  {
    AppendAssoc(Encode(a), Encode(b), rest);
    DecodeEncode(a, Encode(b) + rest);
    DecodeEncode(b, rest);
  }
  // ---------------------------------------------------------------------------------------------
  // One step of the loops that append or read through a cursor

  /** Appending one more block to the blocks appended so far. */
  lemma ConcatSnoc(blocks: seq<Bytes>, i: nat)
    requires i < |blocks|
    ensures Concat(blocks[..i + 1]) == Concat(blocks[..i]) + blocks[i]
  {
    assert blocks[..i + 1] == blocks[..i] + [blocks[i]];
    ConcatAppend(blocks[..i], [blocks[i]]);
    assert Concat([blocks[i]]) == blocks[i] + Concat([]);
  }

  lemma {:induction false} KeyframesBytesAppend(a: seq<SavedKeyframe>, b: seq<SavedKeyframe>)
    ensures KeyframesBytes(a + b) == KeyframesBytes(a) + KeyframesBytes(b)
  {
    if a != [] {
      assert (a + b)[1..] == a[1..] + b;
      KeyframesBytesAppend(a[1..], b);
      AppendAssoc(KeyframeBytes(a[0]), KeyframesBytes(a[1..]), KeyframesBytes(b));
    } else {
      assert a + b == b;
    }
  }

  /** Appending one more keyframe to the keyframes appended so far. */
  lemma KeyframesBytesSnoc(ks: seq<SavedKeyframe>, i: nat)
    requires i < |ks|
    ensures KeyframesBytes(ks[..i + 1]) == KeyframesBytes(ks[..i]) + KeyframeBytes(ks[i])
  {
    assert ks[..i + 1] == ks[..i] + [ks[i]];
    KeyframesBytesAppend(ks[..i], [ks[i]]);
    assert KeyframesBytes([ks[i]]) == KeyframeBytes(ks[i]) + KeyframesBytes([]);
  }

  /** A block loop that reads at cursor i, having read j of the n blocks it returns: its next block
      is the `width` bytes at i, and the rest of the loop reads from i + width. */
  lemma ReadBlocksStep(buffer: Bytes, i: nat, n: nat, width: nat, blocks: seq<Bytes>, j: nat, rest: Bytes)
    requires i <= |buffer| && j < n == |blocks| && ReadBlocks(buffer[i..], n - j, width) == Some((blocks[j..], rest))
    ensures i + width <= |buffer| && j < |blocks| && blocks[j] == buffer[i..i + width]
    ensures ReadBlocks(buffer[i + width..], n - (j + 1), width) == Some((blocks[j + 1..], rest))
  {
    assert buffer[i..][width..] == buffer[i + width..];
    assert buffer[i..][..width] == buffer[i..i + width];
    assert blocks[j..][1..] == blocks[j + 1..];
  }

  /** A keyframe read at cursor i: its timestamp is the float at i and its transforms are the blocks
      read from i + sizeof(float). */
  lemma ReadKeyframeStep(buffer: Bytes, i: nat, jointCount: nat, k: SavedKeyframe, rest: Bytes)
    requires i <= |buffer| && ReadKeyframe(buffer[i..], jointCount) == Some((k, rest))
    ensures i + FLOAT_SIZE <= |buffer| && k.timestamp == buffer[i..i + FLOAT_SIZE]
    ensures ReadBlocks(buffer[i + FLOAT_SIZE..], jointCount, TRANSFORM_SIZE).Some?
    ensures TransformsOf(ReadBlocks(buffer[i + FLOAT_SIZE..], jointCount, TRANSFORM_SIZE).value.0) == k.transforms
    ensures ReadBlocks(buffer[i + FLOAT_SIZE..], jointCount, TRANSFORM_SIZE).value.1 == rest
  {
    assert buffer[i..][FLOAT_SIZE..] == buffer[i + FLOAT_SIZE..];
    assert buffer[i..][..FLOAT_SIZE] == buffer[i..i + FLOAT_SIZE];
  }

  /** A keyframe loop: its next keyframe is the one read at the cursor, and the rest of the loop
      reads from where that keyframe ends. */
  lemma ReadKeyframesStep(input: Bytes, n: nat, jointCount: nat, ks: seq<SavedKeyframe>, rest: Bytes)
    requires n > 0 && ReadKeyframes(input, n, jointCount) == Some((ks, rest))
    ensures ReadKeyframe(input, jointCount).Some? && ReadKeyframe(input, jointCount).value.0 == ks[0]
    ensures ReadKeyframes(ReadKeyframe(input, jointCount).value.1, n - 1, jointCount) == Some((ks[1..], rest))
  {
  }
  /** The layout after a buffer's old bytes, in the order the appending loops produce it. */
  lemma AppendedParts(buffer: Bytes, s: SavedObject)
    ensures buffer + Encode(s) == buffer + HeaderBytes(HeaderOf(s)) + Concat(s.inverseWorldMatrices)
      + Concat(WeightVolumesBytes(s.worldWeightVolumes)) + KeyframesBytes(s.keyframes)
  {
    var h, m, w, k := HeaderBytes(HeaderOf(s)), Concat(s.inverseWorldMatrices),
      Concat(WeightVolumesBytes(s.worldWeightVolumes)), KeyframesBytes(s.keyframes);
    AppendAssoc(buffer, h, m + w + k);
    AppendAssoc(buffer + h, m + w, k);
    AppendAssoc(buffer + h, m, w);
  }

  /** A keyframe loop that reads at cursor i, having read j of the n keyframes it returns: its next
      keyframe is the one read at i. */
  lemma ReadKeyframesStepAt(buffer: Bytes, i: nat, n: nat, jointCount: nat, ks: seq<SavedKeyframe>, j: nat, rest: Bytes)
    requires i <= |buffer| && j < n == |ks| && ReadKeyframes(buffer[i..], n - j, jointCount) == Some((ks[j..], rest))
    ensures ReadKeyframe(buffer[i..], jointCount).Some? && ReadKeyframe(buffer[i..], jointCount).value.0 == ks[j]
    ensures ReadKeyframes(ReadKeyframe(buffer[i..], jointCount).value.1, n - (j + 1), jointCount) == Some((ks[j + 1..], rest))
  {
    assert ks[j..][1..] == ks[j + 1..];
  }

  /** The header read at cursor i: the four fields are the bytes at i, i + 8, i + 16 and i + 20. */
  lemma HeaderAt(buffer: Bytes, i: nat)
    requires i <= |buffer| && ReadHeader(buffer[i..]).Some?
    ensures i + HEADER_SIZE <= |buffer|
    ensures ReadHeader(buffer[i..]).value.0 == HeaderFields(
      FromLittleEndian(buffer[i..i + 8]), FromLittleEndian(buffer[i + 8..i + 16]),
      buffer[i + 16..i + 20], buffer[i + 20..i + 21][0] == 1)
    ensures ReadHeader(buffer[i..]).value.1 == buffer[i + HEADER_SIZE..]
  {
    assert buffer[i..][..8] == buffer[i..i + 8];
    assert buffer[i..][8..16] == buffer[i + 8..i + 16];
    assert buffer[i..][16..20] == buffer[i + 16..i + 20];
    assert buffer[i..][HEADER_SIZE..] == buffer[i + HEADER_SIZE..];
  }

  /** What a read consumed between two cursors is the part of the input before what it left. */
  lemma Consumed(buffer: Bytes, i: nat, j: nat, consumed: Bytes, rest: Bytes)
    requires i <= j <= |buffer| && buffer[i..] == consumed + rest && buffer[j..] == rest
    ensures buffer[i..j] == consumed
  {
    assert buffer[i..] == buffer[i..j] + buffer[j..];
  }
}
