/** The five stages of an AnimationObjectFactory session (projects/setup_test/animation_factory.h) and
    the calls that move between them, as a pure transition table. The factory's methods and the two
    builders' Complete are proved to move the stage exactly as this table says. */
module Stages {
  import opened Types

  /** AnimationObjectFactory::State::Stage; `None` is also what CurrentStage reports without a session. */
  datatype Stage = None | BuildingSkeleton | SkeletonCompleted | Animating | AnimationCompleted

  /** The calls that change the stage. */
  datatype Call =
    | StartBuildingSkeletonCall   // AnimationObjectFactory::StartBuildingSkeleton
    | CompleteSkeletonCall        // SkeletonBuilder::Complete
    | StartAnimatingCall          // AnimationObjectFactory::StartAnimating
    | CompleteAnimationCall       // AnimationBuilder::Complete
    | CompleteObjectCall          // AnimationObjectFactory::CompleteObject

  /** Position of a stage in a session. */
  function Rank(s: Stage): nat
  {
    match s
      case None => 0
      case BuildingSkeleton => 1
      case SkeletonCompleted => 2
      case Animating => 3
      case AnimationCompleted => 4
  }

  /** The stage after call `c` in stage `s`, or nothing when the call is not allowed there. The three
      factory calls are guarded by their asserts. A builder's Complete does not check the stage
      itself, but it allocates the object's buffers (the pose buffer, the animation), and an
      engine buffer may be allocated only once; so each Complete is allowed once, from the stage its
      builder works in. */
  function Next(s: Stage, c: Call): (r: Option<Stage>)
    ensures r.Some? ==> Rank(r.value) == Rank(s) + 1 || (s == AnimationCompleted && r.value == Stage.None)
    ensures r.Some? <==>
      ((c == StartBuildingSkeletonCall && s == Stage.None) ||
       (c == CompleteSkeletonCall && s == BuildingSkeleton) ||
       (c == StartAnimatingCall && s == SkeletonCompleted) ||
       (c == CompleteAnimationCall && s == Animating) ||
       (c == CompleteObjectCall && s == AnimationCompleted))
  {
    match c
      case StartBuildingSkeletonCall =>
        if s == Stage.None then Some(BuildingSkeleton) else Option.None
      case CompleteSkeletonCall =>
        if s == BuildingSkeleton then Some(SkeletonCompleted) else Option.None
      case StartAnimatingCall =>
        if s == SkeletonCompleted then Some(Animating) else Option.None
      case CompleteAnimationCall =>
        if s == Animating then Some(AnimationCompleted) else Option.None
      case CompleteObjectCall =>
        if s == AnimationCompleted then Some(Stage.None) else Option.None
  }

  /** The stage after a sequence of calls, or nothing when one of them is not allowed. */
  function Run(s: Stage, calls: seq<Call>): Option<Stage>
  {
    if calls == [] then Some(s)
    else match Run(s, calls[..|calls| - 1])
      case None => Option.None
      case Some(u) => Next(u, calls[|calls| - 1])
  }

  /** A session only reaches a stage after passing through every stage before it: whatever calls
      lead from no session to stage `t`, each stage `r` between BuildingSkeleton and `t` is the
      stage after some prefix of them. */
  lemma {:induction false} StagesInOrder(calls: seq<Call>, r: Stage)
    requires Run(Stage.None, calls).Some?
    requires 0 < Rank(r) <= Rank(Run(Stage.None, calls).value)
    ensures exists k :: 0 <= k <= |calls| && Run(Stage.None, calls[..k]) == Some(r)
  {
    var n := |calls|;
    if n > 0 {
      var u := Run(Stage.None, calls[..n - 1]).value;
      var t := Run(Stage.None, calls).value;
      assert calls[..n] == calls;
      if r != t {
        StagesInOrder(calls[..n - 1], r);
        var k :| 0 <= k <= n - 1 && Run(Stage.None, calls[..n - 1][..k]) == Some(r);
        assert calls[..n - 1][..k] == calls[..k];
      }
    }
  }

  /** A session ends only through CompleteObject: a run from no session that is back at no session
      after at least one call made its last call CompleteObject, from AnimationCompleted. */
  lemma {:induction false} SessionEndsWithCompleteObject(calls: seq<Call>)
    requires calls != [] && Run(Stage.None, calls) == Some(Stage.None)
    ensures calls[|calls| - 1] == CompleteObjectCall
    ensures Run(Stage.None, calls[..|calls| - 1]) == Some(AnimationCompleted)
  {
  }
}
