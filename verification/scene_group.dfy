/** A group of equally named scenes recalled together, with the fan-in counter
    that reports once every scene has answered. */
module SceneGroups {
  import opened Bridge
  import FanIn
  import opened Wrappers

  datatype SceneGroup = SceneGroup(scenes: seq<Scene>)

  /** `getName`: the first scene's name, or "" for an empty group. */
  function Name(g: SceneGroup): string
  {
    if |g.scenes| > 0 then g.scenes[0].name else ""
  }

  /** `recallScenes`: one recall per scene, each answered by a bridge reply. */
  function RecallScenes(g: SceneGroup): FanIn.Latch<Scene, Reply>
  {
    FanIn.Start(g.scenes)
  }

  /** When every scene answers exactly once, in any order, the recall callback runs
      once, after the last answer, with result i pairing scenes[i] with its own reply;
      an empty group never reports. */
  lemma {:induction false} RecallCompletes(g: SceneGroup, rs: seq<FanIn.Response<Reply>>)
    requires FanIn.InRange(rs, |g.scenes|) && FanIn.DistinctIndices(rs) && |rs| == |g.scenes|
    ensures |g.scenes| == 0 ==> FanIn.Run(RecallScenes(g), rs).fired == []
    ensures |g.scenes| > 0 ==>
      var fired := FanIn.Run(RecallScenes(g), rs).fired;
      && |fired| == 1
      && |fired[0]| == |g.scenes|
      && forall k :: 0 <= k < |rs| ==>
           fired[0][rs[k].index] == Some(FanIn.Slot(g.scenes[rs[k].index], rs[k].reply))
  {
    if |g.scenes| == 0 {
      FanIn.NoItemsNeverFires(g.scenes, rs);
    } else {
      FanIn.CompletesExactlyOnce(g.scenes, rs);
    }
  }
}
