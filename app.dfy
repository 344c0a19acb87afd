/** The state of App.tsx and its handlers: analysing the script into
    scenes, resetting, the sequential batch that generates every scene not
    yet completed, and regenerating one scene. The remote call is the
    `generateSceneImage` model, fed with the replies the client gets, in
    call order. */
module Storyboard {
  import opened Types
  import opened Segmenter
  import opened Scenes
  import opened GeminiService

  /** `!character.name && !character.description && !character.imageBase64`:
      the case in which the user is asked to confirm. */
  predicate CharacterIsEmpty(c: CharacterProfile)
  {
    c.name == "" && c.description == "" && !Truthy(c.imageBase64)
  }

  /** The batch gets past its two guards: there is a key, and the character
      is set up or the user confirmed going on without one. */
  predicate Proceeds(apiKey: string, character: CharacterProfile, confirmed: bool)
  {
    apiKey != "" && (!CharacterIsEmpty(character) || confirmed)
  }

  /** Every scene an analysis builds holds one sentence of the script, of
      the shape the segmenter guarantees. */
  lemma AnalyzedSceneShape(script: string, stamps: seq<nat>)
    requires |stamps| == |SplitScriptToSentences(script)|
    ensures forall s :: s in NewScenes(SplitScriptToSentences(script), stamps) ==>
              SentenceShape(s.originalText) && s.status == Pending
  {
    var sentences := SplitScriptToSentences(script);
    var scenes := NewScenes(sentences, stamps);
    SentencesHaveShape(script);
    forall s | s in scenes ensures SentenceShape(s.originalText) && s.status == Pending {
      var i :| 0 <= i < |scenes| && scenes[i] == s;
      assert sentences[i] in sentences;
    }
  }

  /** How many of the first `i` scenes the batch sends to the generator:
      those not completed. */
  function PendingBefore(snapshot: seq<Scene>, i: nat): (n: nat)
    requires i <= |snapshot|
    ensures n <= i
  {
    if i == 0 then 0
    else PendingBefore(snapshot, i - 1) + (if snapshot[i - 1].status == Completed then 0 else 1)
  }

  lemma {:induction false} PendingMonotone(snapshot: seq<Scene>, i: nat, j: nat)
    requires i <= j <= |snapshot|
    ensures PendingBefore(snapshot, i) <= PendingBefore(snapshot, j)
    decreases j - i
  {
    if i < j {
      PendingMonotone(snapshot, i, j - 1);
    }
  }

  /** The scene texts the batch passes to `generateSceneImage` for the
      first `i` scenes, in order: those of the scenes not completed. */
  function CallsBefore(snapshot: seq<Scene>, i: nat): (r: seq<string>)
    requires i <= |snapshot|
    ensures |r| == PendingBefore(snapshot, i)
  {
    if i == 0 then []
    else CallsBefore(snapshot, i - 1) +
         (if snapshot[i - 1].status == Completed then [] else [snapshot[i - 1].originalText])
  }

  lemma CallsSkip(snapshot: seq<Scene>, i: nat)
    requires i < |snapshot| && snapshot[i].status == Completed
    ensures CallsBefore(snapshot, i + 1) == CallsBefore(snapshot, i)
  {
    var r := CallsBefore(snapshot, i);
    assert r + [] == r;
  }

  /** The update that follows the awaited call. */
  function Finish(r: Result<string>): Patch
  {
    match r
    case Ok(url) => MarkCompleted(url)
    case Err(message) => MarkError(message)
  }

  /** A scene the batch has been through: marked generating, then completed
      with the URL or failed with the message. */
  function Finished(s: Scene, r: Result<string>): (t: Scene)
    ensures t.id == s.id && t.originalText == s.originalText
    ensures r.Ok? ==> t.status == Completed && t.imageUrl == Some(r.value) && t.errorMsg == s.errorMsg
    ensures r.Err? ==> t.status == Error && t.imageUrl == s.imageUrl && t.errorMsg == Some(r.message)
  {
    Apply(Finish(r), Apply(MarkGenerating, s))
  }

  /** The replies suffice for every call the batch makes. */
  predicate EnoughReplies(snapshot: seq<Scene>, replies: seq<Reply>)
  {
    PendingBefore(snapshot, |snapshot|) <= |replies|
  }

  lemma ReplyInRange(snapshot: seq<Scene>, i: nat, replies: seq<Reply>)
    requires i < |snapshot| && snapshot[i].status != Completed && EnoughReplies(snapshot, replies)
    ensures PendingBefore(snapshot, i) < |replies|
  {
    PendingMonotone(snapshot, i + 1, |snapshot|);
  }

  /** What the call for scene `i` of the batch resolves to: it gets the reply
      after those of the pending scenes before it. */
  function Outcome(snapshot: seq<Scene>, i: nat, character: CharacterProfile, apiKey: string,
                   replies: seq<Reply>): Result<string>
    requires i < |snapshot| && snapshot[i].status != Completed && EnoughReplies(snapshot, replies)
  {
    ReplyInRange(snapshot, i, replies);
    GenerationResult(snapshot[i].originalText, character, apiKey, replies[PendingBefore(snapshot, i)])
  }

  /** The batch from scene `i` on, reading the snapshot and updating the live
      list. */
  function RunBatch(snapshot: seq<Scene>, live: seq<Scene>, i: nat, character: CharacterProfile,
                    apiKey: string, replies: seq<Reply>): seq<Scene>
    requires i <= |snapshot| && EnoughReplies(snapshot, replies)
    decreases |snapshot| - i
  {
    if i == |snapshot| then live
    else if snapshot[i].status == Completed then RunBatch(snapshot, live, i + 1, character, apiKey, replies)
    else
      var id := snapshot[i].id;
      var r := Outcome(snapshot, i, character, apiKey, replies);
      RunBatch(snapshot, UpdateById(UpdateById(live, id, MarkGenerating), id, Finish(r)),
               i + 1, character, apiKey, replies)
  }

  /** One step of the batch on a scene the snapshot shows completed: skipped. */
  lemma SkipStep(snapshot: seq<Scene>, live: seq<Scene>, i: nat, character: CharacterProfile,
                 apiKey: string, replies: seq<Reply>)
    requires i < |snapshot| && EnoughReplies(snapshot, replies) && snapshot[i].status == Completed
    ensures RunBatch(snapshot, live, i, character, apiKey, replies) ==
            RunBatch(snapshot, live, i + 1, character, apiKey, replies)
  {
  }

  /** One step of the batch on any other scene: marked generating, then
      finished with the outcome of its call. */
  lemma CallStep(snapshot: seq<Scene>, live: seq<Scene>, i: nat, character: CharacterProfile,
                 apiKey: string, replies: seq<Reply>, r: Result<string>)
    requires i < |snapshot| && EnoughReplies(snapshot, replies) && snapshot[i].status != Completed
    requires r == Outcome(snapshot, i, character, apiKey, replies)
    ensures var id := snapshot[i].id;
            RunBatch(snapshot, live, i, character, apiKey, replies) ==
            RunBatch(snapshot, UpdateById(UpdateById(live, id, MarkGenerating), id, Finish(r)),
                     i + 1, character, apiKey, replies)
  {
  }

  /** A second write at the same index replaces the first. Kept apart so
      that `CallStepAt` stays small. */
  lemma UpdateTwice(s: seq<Scene>, i: nat, x: Scene, y: Scene)
    requires i < |s|
    ensures s[i := x][i := y] == s[i := y]
  {
  }

  /** With the ids of the snapshot, that step patches the scene at `i`. */
  lemma CallStepAt(snapshot: seq<Scene>, live: seq<Scene>, i: nat, r: Result<string>)
    requires i < |snapshot| && DistinctIds(snapshot) && SameIds(live, snapshot)
    ensures var id := snapshot[i].id;
            var done := UpdateById(UpdateById(live, id, MarkGenerating), id, Finish(r));
            done == live[i := Finished(live[i], r)] && SameIds(done, snapshot)
  {
    var id := snapshot[i].id;
    SameIdsDistinct(live, snapshot);
    var marked := live[i := Apply(MarkGenerating, live[i])];
    UpdateAt(live, i, MarkGenerating);
    assert UpdateById(live, id, MarkGenerating) == marked;
    UpdateKeepsIds(live, id, MarkGenerating);
    UpdateAt(marked, i, Finish(r));
    UpdateTwice(live, i, Apply(MarkGenerating, live[i]), Finished(live[i], r));
    UpdateKeepsIds(marked, id, Finish(r));
  }

  /** One pass of the loop over a scene that is not completed, with the
      ids of the snapshot: it patches only that scene, keeps the ids, and
      leaves the rest of the batch to the following scenes. */
  lemma PassStep(snapshot: seq<Scene>, live: seq<Scene>, done: seq<Scene>, i: nat, k: nat,
                 character: CharacterProfile, apiKey: string, replies: seq<Reply>)
    requires i < |snapshot| && EnoughReplies(snapshot, replies) && snapshot[i].status != Completed
    requires DistinctIds(snapshot) && SameIds(live, snapshot)
    requires k == PendingBefore(snapshot, i) && k < |replies|
    requires done == UpdateById(UpdateById(live, snapshot[i].id, MarkGenerating), snapshot[i].id,
                                Finish(GenerationResult(snapshot[i].originalText, character, apiKey, replies[k])))
    ensures done == live[i := Finished(live[i], Outcome(snapshot, i, character, apiKey, replies))]
    ensures SameIds(done, snapshot)
    ensures RunBatch(snapshot, live, i, character, apiKey, replies) ==
            RunBatch(snapshot, done, i + 1, character, apiKey, replies)
  {
    var r := Outcome(snapshot, i, character, apiKey, replies);
    CallStep(snapshot, live, i, character, apiKey, replies, r);
    CallStepAt(snapshot, live, i, r);
  }

  /** What scene `j` of `live` should be once the batch from `i` on is
      over. */
  function Expected(snapshot: seq<Scene>, live: seq<Scene>, i: nat, j: nat, character: CharacterProfile,
                    apiKey: string, replies: seq<Reply>): Scene
    requires j < |snapshot| == |live| && EnoughReplies(snapshot, replies)
  {
    if j < i || snapshot[j].status == Completed then live[j]
    else Finished(live[j], Outcome(snapshot, j, character, apiKey, replies))
  }

  /** `result` is what the batch from `i` on should leave of `live`. */
  predicate BatchResult(snapshot: seq<Scene>, live: seq<Scene>, i: nat, result: seq<Scene>,
                        character: CharacterProfile, apiKey: string, replies: seq<Reply>)
    requires |snapshot| == |live| && EnoughReplies(snapshot, replies)
  {
    SameIds(result, live) &&
    forall j :: 0 <= j < |live| ==> result[j] == Expected(snapshot, live, i, j, character, apiKey, replies)
  }

  lemma SkipResult(snapshot: seq<Scene>, live: seq<Scene>, i: nat, result: seq<Scene>,
                   character: CharacterProfile, apiKey: string, replies: seq<Reply>)
    requires i < |snapshot| == |live| && EnoughReplies(snapshot, replies)
    requires snapshot[i].status == Completed
    requires BatchResult(snapshot, live, i + 1, result, character, apiKey, replies)
    ensures BatchResult(snapshot, live, i, result, character, apiKey, replies)
  {
    forall j | 0 <= j < |live|
      ensures Expected(snapshot, live, i + 1, j, character, apiKey, replies) ==
              Expected(snapshot, live, i, j, character, apiKey, replies)
    {
    }
  }

  lemma CallResult(snapshot: seq<Scene>, live: seq<Scene>, done: seq<Scene>, i: nat, result: seq<Scene>,
                   character: CharacterProfile, apiKey: string, replies: seq<Reply>)
    requires i < |snapshot| == |live| && EnoughReplies(snapshot, replies)
    requires snapshot[i].status != Completed
    requires done == live[i := Finished(live[i], Outcome(snapshot, i, character, apiKey, replies))]
    requires BatchResult(snapshot, done, i + 1, result, character, apiKey, replies)
    ensures BatchResult(snapshot, live, i, result, character, apiKey, replies)
  {
    forall j | 0 <= j < |live|
      ensures Expected(snapshot, done, i + 1, j, character, apiKey, replies) ==
              Expected(snapshot, live, i, j, character, apiKey, replies)
    {
    }
  }

  /** From scene `i` on, the batch finishes each scene that the snapshot
      does not show completed with its own call's outcome, and leaves the
      others as they are; one failure does not stop the scenes after it. */
  lemma {:induction false} BatchFrom(snapshot: seq<Scene>, live: seq<Scene>, i: nat,
                                     character: CharacterProfile, apiKey: string, replies: seq<Reply>)
    requires i <= |snapshot| && EnoughReplies(snapshot, replies)
    requires DistinctIds(snapshot) && SameIds(live, snapshot)
    ensures BatchResult(snapshot, live, i, RunBatch(snapshot, live, i, character, apiKey, replies),
                        character, apiKey, replies)
    decreases |snapshot| - i
  {
    var result := RunBatch(snapshot, live, i, character, apiKey, replies);
    if i == |snapshot| {
      assert forall j :: 0 <= j < |live| ==> Expected(snapshot, live, i, j, character, apiKey, replies) == live[j];
    } else if snapshot[i].status == Completed {
      SkipStep(snapshot, live, i, character, apiKey, replies);
      BatchFrom(snapshot, live, i + 1, character, apiKey, replies);
      SkipResult(snapshot, live, i, result, character, apiKey, replies);
    } else {
      var r := Outcome(snapshot, i, character, apiKey, replies);
      CallStep(snapshot, live, i, character, apiKey, replies, r);
      CallStepAt(snapshot, live, i, r);
      var done := live[i := Finished(live[i], r)];
      BatchFrom(snapshot, done, i + 1, character, apiKey, replies);
      CallResult(snapshot, live, done, i, result, character, apiKey, replies);
    }
  }

  /** The whole batch over a list with distinct ids: each scene not
      completed ends with the outcome of its own call, every completed one
      is left as it was. */
  lemma BatchOutcome(snapshot: seq<Scene>, character: CharacterProfile, apiKey: string,
                     replies: seq<Reply>)
    requires DistinctIds(snapshot) && EnoughReplies(snapshot, replies)
    ensures var r := RunBatch(snapshot, snapshot, 0, character, apiKey, replies);
            SameIds(r, snapshot) &&
            forall j :: 0 <= j < |snapshot| ==>
              r[j] == if snapshot[j].status == Completed then snapshot[j]
                      else Finished(snapshot[j], Outcome(snapshot, j, character, apiKey, replies))
  {
    BatchFrom(snapshot, snapshot, 0, character, apiKey, replies);
    var r := RunBatch(snapshot, snapshot, 0, character, apiKey, replies);
    assert forall j :: 0 <= j < |snapshot| ==> r[j] == Expected(snapshot, snapshot, 0, j, character, apiKey, replies);
  }

  /** Over scenes that are all completed the batch calls nothing. */
  lemma {:induction false} NothingPending(snapshot: seq<Scene>, i: nat)
    requires i <= |snapshot|
    requires forall j :: 0 <= j < |snapshot| ==> snapshot[j].status == Completed
    ensures PendingBefore(snapshot, i) == 0 && CallsBefore(snapshot, i) == []
  {
    if i > 0 {
      NothingPending(snapshot, i - 1);
    }
  }

  /** A rerun over scenes that are all completed changes nothing. */
  lemma {:induction false} RerunAllCompleted(snapshot: seq<Scene>, i: nat, character: CharacterProfile,
                                             apiKey: string, replies: seq<Reply>)
    requires i <= |snapshot| && EnoughReplies(snapshot, replies)
    requires forall j :: 0 <= j < |snapshot| ==> snapshot[j].status == Completed
    ensures RunBatch(snapshot, snapshot, i, character, apiKey, replies) == snapshot
    decreases |snapshot| - i
  {
    if i < |snapshot| {
      RerunAllCompleted(snapshot, i + 1, character, apiKey, replies);
    }
  }

  /** What regenerating scene `id` does to the list. */
  function Regenerated(scenes: seq<Scene>, id: string, character: CharacterProfile, apiKey: string,
                       reply: Reply): seq<Scene>
  {
    match FindIndex(scenes, id)
    case None => scenes
    case Some(k) =>
      var r := GenerationResult(scenes[k].originalText, character, apiKey, reply);
      UpdateById(UpdateById(scenes, id, MarkRegenerating), id, Finish(r))
  }

  /** The request regenerating scene `id` sends. */
  function RegenerationRequest(scenes: seq<Scene>, id: string, character: CharacterProfile,
                               apiKey: string): Option<Request>
  {
    match FindIndex(scenes, id)
    case None => None
    case Some(k) =>
      if apiKey == "" then None else Some(Request(ModelName, RequestParts(scenes[k].originalText, character)))
  }

  /** Regenerating an unknown id changes nothing and sends nothing. */
  lemma RegenerateUnknownId(scenes: seq<Scene>, id: string, character: CharacterProfile, apiKey: string,
                            reply: Reply)
    requires forall k :: 0 <= k < |scenes| ==> scenes[k].id != id
    ensures Regenerated(scenes, id, character, apiKey, reply) == scenes
    ensures RegenerationRequest(scenes, id, character, apiKey) == None
  {
  }

  /** Regenerating the scene at `k` changes only that scene: a success sets
      the image and clears the message, a failure sets the message and
      keeps the old image. */
  lemma RegenerateOneScene(scenes: seq<Scene>, k: nat, character: CharacterProfile, apiKey: string,
                           reply: Reply)
    requires DistinctIds(scenes) && k < |scenes|
    ensures var r := GenerationResult(scenes[k].originalText, character, apiKey, reply);
            var s := scenes[k];
            var after := Regenerated(scenes, s.id, character, apiKey, reply);
            var t := after[k];
            after == scenes[k := t] &&
            t.id == s.id && t.originalText == s.originalText &&
            (r.Ok? ==> t.status == Completed && t.imageUrl == Some(r.value) && t.errorMsg == None) &&
            (r.Err? ==> t.status == Error && t.imageUrl == s.imageUrl && t.errorMsg == Some(r.message))
  {
    var id := scenes[k].id;
    assert FindIndex(scenes, id) == Some(k);
    var r := GenerationResult(scenes[k].originalText, character, apiKey, reply);
    var marked := UpdateById(scenes, id, MarkRegenerating);
    UpdateAt(scenes, k, MarkRegenerating);
    UpdateKeepsIds(scenes, id, MarkRegenerating);
    UpdateAt(marked, k, Finish(r));
  }

  class App {
    var scenes: seq<Scene>
    var globalStatus: GenerationStatus
    var isAnalyzed: bool

    /** Every update goes by id, so the ids are kept distinct. */
    ghost predicate Valid()
      reads this
    {
      DistinctIds(scenes)
    }

    constructor ()
      ensures Valid()
      ensures scenes == [] && globalStatus == Idle && !isAnalyzed
    {
      scenes := [];
      globalStatus := Idle;
      isAnalyzed := false;
    }

    /** `handleAnalyzeScript`: `stamps` holds the `Date.now()` reading taken
        for each scene. `alerted` tells that there was no sentence, in which
        case nothing changes. */
    method AnalyzeScript(script: string, stamps: seq<nat>) returns (alerted: bool)
      requires |stamps| == |SplitScriptToSentences(script)|
      modifies this
      ensures alerted <==> SplitScriptToSentences(script) == []
      ensures alerted ==> scenes == old(scenes) && isAnalyzed == old(isAnalyzed)
      ensures !alerted ==> scenes == NewScenes(SplitScriptToSentences(script), stamps) && isAnalyzed
      ensures !alerted ==> Valid()
      ensures old(Valid()) ==> Valid()
      ensures globalStatus == old(globalStatus)
    {
      var sentenceList := SplitScriptToSentences(script);
      if |sentenceList| == 0 {
        return true;
      }
      scenes := NewScenes(sentenceList, stamps);
      isAnalyzed := true;
      return false;
    }

    /** `resetAnalysis` */
    method ResetAnalysis()
      modifies this
      ensures Valid()
      ensures scenes == [] && !isAnalyzed && globalStatus == Idle
    {
      isAnalyzed := false;
      scenes := [];
      globalStatus := Idle;
    }

    /** `handleStartGeneration`: `confirmed` is the user's answer when asked
        about an empty character, `replies` what the client gives back to
        each call in turn, and `calls` the scene texts passed to
        `generateSceneImage`, one per call. */
    method StartGeneration(apiKey: string, character: CharacterProfile, confirmed: bool,
                           replies: seq<Reply>)
      returns (calls: seq<string>)
      requires Valid()
      requires Proceeds(apiKey, character, confirmed) ==> EnoughReplies(scenes, replies)
      modifies this
      ensures Valid() && isAnalyzed == old(isAnalyzed)
      ensures !Proceeds(apiKey, character, confirmed) ==>
                scenes == old(scenes) && globalStatus == old(globalStatus) && calls == []
      ensures Proceeds(apiKey, character, confirmed) ==>
                scenes == RunBatch(old(scenes), old(scenes), 0, character, apiKey, replies) &&
                calls == CallsBefore(old(scenes), |old(scenes)|) &&
                globalStatus == GenerationCompleted
    {
      if apiKey == "" {
        return [];
      }
      if CharacterIsEmpty(character) && !confirmed {
        return [];
      }
      globalStatus := Processing;
      calls := ProcessScenes(character, apiKey, replies);
      globalStatus := GenerationCompleted;
    }

    /** The `for` loop of `handleStartGeneration`: it reads the scenes as
        they were when the batch started and updates the live list. */
    method ProcessScenes(character: CharacterProfile, apiKey: string, replies: seq<Reply>)
      returns (calls: seq<string>)
      requires Valid() && apiKey != "" && EnoughReplies(scenes, replies)
      modifies this
      ensures Valid()
      ensures scenes == RunBatch(old(scenes), old(scenes), 0, character, apiKey, replies)
      ensures calls == CallsBefore(old(scenes), |old(scenes)|)
      ensures globalStatus == old(globalStatus) && isAnalyzed == old(isAnalyzed)
    {
      var snapshot := scenes;
      calls := [];
      var i := 0;
      var k := 0;
      while i < |snapshot|
        invariant i <= |snapshot|
        invariant k == PendingBefore(snapshot, i)
        invariant globalStatus == old(globalStatus) && isAnalyzed == old(isAnalyzed)
        invariant SameIds(scenes, snapshot)
        invariant RunBatch(snapshot, scenes, i, character, apiKey, replies) ==
                  RunBatch(snapshot, snapshot, 0, character, apiKey, replies)
        invariant calls == CallsBefore(snapshot, i)
      {
        if snapshot[i].status == Completed {
          SkipStep(snapshot, scenes, i, character, apiKey, replies);
          CallsSkip(snapshot, i);
        } else {
          PassAt(snapshot, i, k, character, apiKey, replies);
          calls := calls + [snapshot[i].originalText];
          k := k + 1;
        }
        i := i + 1;
      }
      SameIdsDistinct(scenes, snapshot);
    }

    /** The pass of the batch loop over scene `i` of the snapshot, which is
        not completed: it finishes the live scene at `i` with the reply after
        those of the `k` calls before it, and keeps the ids. */
    method PassAt(snapshot: seq<Scene>, i: nat, k: nat, character: CharacterProfile, apiKey: string,
                  replies: seq<Reply>)
      requires i < |snapshot| && snapshot[i].status != Completed && EnoughReplies(snapshot, replies)
      requires k == PendingBefore(snapshot, i)
      requires DistinctIds(snapshot) && SameIds(scenes, snapshot)
      modifies this
      ensures scenes == old(scenes)[i := Finished(old(scenes)[i], Outcome(snapshot, i, character, apiKey, replies))]
      ensures SameIds(scenes, snapshot)
      ensures RunBatch(snapshot, old(scenes), i, character, apiKey, replies) ==
              RunBatch(snapshot, scenes, i + 1, character, apiKey, replies)
      ensures globalStatus == old(globalStatus) && isAnalyzed == old(isAnalyzed)
    {
      ReplyInRange(snapshot, i, replies);
      var before := scenes;
      GenerateOne(snapshot[i].id, snapshot[i].originalText, character, apiKey, replies[k]);
      PassStep(snapshot, before, scenes, i, k, character, apiKey, replies);
    }

    /** One pass of the batch loop over scene `currentSceneId`: mark it
        generating, await the call on its text, then record the outcome. */
    method GenerateOne(currentSceneId: string, sceneText: string, character: CharacterProfile,
                       apiKey: string, reply: Reply)
      modifies this
      ensures scenes == UpdateById(UpdateById(old(scenes), currentSceneId, MarkGenerating), currentSceneId,
                                   Finish(GenerationResult(sceneText, character, apiKey, reply)))
      ensures globalStatus == old(globalStatus) && isAnalyzed == old(isAnalyzed)
    {
      scenes := UpdateById(scenes, currentSceneId, MarkGenerating);
      var result, sent := GenerateSceneImage(sceneText, character, apiKey, reply);
      scenes := UpdateById(scenes, currentSceneId, Finish(result));
    }

    /** `handleRegenerateScene`: `request` is the request sent, if any. */
    method RegenerateScene(id: string, apiKey: string, character: CharacterProfile, reply: Reply)
      returns (request: Option<Request>)
      requires Valid()
      modifies this
      ensures Valid()
      ensures scenes == Regenerated(old(scenes), id, character, apiKey, reply)
      ensures request == RegenerationRequest(old(scenes), id, character, apiKey)
      ensures globalStatus == old(globalStatus) && isAnalyzed == old(isAnalyzed)
    {
      var found := FindIndex(scenes, id);
      if found.None? {
        return None;
      }
      var sceneToRegen := scenes[found.value];
      UpdateKeepsIds(scenes, id, MarkRegenerating);
      scenes := UpdateById(scenes, id, MarkRegenerating);
      var result;
      result, request := GenerateSceneImage(sceneToRegen.originalText, character, apiKey, reply);
      UpdateKeepsIds(scenes, id, Finish(result));
      scenes := UpdateById(scenes, id, Finish(result));
    }
  }
}
