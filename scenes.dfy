/** The scene list of App.tsx: building one scene per sentence, and the
    `prev.map(s => s.id === id ? { ...s, … } : s)` update that every status
    change goes through. */
module Scenes {
  import opened Types
  import opened JsStrings

  /** `scene-${Date.now()}-${idx}`, with `stamp` the clock reading. */
  function SceneId(stamp: nat, idx: nat): string
  {
    "scene-" + DecimalString(stamp) + "-" + DecimalString(idx)
  }

  /** An id is the three pieces `scene`, the stamp and the index joined by
      `-`, and no piece holds a `-`. */
  lemma SceneIdPieces(stamp: nat, idx: nat)
    ensures Split(SceneId(stamp, idx), '-') == ["scene", DecimalString(stamp), DecimalString(idx)]
  {
    var pieces := ["scene", DecimalString(stamp), DecimalString(idx)];
    assert Join(pieces[2..], '-') == DecimalString(idx);
    assert Join(pieces[1..], '-') == DecimalString(stamp) + "-" + DecimalString(idx);
    assert Join(pieces, '-') == SceneId(stamp, idx);
    NoDashInDecimal(stamp);
    NoDashInDecimal(idx);
    assert '-' !in "scene";
    SplitJoin(pieces, '-');
  }

  lemma NoDashInDecimal(n: nat)
    ensures '-' !in DecimalString(n)
  {
    var r := DecimalString(n);
    assert forall j :: 0 <= j < |r| ==> r[j] != '-';
  }

  /** Equal ids come from equal clock readings and equal indices, so the ids
      of one analysis are distinct whatever the clock returns. */
  lemma SceneIdInjective(stamp: nat, idx: nat, stamp': nat, idx': nat)
    requires SceneId(stamp, idx) == SceneId(stamp', idx')
    ensures stamp == stamp' && idx == idx'
  {
    SceneIdPieces(stamp, idx);
    SceneIdPieces(stamp', idx');
    DecimalStringInjective(stamp, stamp');
    DecimalStringInjective(idx, idx');
  }

  predicate DistinctIds(scenes: seq<Scene>)
  {
    forall i, j :: 0 <= i < j < |scenes| ==> scenes[i].id != scenes[j].id
  }

  /** `sentenceList.map((text, idx) => ({ id, originalText: text, status: 'pending' }))`,
      where `stamps[idx]` is what `Date.now()` returned for element `idx`. */
  function NewScenes(sentences: seq<string>, stamps: seq<nat>): (r: seq<Scene>)
    requires |stamps| == |sentences|
    ensures |r| == |sentences|
    ensures forall i :: 0 <= i < |r| ==>
              r[i].originalText == sentences[i] && r[i].status == Pending &&
              r[i].imageUrl == None && r[i].errorMsg == None
    ensures DistinctIds(r)
  {
    var r := seq(|sentences|, i requires 0 <= i < |sentences| =>
                   Scene(SceneId(stamps[i], i), sentences[i], None, Pending, None));
    forall i, j | 0 <= i < j < |r| ensures r[i].id != r[j].id {
      if r[i].id == r[j].id {
        SceneIdInjective(stamps[i], i, stamps[j], j);
      }
    }
    r
  }

  /** The record spreads applied to a matching scene. */
  datatype Patch =
    | MarkGenerating            // `{ ...s, status: 'generating' }` (batch)
    | MarkRegenerating          // `{ ...s, status: 'generating', errorMsg: undefined }`
    | MarkCompleted(url: string) // `{ ...s, status: 'completed', imageUrl }`
    | MarkError(msg: string)    // `{ ...s, status: 'error', errorMsg: err.message }`

  /** A spread keeps every field it does not name: a success keeps an old
      `errorMsg`, a failure keeps an old `imageUrl`, and only regeneration
      clears the message. */
  function Apply(p: Patch, s: Scene): (r: Scene)
    ensures r.id == s.id && r.originalText == s.originalText
    ensures r.status == match p
                        case MarkCompleted(_) => Completed
                        case MarkError(_) => Error
                        case _ => Generating
    ensures r.imageUrl == if p.MarkCompleted? then Some(p.url) else s.imageUrl
    ensures r.errorMsg == match p
                          case MarkRegenerating => None
                          case MarkError(m) => Some(m)
                          case _ => s.errorMsg
  {
    match p
    case MarkGenerating => s.(status := Generating)
    case MarkRegenerating => s.(status := Generating, errorMsg := None)
    case MarkCompleted(url) => s.(status := Completed, imageUrl := Some(url))
    case MarkError(msg) => s.(status := Error, errorMsg := Some(msg))
  }

  /** `prev.map(s => s.id === id ? patched(s) : s)` */
  function UpdateById(scenes: seq<Scene>, id: string, p: Patch): (r: seq<Scene>)
    ensures |r| == |scenes|
    ensures forall i {:trigger r[i]} :: 0 <= i < |r| ==>
              r[i] == if scenes[i].id == id then Apply(p, scenes[i]) else scenes[i]
  {
    if scenes == [] then []
    else [if scenes[0].id == id then Apply(p, scenes[0]) else scenes[0]]
         + UpdateById(scenes[1..], id, p)
  }

  /** Two lists carry the same ids in the same order. */
  predicate SameIds(a: seq<Scene>, b: seq<Scene>)
  {
    |a| == |b| && forall i :: 0 <= i < |a| ==> a[i].id == b[i].id
  }

  lemma SameIdsDistinct(a: seq<Scene>, b: seq<Scene>)
    requires SameIds(a, b) && DistinctIds(b)
    ensures DistinctIds(a)
  {
  }

  /** An update keeps the ids and their order, hence their distinctness. */
  lemma UpdateKeepsIds(scenes: seq<Scene>, id: string, p: Patch)
    ensures SameIds(UpdateById(scenes, id, p), scenes)
    ensures DistinctIds(scenes) ==> DistinctIds(UpdateById(scenes, id, p))
  {
  }

  /** An update with an id nobody has changes nothing. */
  lemma UpdateAbsent(scenes: seq<Scene>, id: string, p: Patch)
    requires forall i :: 0 <= i < |scenes| ==> scenes[i].id != id
    ensures UpdateById(scenes, id, p) == scenes
  {
    var r := UpdateById(scenes, id, p);
    assert forall i :: 0 <= i < |r| ==> r[i] == scenes[i];
  }

  /** With distinct ids, the update patches exactly the one scene that has
      the id and leaves the others as they are. */
  lemma UpdateAt(scenes: seq<Scene>, k: nat, p: Patch)
    requires DistinctIds(scenes) && k < |scenes|
    ensures UpdateById(scenes, scenes[k].id, p) == scenes[k := Apply(p, scenes[k])]
  {
    var r := UpdateById(scenes, scenes[k].id, p);
    forall i | 0 <= i < |r| ensures r[i] == scenes[k := Apply(p, scenes[k])][i] {
      if i != k {
        assert scenes[i].id != scenes[k].id by {
          if i < k { assert scenes[i].id != scenes[k].id; } else { assert scenes[k].id != scenes[i].id; }
        }
      }
    }
  }

  /** `scenes.find(s => s.id === id)`: the first scene with the id. */
  function FindIndex(scenes: seq<Scene>, id: string): (r: Option<nat>)
    ensures r.Some? ==> r.value < |scenes| && scenes[r.value].id == id &&
                        forall j :: 0 <= j < r.value ==> scenes[j].id != id
    ensures r.None? ==> forall j :: 0 <= j < |scenes| ==> scenes[j].id != id
  {
    if scenes == [] then None
    else if scenes[0].id == id then Some(0)
    else match FindIndex(scenes[1..], id)
      case Some(k) => Some(k + 1)
      case None => None
  }

  /** The spreads never clear a stale field for one another: a scene that
      failed once and then succeeds in a later batch holds both an image and
      an error message, and so does one that succeeded, was regenerated and
      failed. */
  lemma StaleFieldsCoexist(s: Scene, url: string, msg: string)
    requires s.status == Error && s.errorMsg == Some(msg)
    ensures var t := Apply(MarkCompleted(url), Apply(MarkGenerating, s));
            t.status == Completed && t.imageUrl == Some(url) && t.errorMsg == Some(msg)
    ensures var t := Apply(MarkError(msg), Apply(MarkRegenerating, Apply(MarkCompleted(url), s)));
            t.status == Error && t.imageUrl == Some(url) && t.errorMsg == Some(msg)
  {
  }
}
