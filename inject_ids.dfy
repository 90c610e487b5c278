/** The id injection of useInjectHeadingIds (components/guide/GuideViewer.tsx):
    once the guide is rendered, its level 1-3 heading elements receive the
    parsed ids by position, so the table of contents can link to them. */
module HeadingIds {
  import opened Headings

  function Min(a: int, b: int): int {
    if a < b then a else b
  }

  /** The ids of the entries, in order. */
  function Ids(headings: seq<Heading>): (ids: seq<string>)
    ensures |ids| == |headings|
    ensures forall i :: 0 <= i < |ids| ==> ids[i] == headings[i].id
  {
    if headings == [] then [] else [headings[0].id] + Ids(headings[1..])
  }

  /** The element ids after the injection, given those before it: the
      first elements take the entries' ids, as many as there are of both,
      and the remaining elements keep theirs. */
  function InjectedIds(before: seq<string>, headings: seq<Heading>): (after: seq<string>)
    ensures |after| == |before|
    ensures forall i :: 0 <= i < |after| ==>
      after[i] == if i < |headings| then headings[i].id else before[i]
  {
    var n := Min(|before|, |headings|);
    Ids(headings)[..n] + before[n..]
  }

  /** Running the injection again (the effect re-runs when the guide
      changes) with the same entries changes nothing more. */
  lemma InjectIdempotent(before: seq<string>, headings: seq<Heading>)
    ensures InjectedIds(InjectedIds(before, headings), headings) == InjectedIds(before, headings)
  {
    var once := InjectedIds(before, headings);
    var twice := InjectedIds(once, headings);
    assert forall i :: 0 <= i < |twice| ==> twice[i] == once[i];
  }

  /** With no entries the elements keep their ids (the early return at
      line 113 changes nothing the loop would). */
  lemma InjectNothing(before: seq<string>)
    ensures InjectedIds(before, []) == before
  {
    assert forall i :: 0 <= i < |before| ==> InjectedIds(before, [])[i] == before[i];
  }

  /** The early return for no entries, then the loop at lines 118-124:
      `ids` holds the elements' `id` attributes in document order, `idx`
      counts the ids handed out. */
  method InjectHeadingIds(ids: array<string>, headings: seq<Heading>) returns (count: nat)
    modifies ids
    ensures count == Min(ids.Length, |headings|)
    ensures ids[..] == InjectedIds(old(ids[..]), headings)
  {
    if |headings| == 0 {
      InjectNothing(ids[..]);
      return 0;
    }
    var idx := 0;
    for k := 0 to ids.Length
      invariant idx == Min(k, |headings|) && idx <= |headings|
      invariant forall i :: 0 <= i < k ==>
        ids[i] == if i < |headings| then headings[i].id else old(ids[i])
      invariant forall i :: k <= i < ids.Length ==> ids[i] == old(ids[i])
    {
      if idx < |headings| {
        ids[k] := headings[idx].id;
        idx := idx + 1;
      }
    }
    count := idx;
    assert ids[..] == InjectedIds(old(ids[..]), headings) by {
      var after := InjectedIds(old(ids[..]), headings);
      assert forall i :: 0 <= i < ids.Length ==> ids[..][i] == after[i];
    }
  }
}
