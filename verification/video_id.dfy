/** Extraction of the video id from the pasted URL: three prioritised branches,
    each a composition of Python `split` calls. */
module VideoIds {
  import opened Strings

  /** Marker of the `watch?v=<id>` query parameter. */
  const QueryMarker := "v="
  /** Marker of the short-link host, `youtu.be/<id>`. */
  const ShortHostMarker := "youtu.be/"

  /** `id` sits in `url` right after the last occurrence of `marker` and runs up
      to the first `stop` character after it, or to the end of `url`. */
  ghost predicate CutAfterLast(url: string, marker: string, stop: char, id: string)
  {
    exists k :: IsLastOccurrence(url, marker, k) &&
      k + |marker| + |id| <= |url| &&
      url[k + |marker|..k + |marker| + |id|] == id &&
      stop !in id &&
      (k + |marker| + |id| == |url| || url[k + |marker| + |id|] == stop)
  }

  /** The id of the video `url` names. */
  function VideoId(url: string): (id: string)
    // the id is always a contiguous piece of the URL
    ensures Contains(url, id)
    // the `v=` branch wins, even over `youtu.be/`
    ensures Contains(url, QueryMarker) ==> CutAfterLast(url, QueryMarker, '&', id)
    ensures !Contains(url, QueryMarker) && Contains(url, ShortHostMarker) ==>
      CutAfterLast(url, ShortHostMarker, '?', id)
    // otherwise: the last path segment, or the whole URL when there is no '/'
    ensures !Contains(url, QueryMarker) && !Contains(url, ShortHostMarker) ==>
      '/' !in id && |id| <= |url| && id == url[|url| - |id|..] &&
      (|id| == |url| || url[|url| - |id| - 1] == '/')
  {
    if Contains(url, QueryMarker) then
      CutAt(url, QueryMarker, '&')
    else if Contains(url, ShortHostMarker) then
      CutAt(url, ShortHostMarker, '?')
    else
      LastSegment(url);
      AfterLast(url, "/")
  }

  /** Python's `url.split(marker)[-1].split(stop)[0]`. */
  function CutAt(url: string, marker: string, stop: char): (id: string)
    requires |marker| > 0 && NoSelfOverlap(marker) && Contains(url, marker)
    ensures Contains(url, id)
    ensures CutAfterLast(url, marker, stop, id)
  {
    CutFacts(url, marker, stop);
    BeforeFirst(AfterLast(url, marker), [stop])
  }

  lemma CutFacts(url: string, marker: string, stop: char)
    requires |marker| > 0 && NoSelfOverlap(marker) && Contains(url, marker)
    ensures var id := BeforeFirst(AfterLast(url, marker), [stop]);
      Contains(url, id) && CutAfterLast(url, marker, stop, id)
  {
    var tail := AfterLast(url, marker);
    var id := BeforeFirst(tail, [stop]);
    var k := |url| - |tail| - |marker|;
    AfterLastFollowsLastOccurrence(url, marker);
    NoCharOccurrence(id, stop);
    assert tail == url[k + |marker|..];
    assert url[k + |marker|..k + |marker| + |id|] == tail[..|id|] == id;
    if Contains(tail, [stop]) {
      assert tail[|id|..|id| + 1] == [stop];
      assert url[k + |marker| + |id|] == tail[|id|] == stop;
    }
    assert OccursAt(url, id, k + |marker|);
  }

  lemma LastSegment(url: string)
    ensures var id := AfterLast(url, "/");
      Contains(url, id) && '/' !in id &&
      (|id| == |url| || url[|url| - |id| - 1] == '/')
  {
    var id := AfterLast(url, "/");
    var k := |url| - |id|;
    NoCharOccurrence(id, '/');
    if |id| < |url| {
      assert OccursAt(url, "/", k - 1);
      assert url[k - 1..k][0] == url[k - 1];
    }
    assert url[k..k + |id|] == id;
    assert OccursAt(url, id, k);
  }

  /** A string without the one-character pattern `[c]` does not contain `c`. */
  lemma NoCharOccurrence(s: string, c: char)
    requires !Contains(s, [c])
    ensures c !in s
  {
    forall j | 0 <= j < |s|
      ensures s[j] != c
    {
      assert s[j..j + 1] == [s[j]];
      assert !OccursAt(s, [c], j);
    }
  }
}
