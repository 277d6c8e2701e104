/** The part of Python's `str` that the video-id extraction and the transcript
    join rely on: `sep in s`, `s.split(sep)` and `sep.join(parts)`. A Dafny
    `char` is a Unicode scalar value, as a Python `str` element is a code point. */
module Strings {
  import opened Wrappers

  /** `sep` occurs in `s` starting at index `i`. */
  predicate OccursAt(s: string, sep: string, i: int)
  {
    0 <= i && i + |sep| <= |s| && s[i..i + |sep|] == sep
  }

  /** Python's `sep in s`. */
  predicate Contains(s: string, sep: string)
  {
    exists i | 0 <= i <= |s| :: OccursAt(s, sep, i)
  }

  /** `k` is the last index at which `sep` occurs in `s`. */
  ghost predicate IsLastOccurrence(s: string, sep: string, k: int)
  {
    OccursAt(s, sep, k) && forall j :: k < j ==> !OccursAt(s, sep, j)
  }

  /** No proper suffix of `sep` starts with `sep`'s first character, so two
      occurrences of `sep` can never overlap. */
  predicate NoSelfOverlap(sep: string)
  {
    forall d :: 0 < d < |sep| ==> sep[d] != sep[0]
  }

  /** An occurrence inside the slice `s[a..b]` is an occurrence in `s`, shifted by `a`. */
  lemma OccursInSlice(s: string, sep: string, a: nat, b: nat, j: int)
    requires a <= b <= |s|
    ensures OccursAt(s[a..b], sep, j) <==> 0 <= j && a + j + |sep| <= b && OccursAt(s, sep, a + j)
  {
    if 0 <= j && a + j + |sep| <= b {
      var t := s[a..b];
      var u, v := t[j..j + |sep|], s[a + j..a + j + |sep|];
      assert forall m :: 0 <= m < |sep| ==> u[m] == v[m];
      assert u == v;
    }
  }

  /** A slice holds no occurrence when `s` has none starting inside it. */
  lemma NoneInSlice(s: string, sep: string, a: nat, b: nat)
    requires |sep| > 0 && a <= b <= |s|
    requires forall j :: a <= j < b ==> !OccursAt(s, sep, j)
    ensures !Contains(s[a..b], sep)
  {
    forall j ensures !OccursAt(s[a..b], sep, j) {
      OccursInSlice(s, sep, a, b, j);
    }
  }

  /** The leftmost occurrence of `sep` in `s` at or after `start`: Python's
      `s.find(sep, start)`, with `None` for -1. */
  function FindFrom(s: string, sep: string, start: nat): (r: Option<nat>)
    decreases |s| - start
    ensures r.Some? ==> start <= r.value && r.value + |sep| <= |s|
  {
    if start + |sep| > |s| then None
    else if s[start..start + |sep|] == sep then Some(start)
    else FindFrom(s, sep, start + 1)
  }

  /** `FindFrom` answers an occurrence, and there is none between `start` and it
      (none at all at or after `start` when it answers `None`). */
  lemma {:induction false} FindFromFacts(s: string, sep: string, start: nat)
    decreases |s| - start
    ensures var r := FindFrom(s, sep, start);
      (r.Some? ==> OccursAt(s, sep, r.value)) &&
      forall j :: start <= j && (r.None? || j < r.value) ==> !OccursAt(s, sep, j)
  {
    if start + |sep| <= |s| && s[start..start + |sep|] != sep {
      FindFromFacts(s, sep, start + 1);
    }
  }

  /** Python's `s.find(sep)`. */
  function Find(s: string, sep: string): (r: Option<nat>)
    ensures r.Some? <==> Contains(s, sep)
    ensures r.Some? ==> OccursAt(s, sep, r.value) && forall j :: j < r.value ==> !OccursAt(s, sep, j)
  {
    FindFromFacts(s, sep, 0);
    FindFrom(s, sep, 0)
  }

  /** The pieces of `s[start..]` cut at each occurrence of `sep`, scanning from
      the left and resuming after each occurrence found. */
  function SplitFrom(s: string, sep: string, start: nat): (parts: seq<string>)
    requires |sep| > 0 && start <= |s|
    decreases |s| - start
    ensures |parts| >= 1
    ensures |parts| == 1 <==> FindFrom(s, sep, start).None?
  {
    var f := FindFrom(s, sep, start);
    if f.None? then [s[start..]]
    else
      var i := f.value;
      [s[start..i]] + SplitFrom(s, sep, i + |sep|)
  }

  /** One step of the scan: a split that finds `sep` at `i` cuts there and
      carries on after it. */
  lemma SplitFromStep(s: string, sep: string, start: nat, i: nat)
    requires |sep| > 0 && start <= |s| && FindFrom(s, sep, start) == Some(i)
    ensures i + |sep| <= |s|
    ensures SplitFrom(s, sep, start) == [s[start..i]] + SplitFrom(s, sep, i + |sep|)
  {
  }

  /** Python's `s.split(sep)` for a non-empty separator (Python raises
      `ValueError` for an empty one). */
  function Split(s: string, sep: string): (parts: seq<string>)
    requires |sep| > 0
    ensures |parts| >= 1
    ensures |parts| == 1 <==> !Contains(s, sep)
  {
    assert Find(s, sep) == FindFrom(s, sep, 0);
    SplitFrom(s, sep, 0)
  }

  /** No piece of a split contains the separator. */
  lemma {:induction false} SplitPiecesFree(s: string, sep: string, start: nat)
    requires |sep| > 0 && start <= |s|
    decreases |s| - start
    ensures forall k :: 0 <= k < |SplitFrom(s, sep, start)| ==> !Contains(SplitFrom(s, sep, start)[k], sep)
  {
    FindFromFacts(s, sep, start);
    var f := FindFrom(s, sep, start);
    if f.None? {
      NoneInSlice(s, sep, start, |s|);
      assert s[start..] == s[start..|s|];
    } else {
      var i := f.value;
      NoneInSlice(s, sep, start, i);
      SplitPiecesFree(s, sep, i + |sep|);
      var rest := SplitFrom(s, sep, i + |sep|);
      SplitFromStep(s, sep, start, i);
      forall k | 1 <= k < |rest| + 1
        ensures !Contains(SplitFrom(s, sep, start)[k], sep)
      {
        assert SplitFrom(s, sep, start)[k] == rest[k - 1];
      }
    }
  }

  /** Python's `sep.join(parts)`. */
  function Join(parts: seq<string>, sep: string): string
  {
    if |parts| == 0 then ""
    else if |parts| == 1 then parts[0]
    else parts[0] + sep + Join(parts[1..], sep)
  }

  /** Python's `s.split(sep)[0]`: the text before the first `sep`. */
  function BeforeFirst(s: string, sep: string): (r: string)
    requires |sep| > 0
    ensures |r| <= |s| && r == s[..|r|]
    ensures !Contains(r, sep)
    ensures forall j :: j < |r| ==> !OccursAt(s, sep, j)
    ensures Contains(s, sep) ==> OccursAt(s, sep, |r|)
    ensures !Contains(s, sep) ==> r == s
  {
    FirstPiece(s, sep);
    Split(s, sep)[0]
  }

  /** The first piece of a split is the text before the first occurrence. */
  lemma FirstPiece(s: string, sep: string)
    requires |sep| > 0
    ensures var f := Find(s, sep);
      Split(s, sep)[0] == (if f.None? then s else s[..f.value]) &&
      !Contains(Split(s, sep)[0], sep)
  {
    var f := Find(s, sep);
    var e := if f.None? then |s| else f.value;
    NoneInSlice(s, sep, 0, e);
    assert s[0..e] == s[..e];
    assert s[..|s|] == s;
  }

  /** Where the last piece of `SplitFrom(s, sep, start)` begins: just after the
      last occurrence the left-to-right scan cuts at, or `start` when there is none. */
  function LastStart(s: string, sep: string, start: nat): (k: nat)
    requires |sep| > 0 && start <= |s|
    decreases |s| - start
    ensures start <= k <= |s|
    ensures FindFrom(s, sep, start).None? ==> k == start
  {
    var f := FindFrom(s, sep, start);
    if f.None? then start else LastStart(s, sep, f.value + |sep|)
  }

  /** `LastStart` sits just after an occurrence (when there is one), and no
      occurrence begins at or after it. */
  lemma {:induction false} LastStartFacts(s: string, sep: string, start: nat)
    requires |sep| > 0 && start <= |s|
    decreases |s| - start
    ensures FindFrom(s, sep, start).Some? ==>
      start + |sep| <= LastStart(s, sep, start) && OccursAt(s, sep, LastStart(s, sep, start) - |sep|)
    ensures forall j :: LastStart(s, sep, start) <= j ==> !OccursAt(s, sep, j)
  {
    FindFromFacts(s, sep, start);
    var f := FindFrom(s, sep, start);
    if f.Some? {
      var next := f.value + |sep|;
      LastStartFacts(s, sep, next);
      assert LastStart(s, sep, start) == LastStart(s, sep, next);
      if FindFrom(s, sep, next).None? {
        assert LastStart(s, sep, next) == next;
      }
    } else {
      assert LastStart(s, sep, start) == start;
    }
  }

  /** The last piece of a split starts where `LastStart` says. */
  lemma {:induction false} LastPiece(s: string, sep: string, start: nat)
    requires |sep| > 0 && start <= |s|
    decreases |s| - start
    ensures var p := SplitFrom(s, sep, start); p[|p| - 1] == s[LastStart(s, sep, start)..]
  {
    var f := FindFrom(s, sep, start);
    if f.Some? {
      var i := f.value;
      LastPiece(s, sep, i + |sep|);
      SplitFromStep(s, sep, start, i);
      LastStartStep(s, sep, start, i);
      LastOfChain(SplitFrom(s, sep, start), s[start..i], SplitFrom(s, sep, i + |sep|),
                  s, LastStart(s, sep, start), LastStart(s, sep, i + |sep|));
    }
  }

  /** The last element of `[a] + rest`, read as a suffix of `s`. */
  lemma LastOfChain(p: seq<string>, a: string, rest: seq<string>, s: string, k: nat, k': nat)
    requires |rest| > 0 && p == [a] + rest
    requires k == k' <= |s| && rest[|rest| - 1] == s[k'..]
    ensures |p| > 0 && p[|p| - 1] == s[k..]
  {
    assert p[|p| - 1] == rest[|rest| - 1];
  }

  /** Resuming after an occurrence does not move the last cut. */
  lemma LastStartStep(s: string, sep: string, start: nat, i: nat)
    requires |sep| > 0 && start <= |s| && FindFrom(s, sep, start) == Some(i)
    ensures LastStart(s, sep, start) == LastStart(s, sep, i + |sep|)
  {
  }

  /** Python's `s.split(sep)[-1]`: the text after the last `sep` that the
      left-to-right scan cuts at. */
  function AfterLast(s: string, sep: string): (r: string)
    requires |sep| > 0
    ensures |r| <= |s| && r == s[|s| - |r|..]
    ensures !Contains(r, sep)
    ensures Contains(s, sep) ==> |r| + |sep| <= |s| && OccursAt(s, sep, |s| - |r| - |sep|)
    ensures !Contains(s, sep) ==> r == s
  {
    var k := LastStart(s, sep, 0);
    assert Find(s, sep) == FindFrom(s, sep, 0);
    LastStartFacts(s, sep, 0);
    LastPiece(s, sep, 0);
    NoneInSlice(s, sep, k, |s|);
    assert s[k..] == s[k..|s|];
    var p := Split(s, sep);
    p[|p| - 1]
  }

  /** For a separator that cannot overlap itself, the cut before the last piece
      is the last occurrence of the separator anywhere in `s`. */
  lemma AfterLastFollowsLastOccurrence(s: string, sep: string)
    requires |sep| > 0 && NoSelfOverlap(sep) && Contains(s, sep)
    ensures IsLastOccurrence(s, sep, |s| - |AfterLast(s, sep)| - |sep|)
  {
    var r := AfterLast(s, sep);
    var k := |s| - |r| - |sep|;
    forall j | k < j
      ensures !OccursAt(s, sep, j)
    {
      if j >= k + |sep| {
        OccursInSlice(s, sep, |s| - |r|, |s|, j - (|s| - |r|));
        assert !OccursAt(r, sep, j - (|s| - |r|));
      } else {
        NoOverlapAfter(s, sep, k, j);
      }
    }
  }

  /** An occurrence of a separator that cannot overlap itself rules out
      another one starting inside it. */
  lemma NoOverlapAfter(s: string, sep: string, k: int, j: int)
    requires NoSelfOverlap(sep) && OccursAt(s, sep, k) && k < j < k + |sep|
    ensures !OccursAt(s, sep, j)
  {
    if j + |sep| <= |s| {
      var d := j - k;
      assert s[j] == s[k..k + |sep|][d] == sep[d] != sep[0];
      assert s[j..j + |sep|][0] != sep[0];
    }
  }

  lemma JoinCons(a: string, rest: seq<string>, sep: string)
    requires |rest| >= 1
    ensures Join([a] + rest, sep) == a + sep + Join(rest, sep)
  {
    assert ([a] + rest)[1..] == rest;
  }

  /** The text from `start` on is the text up to the occurrence `FindFrom`
      finds, the separator, and the rest. */
  lemma AroundOccurrence(s: string, sep: string, start: nat, i: nat)
    requires FindFrom(s, sep, start) == Some(i)
    ensures s[start..] == s[start..i] + sep + s[i + |sep|..]
  {
    FindFromFacts(s, sep, start);
  }

  /** Joining the pieces of a split with the same separator gives back the
      text that was split. */
  lemma {:induction false} JoinSplitFrom(s: string, sep: string, start: nat)
    requires |sep| > 0 && start <= |s|
    decreases |s| - start
    ensures Join(SplitFrom(s, sep, start), sep) == s[start..]
  {
    var f := FindFrom(s, sep, start);
    if f.Some? {
      var i := f.value;
      var a, rest := s[start..i], SplitFrom(s, sep, i + |sep|);
      calc {
        Join(SplitFrom(s, sep, start), sep);
      == { SplitFromStep(s, sep, start, i); }
        Join([a] + rest, sep);
      == { JoinCons(a, rest, sep); }
        a + sep + Join(rest, sep);
      == { JoinSplitFrom(s, sep, i + |sep|); }
        a + sep + s[i + |sep|..];
      == { AroundOccurrence(s, sep, start, i); }
        s[start..];
      }
    }
  }

  /** `Join` undoes `Split`. */
  lemma {:induction false} JoinSplit(s: string, sep: string)
    requires |sep| > 0
    ensures Join(Split(s, sep), sep) == s
  {
    JoinSplitFrom(s, sep, 0);
  }

  /** The first occurrence of the one-character separator at or after `start`
      is at `start + |p|` when `s[start..]` is `p` followed by it and `p` does
      not contain it. */
  lemma FindAfterPiece(s: string, c: char, start: nat, p: string)
    requires start + |p| < |s| && s[start..start + |p|] == p && s[start + |p|] == c && c !in p
    ensures FindFrom(s, [c], start) == Some(start + |p|)
  {
    assert s[start + |p|..start + |p| + 1] == [c];
    assert OccursAt(s, [c], start + |p|);
    forall j | start <= j < start + |p|
      ensures !OccursAt(s, [c], j)
    {
      assert s[j..j + 1][0] == s[j] == p[j - start] != c;
    }
    FindFromFacts(s, [c], start);
  }

  /** Without the one-character separator after `start` there is nothing to find. */
  lemma FindNoneInTail(s: string, c: char, start: nat)
    requires start <= |s| && c !in s[start..]
    ensures FindFrom(s, [c], start).None?
  {
    forall j | start <= j
      ensures !OccursAt(s, [c], j)
    {
      if j < |s| {
        assert s[j..j + 1][0] == s[j] == s[start..][j - start] != c;
      }
    }
    FindFromFacts(s, [c], start);
  }

  /** Where a join of two or more parts places its first part and separator. */
  lemma JoinHead(s: string, start: nat, parts: seq<string>, c: char)
    requires start <= |s| && |parts| >= 2
    requires s[start..] == Join(parts, [c])
    ensures start + |parts[0]| < |s|
    ensures s[start..start + |parts[0]|] == parts[0]
    ensures s[start + |parts[0]|] == c
    ensures s[start + |parts[0]| + 1..] == Join(parts[1..], [c])
  {
    var p := parts[0];
    var t := s[start..];
    assert t == p + [c] + Join(parts[1..], [c]);
    assert s[start..start + |p|] == t[..|p|];
    assert s[start + |p| + 1..] == t[|p| + 1..];
  }

  /** Splitting the tail `s[start..]` that is a join on a one-character
      separator none of the parts contains gives back the parts. */
  lemma {:induction false} SplitJoinFrom(s: string, start: nat, parts: seq<string>, c: char)
    requires start <= |s| && |parts| >= 1
    requires forall k :: 0 <= k < |parts| ==> c !in parts[k]
    requires s[start..] == Join(parts, [c])
    decreases |parts|
    ensures SplitFrom(s, [c], start) == parts
  {
    if |parts| == 1 {
      FindNoneInTail(s, c, start);
    } else {
      var p, rest := parts[0], parts[1..];
      JoinHead(s, start, parts, c);
      FindAfterPiece(s, c, start, p);
      assert forall k :: 0 <= k < |rest| ==> c !in rest[k] by {
        forall k | 0 <= k < |rest| ensures c !in rest[k] {
          assert rest[k] == parts[k + 1];
        }
      }
      SplitJoinFrom(s, start + |p| + 1, rest, c);
      SplitFromStep(s, [c], start, start + |p|);
      assert parts == [p] + rest;
    }
  }

  /** Splitting a join on a one-character separator that none of the parts
      contains gives back the parts. */
  lemma {:induction false} SplitJoin(parts: seq<string>, c: char)
    requires |parts| >= 1
    requires forall k :: 0 <= k < |parts| ==> c !in parts[k]
    ensures Split(Join(parts, [c]), [c]) == parts
  {
    SplitJoinFrom(Join(parts, [c]), 0, parts, c);
  }
}
