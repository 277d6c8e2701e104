/** Generic facts about sequences: distinctness and first-occurrence deduplication. */
module Seqs {

  function Min(a: int, b: int): int
  {
    if a <= b then a else b
  }

  /** No element occurs twice. */
  predicate Distinct<T(==)>(s: seq<T>)
  {
    forall i, j :: 0 <= i < j < |s| ==> s[i] != s[j]
  }

  /** `s` with every element after its first occurrence dropped, order kept.
      This is how an insertion-ordered set (a Python dict's keys) grows when
      the elements of `s` are inserted one after the other. */
  function Dedup<T(==)>(s: seq<T>): seq<T>
  {
    if |s| == 0 then []
    else
      var d := Dedup(s[..|s| - 1]);
      if s[|s| - 1] in d then d else d + [s[|s| - 1]]
  }

  /** Deduplication keeps exactly the elements of its input. */
  lemma {:induction false} DedupElements<T>(s: seq<T>)
    ensures forall x :: x in Dedup(s) <==> x in s
  {
    if |s| > 0 {
      var p := s[..|s| - 1];
      DedupElements(p);
      assert s == p + [s[|s| - 1]];
    }
  }

  lemma DedupMember<T>(s: seq<T>, x: T)
    ensures x in Dedup(s) <==> x in s
  {
    DedupElements(s);
  }

  /** Deduplication yields a sequence without repetitions. */
  lemma {:induction false} DedupDistinct<T>(s: seq<T>)
    ensures Distinct(Dedup(s))
  {
    if |s| > 0 {
      DedupDistinct(s[..|s| - 1]);
    }
  }

  /** Deduplication never lengthens, and keeps the length exactly when
      the input has no repetitions. */
  lemma {:induction false} DedupLength<T>(s: seq<T>)
    ensures |Dedup(s)| <= |s|
    ensures |Dedup(s)| == |s| <==> Distinct(s)
  {
    if |s| > 0 {
      var p := s[..|s| - 1];
      var x := s[|s| - 1];
      assert s == p + [x];
      DedupLength(p);
      DedupElements(p);
      if x in p {
        var i :| 0 <= i < |p| && p[i] == x;
        assert s[i] == s[|s| - 1];
      } else {
        if Distinct(p) {
          forall i, j | 0 <= i < j < |s|
            ensures s[i] != s[j]
          {
            if j == |s| - 1 {
              assert s[i] == p[i];
            } else {
              assert s[i] == p[i] && s[j] == p[j];
            }
          }
        }
        if Distinct(s) {
          forall i, j | 0 <= i < j < |p|
            ensures p[i] != p[j]
          {
            assert s[i] == p[i] && s[j] == p[j];
          }
        }
      }
    }
  }

  /** Putting `x` in front keeps a sequence free of repetitions exactly when
      `x` is new to it. */
  lemma DistinctCons<T>(x: T, s: seq<T>)
    ensures Distinct([x] + s) <==> x !in s && Distinct(s)
  {
    var t := [x] + s;
    if x !in s && Distinct(s) {
      forall i, j | 0 <= i < j < |t|
        ensures t[i] != t[j]
      {
        if i > 0 {
          assert t[i] == s[i - 1] && t[j] == s[j - 1];
        } else {
          assert t[j] == s[j - 1];
        }
      }
    }
    if Distinct(t) {
      forall i, j | 0 <= i < j < |s|
        ensures s[i] != s[j]
      {
        assert t[i + 1] == s[i] && t[j + 1] == s[j];
      }
      forall j | 0 <= j < |s|
        ensures s[j] != x
      {
        assert t[0] == x && t[j + 1] == s[j];
      }
    }
  }

  /** A sequence without repetitions has as many elements as its set. */
  lemma {:induction false} DistinctSetSize<T>(q: seq<T>)
    requires Distinct(q)
    ensures |set x | x in q| == |q|
  {
    if |q| > 0 {
      var p := q[1..];
      forall a, b | 0 <= a < b < |p|
        ensures p[a] != p[b]
      {
        assert p[a] == q[a + 1] && p[b] == q[b + 1];
      }
      DistinctSetSize(p);
      var sp := set x | x in p;
      var sq := set x | x in q;
      assert q == [q[0]] + p;
      forall x ensures x in sq <==> x == q[0] || x in sp {
        assert x in q <==> x == q[0] || x in p;
      }
      assert sq == {q[0]} + sp;
      forall b | 0 <= b < |p|
        ensures p[b] != q[0]
      {
        assert p[b] == q[b + 1];
      }
      assert q[0] !in sp;
    }
  }

  /** Deduplication keeps the first element in front. */
  lemma {:induction false} DedupHead<T>(s: seq<T>)
    requires |s| > 0
    ensures |Dedup(s)| > 0 && Dedup(s)[0] == s[0]
  {
    if |s| > 1 {
      var p := s[..|s| - 1];
      DedupHead(p);
      assert p[0] == s[0];
    }
  }

  /** Deduplication leaves one entry per distinct element (stated for strings,
      the only element type it is needed for). */
  lemma DedupSetSize(s: seq<string>)
    ensures |Dedup(s)| == |set x | x in s|
  {
    var a := set x | x in Dedup(s);
    var b := set x | x in s;
    forall x ensures x in a <==> x in b {
      DedupMember(s, x);
    }
    assert a == b;
    DedupDistinct(s);
    DistinctSetSize(Dedup(s));
  }
}
