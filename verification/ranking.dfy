/** The ranking in `Searcher._get_slow_article`: the candidates are sorted, stably, by the
    product of their two scores, and the last one after sorting is the answer. */
module Ranking {
  import opened Outcomes
  import opened Candidates

  /** `candidate.emb_score * candidate.bm25_score`. */
  function Key(c: Candidate): real {
    c.embScore * c.bm25Score
  }

  predicate Sorted(s: seq<Candidate>) {
    forall i, j :: 0 <= i < j < |s| ==> Key(s[i]) <= Key(s[j])
  }

  /** Every key in `s` is at most `bound`. */
  predicate KeysAtMost(s: seq<Candidate>, bound: real) {
    forall i :: 0 <= i < |s| ==> Key(s[i]) <= bound
  }

  /** A permutation of `s` plus `x` keeps the bound that `s` and `x` keep. */
  lemma KeysAtMostPermuted(r: seq<Candidate>, s: seq<Candidate>, x: Candidate, bound: real)
    requires multiset(r) == multiset(s) + multiset{x}
    requires KeysAtMost(s, bound) && Key(x) <= bound
    ensures KeysAtMost(r, bound)
  {
    forall i | 0 <= i < |r|
      ensures Key(r[i]) <= bound
    {
      assert r[i] in multiset(r);
      if r[i] != x {
        assert r[i] in multiset(s);
        var j :| 0 <= j < |s| && s[j] == r[i];
      }
    }
  }

  /** Inserts `x` into sorted `s` after every element whose key does not exceed its own. */
  function Insert(x: Candidate, s: seq<Candidate>): (r: seq<Candidate>)
    requires Sorted(s)
    ensures |r| == |s| + 1
    ensures multiset(r) == multiset(s) + multiset{x}
    ensures Sorted(r)
    decreases |s|
  {
    if |s| == 0 then [x]
    else
      var last := s[|s| - 1];
      if Key(last) <= Key(x) then s + [x]
      else
        var init := s[..|s| - 1];
        assert s == init + [last];
        var r := Insert(x, init);
        assert KeysAtMost(init, Key(last)) by {
          forall i | 0 <= i < |init|
            ensures Key(init[i]) <= Key(last)
          {
            assert init[i] == s[i];
          }
        }
        KeysAtMostPermuted(r, init, x, Key(last));
        r + [last]
  }

  /** `sorted(candidates, key=...)`: a sorted permutation of the candidates. */
  function SortByKey(cs: seq<Candidate>): (r: seq<Candidate>)
    ensures |r| == |cs|
    ensures multiset(r) == multiset(cs)
    ensures Sorted(r)
    decreases |cs|
  {
    if |cs| == 0 then []
    else
      var init := cs[..|cs| - 1];
      assert cs == init + [cs[|cs| - 1]];
      Insert(cs[|cs| - 1], SortByKey(init))
  }

  /** The candidates whose key is `v`, in their order. */
  function WithKey(cs: seq<Candidate>, v: real): seq<Candidate>
    decreases |cs|
  {
    if |cs| == 0 then []
    else WithKey(cs[..|cs| - 1], v) + (if Key(cs[|cs| - 1]) == v then [cs[|cs| - 1]] else [])
  }

  /** Inserting keeps the candidates of each key in order, the new one after those already
      there. */
  lemma {:induction false} InsertStable(x: Candidate, s: seq<Candidate>, v: real)
    requires Sorted(s)
    ensures WithKey(Insert(x, s), v) == WithKey(s, v) + WithKey([x], v)
    decreases |s|
  {
    assert [x][..0] == [];
    if |s| > 0 {
      var last := s[|s| - 1];
      var init := s[..|s| - 1];
      if Key(last) <= Key(x) {
        assert (s + [x])[..|s|] == s;
      } else {
        assert s == init + [last];
        var r := Insert(x, init);
        InsertStable(x, init, v);
        assert (r + [last])[..|r|] == r;
        assert Insert(x, s) == r + [last];
      }
    }
  }

  /** `sorted` is stable: the candidates of each key keep their order. */
  lemma {:induction false} SortStable(cs: seq<Candidate>, v: real)
    ensures WithKey(SortByKey(cs), v) == WithKey(cs, v)
    decreases |cs|
  {
    if |cs| > 0 {
      var init := cs[..|cs| - 1];
      var x := cs[|cs| - 1];
      assert [x][..0] == [];
      SortStable(init, v);
      InsertStable(x, SortByKey(init), v);
    }
  }

  /** `candidates[-1]` after sorting, when there is a candidate. */
  function Pick(cs: seq<Candidate>): Option<Candidate> {
    if |cs| == 0 then None else Some(SortByKey(cs)[|cs| - 1])
  }

  /** `cs[i]` has the greatest key, and no later candidate has a key as great. */
  predicate IsLastMax(cs: seq<Candidate>, i: int) {
    && 0 <= i < |cs|
    && (forall j :: 0 <= j < |cs| ==> Key(cs[j]) <= Key(cs[i]))
    && (forall j :: i < j < |cs| ==> Key(cs[j]) < Key(cs[i]))
  }

  /** The last element after an insertion. */
  lemma InsertLast(x: Candidate, s: seq<Candidate>)
    requires Sorted(s) && |s| > 0
    ensures Insert(x, s)[|s|] == if Key(s[|s| - 1]) <= Key(x) then x else s[|s| - 1]
  {
  }

  /** Appending a candidate with a key at least the maximum makes it the last maximum. */
  lemma LastMaxAppendGreater(init: seq<Candidate>, x: Candidate, i0: int)
    requires IsLastMax(init, i0) && Key(init[i0]) <= Key(x)
    ensures IsLastMax(init + [x], |init|)
  {
    var cs := init + [x];
    forall j | 0 <= j < |cs|
      ensures Key(cs[j]) <= Key(x)
    {
      if j < |init| {
        assert cs[j] == init[j];
      }
    }
  }

  /** Appending a candidate with a key below the maximum keeps the last maximum. */
  lemma LastMaxAppendSmaller(init: seq<Candidate>, x: Candidate, i0: int)
    requires IsLastMax(init, i0) && Key(x) < Key(init[i0])
    ensures IsLastMax(init + [x], i0)
  {
    var cs := init + [x];
    forall j | 0 <= j < |cs|
      ensures Key(cs[j]) <= Key(cs[i0])
      ensures i0 < j ==> Key(cs[j]) < Key(cs[i0])
    {
      if j < |init| {
        assert cs[j] == init[j];
      }
    }
  }

  /** The answer for a longer list: the later of the last candidate and the answer for the
      others, whichever has the greater key. */
  lemma PickStep(cs: seq<Candidate>)
    requires |cs| > 1
    ensures var init, x := cs[..|cs| - 1], cs[|cs| - 1];
      Pick(init).Some? &&
      Pick(cs) == Some(if Key(Pick(init).value) <= Key(x) then x else Pick(init).value)
  {
    var init, x := cs[..|cs| - 1], cs[|cs| - 1];
    var sorted := SortByKey(init);
    assert SortByKey(cs) == Insert(x, sorted);
    InsertLast(x, sorted);
  }

  /** The answer is the candidate with the greatest score and, among equal scores, the one
      the index returned last; there is an answer exactly when there is a candidate. */
  lemma {:induction false} PickIsLastMax(cs: seq<Candidate>)
    ensures Pick(cs).None? <==> |cs| == 0
    ensures |cs| > 0 ==> exists i :: IsLastMax(cs, i) && Pick(cs) == Some(cs[i])
    decreases |cs|
  {
    if |cs| == 1 {
      assert IsLastMax(cs, 0) && Pick(cs) == Some(cs[0]);
    } else if |cs| > 1 {
      var n := |cs|;
      var init := cs[..n - 1];
      var x := cs[n - 1];
      assert cs == init + [x];
      PickIsLastMax(init);
      var i0 :| IsLastMax(init, i0) && Pick(init) == Some(init[i0]);
      PickStep(cs);
      if Key(init[i0]) <= Key(x) {
        LastMaxAppendGreater(init, x, i0);
        assert IsLastMax(cs, n - 1) && Pick(cs) == Some(cs[n - 1]);
      } else {
        LastMaxAppendSmaller(init, x, i0);
        assert cs[i0] == init[i0];
        assert IsLastMax(cs, i0) && Pick(cs) == Some(cs[i0]);
      }
    }
  }
}
