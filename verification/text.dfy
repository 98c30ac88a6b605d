/** Python's `str` operations the search engine and the server rely on: `in`, `startswith`,
    `endswith`, `find`, `split(sep)`, `sep.join(parts)` and `replace(target, new)`. */
module Text {
  import opened Outcomes

  /** `pat` occurs in `s` starting at index `i`. */
  predicate OccursAt(s: string, pat: string, i: int) {
    0 <= i && i + |pat| <= |s| && s[i..i + |pat|] == pat
  }

  /** Python's `pat in s`. */
  predicate Contains(s: string, pat: string) {
    exists i | 0 <= i <= |s| - |pat| :: OccursAt(s, pat, i)
  }

  /** Python's `s.startswith(prefix)`. */
  predicate StartsWith(s: string, prefix: string) {
    |prefix| <= |s| && s[..|prefix|] == prefix
  }

  /** Python's `s.endswith(suffix)`. */
  predicate EndsWith(s: string, suffix: string) {
    |suffix| <= |s| && s[|s| - |suffix|..] == suffix
  }

  /** The first occurrence of `pat` in `s` at or after `from`. */
  function FindFrom(s: string, pat: string, from: nat): (r: Option<nat>)
    ensures r.Some? ==> from <= r.value && OccursAt(s, pat, r.value)
    ensures r.Some? ==> forall j :: from <= j < r.value ==> !OccursAt(s, pat, j)
    ensures r.None? ==> forall j :: from <= j ==> !OccursAt(s, pat, j)
    decreases |s| - from
  {
    if from + |pat| > |s| then None
    else if s[from..from + |pat|] == pat then Some(from)
    else FindFrom(s, pat, from + 1)
  }

  /** Python's `s.find(pat)`, with `None` for -1: the first index where `pat` occurs. */
  function Find(s: string, pat: string): (r: Option<nat>)
    ensures r.Some? <==> Contains(s, pat)
    ensures r.Some? ==> OccursAt(s, pat, r.value)
    ensures r.Some? ==> forall j :: 0 <= j < r.value ==> !OccursAt(s, pat, j)
  {
    var r := FindFrom(s, pat, 0);
    assert r.Some? ==> OccursAt(s, pat, r.value) && r.value <= |s| - |pat|;
    r
  }

  /** Python's `s.split(sep)` for a non-empty separator: the pieces between the successive
      non-overlapping occurrences of `sep`, scanning from the left. */
  function Split(s: string, sep: string): (parts: seq<string>)
    requires |sep| > 0
    ensures |parts| >= 1
    decreases |s|
  {
    match Find(s, sep)
    case None => [s]
    case Some(i) => [s[..i]] + Split(s[i + |sep|..], sep)
  }

  /** Python's `sep.join(parts)`. */
  function Join(parts: seq<string>, sep: string): string
    decreases |parts|
  {
    if |parts| == 0 then ""
    else if |parts| == 1 then parts[0]
    else parts[0] + sep + Join(parts[1..], sep)
  }

  /** Python's `s.replace(old, new)` for a non-empty `old` (here `target` and `replacement`). */
  function Replace(s: string, target: string, replacement: string): string
    requires |target| > 0
  {
    Join(Split(s, target), replacement)
  }

  /** `s` with every `a` replaced by `b`, position by position. */
  function Substitute(s: string, a: char, b: char): (r: string)
    ensures |r| == |s|
  {
    seq(|s|, i requires 0 <= i < |s| => if s[i] == a then b else s[i])
  }

  lemma ContainsChar(s: string, c: char)
    ensures Contains(s, [c]) <==> c in s
  {
    if c in s {
      var i :| 0 <= i < |s| && s[i] == c;
      assert OccursAt(s, [c], i);
    }
    if Contains(s, [c]) {
      var i :| 0 <= i <= |s| - 1 && OccursAt(s, [c], i);
      assert s[i] == s[i..i + 1][0] == c;
    }
  }

  lemma JoinCons(p: string, rest: seq<string>, sep: string)
    requires |rest| >= 1
    ensures Join([p] + rest, sep) == p + sep + Join(rest, sep)
  {
    assert ([p] + rest)[1..] == rest;
  }

  /** One step of a split: the piece before the first occurrence, then the rest. */
  lemma SplitStep(s: string, sep: string, i: nat)
    requires |sep| > 0
    requires Find(s, sep) == Some(i)
    ensures i + |sep| <= |s|
    ensures s == s[..i] + sep + s[i + |sep|..]
    ensures Split(s, sep) == [s[..i]] + Split(s[i + |sep|..], sep)
  {
    assert s[i..i + |sep|] == sep;
  }

  /** Splitting and joining again with the same separator gives back the text. */
  lemma {:induction false} SplitJoin(s: string, sep: string)
    requires |sep| > 0
    ensures Join(Split(s, sep), sep) == s
    decreases |s|
  {
    var f := Find(s, sep);
    if f.Some? {
      var i := f.value;
      SplitStep(s, sep, i);
      var rest := s[i + |sep|..];
      SplitJoin(rest, sep);
      JoinCons(s[..i], Split(rest, sep), sep);
    }
  }

  /** No piece of a split contains the separator. */
  lemma {:induction false} SplitPiecesFree(s: string, sep: string)
    requires |sep| > 0
    ensures forall k :: 0 <= k < |Split(s, sep)| ==> !Contains(Split(s, sep)[k], sep)
    decreases |s|
  {
    match Find(s, sep)
    case None =>
    case Some(i) =>
      var rest := s[i + |sep|..];
      SplitPiecesFree(rest, sep);
      var head := s[..i];
      if Contains(head, sep) {
        var j :| 0 <= j <= |head| - |sep| && OccursAt(head, sep, j);
        assert head[j..j + |sep|] == s[j..j + |sep|];
        assert OccursAt(s, sep, j);
        assert false;
      }
      var parts := Split(s, sep);
      assert parts == [head] + Split(rest, sep);
      forall k | 0 <= k < |parts|
        ensures !Contains(parts[k], sep)
      {
        if k > 0 {
          assert parts[k] == Split(rest, sep)[k - 1];
        }
      }
  }

  /** A text without the separator splits into itself alone. */
  lemma SplitNoSeparator(s: string, sep: string)
    requires |sep| > 0
    requires !Contains(s, sep)
    ensures Split(s, sep) == [s]
  {
  }

  /** When the first occurrence of `sep` is right after `pre`, the first piece is `pre`. */
  lemma SplitFirstOccurrence(pre: string, sep: string, post: string)
    requires |sep| > 0
    requires !Contains(pre + sep[..|sep| - 1], sep)
    ensures Split(pre + sep + post, sep) == [pre] + Split(post, sep)
  {
    var s := pre + sep + post;
    var short := pre + sep[..|sep| - 1];
    assert s[|pre|..|pre| + |sep|] == sep;
    assert OccursAt(s, sep, |pre|);
    forall j | 0 <= j < |pre|
      ensures !OccursAt(s, sep, j)
    {
      if OccursAt(s, sep, j) {
        assert s[..|short|] == short;
        assert short[j..j + |sep|] == s[j..j + |sep|];
        assert OccursAt(short, sep, j);
        assert false;
      }
    }
    assert Find(s, sep) == Some(|pre|);
    assert s[..|pre|] == pre;
    assert s[|pre| + |sep|..] == post;
  }

  /** Splitting on one character: the first piece is everything before its first occurrence. */
  lemma SplitAtChar(pre: string, c: char, post: string)
    requires c !in pre
    ensures Split(pre + [c] + post, [c]) == [pre] + Split(post, [c])
  {
    assert [c][..0] == [];
    assert pre + [c][..0] == pre;
    ContainsChar(pre, c);
    SplitFirstOccurrence(pre, [c], post);
  }

  /** A text starting with the separator character splits first into an empty piece. */
  lemma SplitLeadingChar(c: char, post: string)
    ensures Split([c] + post, [c]) == [""] + Split(post, [c])
  {
    var s := [c] + post;
    assert s[0..1] == [c];
    assert Find(s, [c]) == Some(0);
    assert s[1..] == post;
  }

  /** Joining pieces that do not contain a one-character separator and splitting again gives
      the pieces back. */
  lemma {:induction false} JoinSplitChar(parts: seq<string>, c: char)
    requires |parts| >= 1
    requires forall k :: 0 <= k < |parts| ==> c !in parts[k]
    ensures Split(Join(parts, [c]), [c]) == parts
    decreases |parts|
  {
    if |parts| == 1 {
      ContainsChar(parts[0], c);
    } else {
      JoinSplitChar(parts[1..], c);
      SplitAtChar(parts[0], c, Join(parts[1..], [c]));
      assert parts == [parts[0]] + parts[1..];
    }
  }

  /** The number of pieces is one more than the number of separator characters. */
  lemma {:induction false} SplitCharCount(s: string, c: char)
    ensures |Split(s, [c])| == multiset(s)[c] + 1
    decreases |s|
  {
    match Find(s, [c])
    case None =>
      ContainsChar(s, c);
    case Some(i) =>
      var rest := s[i + 1..];
      SplitCharCount(rest, c);
      forall j | 0 <= j < i
        ensures s[j] != c
      {
        assert !OccursAt(s, [c], j);
        assert s[j..j + 1] == [s[j]];
      }
      assert s[i..i + 1] == [c];
      assert s == s[..i] + [c] + rest;
      assert c !in s[..i];
      assert multiset(s[..i])[c] == 0;
  }

  /** After the last separator character comes the last piece. */
  lemma {:induction false} LastPiece(pre: string, c: char, post: string)
    requires c !in post
    ensures var parts := Split(pre + [c] + post, [c]); parts[|parts| - 1] == post
    decreases |pre|
  {
    var s := pre + [c] + post;
    assert OccursAt(s, [c], |pre|);
    var i := Find(s, [c]).value;
    assert s[i] == s[i..i + 1][0] == c;
    ContainsChar(post, c);
    if i == |pre| {
      assert s[..i] == pre;
      assert s[i + 1..] == post;
      SplitNoSeparator(post, [c]);
    } else {
      assert s[i + 1..] == pre[i + 1..] + [c] + post;
      LastPiece(pre[i + 1..], c, post);
    }
  }

  /** Every character of a piece occurs in the split text. */
  lemma {:induction false} SplitChars(s: string, sep: string)
    requires |sep| > 0
    ensures forall k, x :: 0 <= k < |Split(s, sep)| && x in Split(s, sep)[k] ==> x in s
    decreases |s|
  {
    match Find(s, sep)
    case None =>
    case Some(i) =>
      var rest := s[i + |sep|..];
      SplitChars(rest, sep);
      var parts := Split(s, sep);
      forall k, x | 0 <= k < |parts| && x in parts[k]
        ensures x in s
      {
        if k == 0 {
          assert x in s[..i];
        } else {
          assert parts[k] == Split(rest, sep)[k - 1];
          assert x in rest;
        }
      }
  }

  /** Every character of a join comes from a part or from the separator. */
  lemma {:induction false} JoinChars(parts: seq<string>, sep: string)
    ensures forall x :: x in Join(parts, sep) ==> x in sep || exists k :: 0 <= k < |parts| && x in parts[k]
    decreases |parts|
  {
    if |parts| > 1 {
      JoinChars(parts[1..], sep);
      forall x | x in Join(parts, sep)
        ensures x in sep || exists k :: 0 <= k < |parts| && x in parts[k]
      {
        if x in Join(parts[1..], sep) && x !in sep {
          var k :| 0 <= k < |parts[1..]| && x in parts[1..][k];
          assert x in parts[k + 1];
        }
      }
    }
  }

  /** Deleting occurrences of `target` never introduces a character. */
  lemma DeleteKeepsChars(s: string, target: string)
    requires |target| > 0
    ensures forall x :: x in Replace(s, target, "") ==> x in s
  {
    SplitChars(s, target);
    JoinChars(Split(s, target), "");
  }

  /** Deleting a character removes every occurrence of it. */
  lemma DeleteCharRemovesIt(s: string, c: char)
    ensures c !in Replace(s, [c], "")
  {
    var parts := Split(s, [c]);
    SplitPiecesFree(s, [c]);
    forall k | 0 <= k < |parts|
      ensures c !in parts[k]
    {
      ContainsChar(parts[k], c);
    }
    JoinChars(parts, "");
  }

  /** Deleting a pattern that does not occur changes nothing. */
  lemma DeleteAbsent(s: string, target: string)
    requires |target| > 0
    requires !Contains(s, target)
    ensures Replace(s, target, "") == s
  {
  }

  /** Replacing one character by another works position by position. */
  lemma {:induction false} ReplaceChar(s: string, a: char, b: char)
    ensures Replace(s, [a], [b]) == Substitute(s, a, b)
    decreases |s|
  {
    match Find(s, [a])
    case None =>
      ContainsChar(s, a);
    case Some(i) =>
      var rest := s[i + 1..];
      ReplaceChar(rest, a, b);
      assert Split(s, [a]) == [s[..i]] + Split(rest, [a]);
      JoinCons(s[..i], Split(rest, [a]), [b]);
      assert Replace(s, [a], [b]) == s[..i] + [b] + Substitute(rest, a, b);
      assert s[i] == s[i..i + 1][0] == a;
      forall j | 0 <= j < i
        ensures s[j] != a
      {
        assert !OccursAt(s, [a], j);
        assert s[j..j + 1] == [s[j]];
      }
      var r := s[..i] + [b] + Substitute(rest, a, b);
      forall j | 0 <= j < |s|
        ensures r[j] == Substitute(s, a, b)[j]
      {
        if j > i {
          assert r[j] == Substitute(rest, a, b)[j - i - 1];
          assert rest[j - i - 1] == s[j];
        }
      }
  }
}
