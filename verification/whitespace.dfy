/** Python's notion of whitespace, `str.strip()` and `str.split(maxsplit=1)`. */
module Whitespace {

  /** Python's `c.isspace()`: the Unicode characters of bidirectional class WS, B or S, or
      of general category Zs. */
  predicate IsSpace(c: char) {
    || ('\t' <= c <= '\r')
    || ('\U{1C}' <= c <= ' ')
    || c == '\U{85}'
    || c == '\U{A0}'
    || c == '\U{1680}'
    || ('\U{2000}' <= c <= '\U{200A}')
    || c == '\U{2028}'
    || c == '\U{2029}'
    || c == '\U{202F}'
    || c == '\U{205F}'
    || c == '\U{3000}'
  }

  predicate AllSpace(s: string) {
    forall i :: 0 <= i < |s| ==> IsSpace(s[i])
  }

  predicate NoSpace(s: string) {
    forall i :: 0 <= i < |s| ==> !IsSpace(s[i])
  }

  /** Python's `s.lstrip()`: `s` without its leading whitespace. */
  function TrimStart(s: string): (r: string)
    ensures |r| <= |s| && r == s[|s| - |r|..]
    ensures AllSpace(s[..|s| - |r|])
    ensures r == "" || !IsSpace(r[0])
    decreases |s|
  {
    if |s| > 0 && IsSpace(s[0]) then
      var r := TrimStart(s[1..]);
      assert s[..|s| - |r|] == [s[0]] + s[1..][..|s| - 1 - |r|];
      r
    else s
  }

  /** Python's `s.rstrip()`: `s` without its trailing whitespace. */
  function TrimEnd(s: string): (r: string)
    ensures |r| <= |s| && r == s[..|r|]
    ensures AllSpace(s[|r|..])
    ensures r == "" || !IsSpace(r[|r| - 1])
    decreases |s|
  {
    if |s| > 0 && IsSpace(s[|s| - 1]) then
      var r := TrimEnd(s[..|s| - 1]);
      assert s[|r|..] == s[..|s| - 1][|r|..] + [s[|s| - 1]];
      r
    else s
  }

  /** Python's `s.strip()`. */
  function Strip(s: string): string {
    TrimEnd(TrimStart(s))
  }

  /** The length of the run of non-whitespace characters `s` starts with. */
  function WordEnd(s: string): (j: nat)
    ensures j <= |s|
    ensures NoSpace(s[..j])
    ensures j < |s| ==> IsSpace(s[j])
    decreases |s|
  {
    if |s| == 0 || IsSpace(s[0]) then 0
    else
      var j := 1 + WordEnd(s[1..]);
      assert s[..j] == [s[0]] + s[1..][..j - 1];
      j
  }

  /** Python's `s.split(maxsplit=1)`: the first whitespace-delimited word and, when
      anything but whitespace follows it, the remainder after the whitespace run. */
  function SplitOnce(s: string): (parts: seq<string>)
    ensures |parts| <= 2
    ensures |parts| == 0 <==> AllSpace(s)
    ensures |parts| >= 1 ==> |parts[0]| > 0 && NoSpace(parts[0])
    ensures |parts| == 2 ==> |parts[1]| > 0 && !IsSpace(parts[1][0])
  {
    var t := TrimStart(s);
    if t == "" then
      assert s[..|s|] == s;
      []
    else
      assert s[|s| - |t|] == t[0];
      assert !AllSpace(s) by {
        assert !IsSpace(s[|s| - |t|]);
      }
      var j := WordEnd(t);
      assert j > 0;
      var rest := TrimStart(t[j..]);
      if rest == "" then [t[..j]] else [t[..j], rest]
  }

  lemma TrimStartAfterSpace(lead: string, s: string)
    requires AllSpace(lead)
    requires s == "" || !IsSpace(s[0])
    ensures TrimStart(lead + s) == s
    decreases |lead|
  {
    if |lead| > 0 {
      assert (lead + s)[1..] == lead[1..] + s;
      TrimStartAfterSpace(lead[1..], s);
    }
  }

  lemma WordEndOf(word: string, s: string)
    requires NoSpace(word)
    requires s == "" || IsSpace(s[0])
    ensures WordEnd(word + s) == |word|
    decreases |word|
  {
    if |word| > 0 {
      assert (word + s)[1..] == word[1..] + s;
      WordEndOf(word[1..], s);
    }
  }

  /** A command word, a whitespace run and an argument split into the word and the argument;
      leading whitespace is skipped, trailing whitespace stays with the argument. */
  lemma {:induction false} SplitOnceWordAndRest(lead: string, word: string, gap: string, rest: string)
    requires AllSpace(lead) && AllSpace(gap) && |gap| > 0
    requires |word| > 0 && NoSpace(word)
    requires |rest| > 0 && !IsSpace(rest[0])
    ensures SplitOnce(lead + word + gap + rest) == [word, rest]
  {
    var s := lead + word + gap + rest;
    assert s == lead + (word + gap + rest);
    TrimStartAfterSpace(lead, word + gap + rest);
    assert word + gap + rest == word + (gap + rest);
    WordEndOf(word, gap + rest);
    assert (word + gap + rest)[..|word|] == word;
    assert (word + gap + rest)[|word|..] == gap + rest;
    TrimStartAfterSpace(gap, rest);
    assert !IsSpace(s[|lead|]);
  }

  /** The first part is the first word, whatever follows the whitespace after it. */
  lemma SplitOnceFirstWord(lead: string, word: string, rest: string)
    requires AllSpace(lead)
    requires |word| > 0 && NoSpace(word)
    requires rest == "" || IsSpace(rest[0])
    ensures |SplitOnce(lead + word + rest)| >= 1 && SplitOnce(lead + word + rest)[0] == word
  {
    var s := lead + word + rest;
    assert s == lead + (word + rest);
    TrimStartAfterSpace(lead, word + rest);
    WordEndOf(word, rest);
    assert (word + rest)[..|word|] == word;
    assert !IsSpace(s[|lead|]);
  }

  /** A word followed only by whitespace splits into the word alone. */
  lemma {:induction false} SplitOnceWordOnly(lead: string, word: string, trail: string)
    requires AllSpace(lead) && AllSpace(trail)
    requires |word| > 0 && NoSpace(word)
    ensures SplitOnce(lead + word + trail) == [word]
  {
    var s := lead + word + trail;
    assert s == lead + (word + trail);
    TrimStartAfterSpace(lead, word + trail);
    WordEndOf(word, trail);
    assert (word + trail)[..|word|] == word;
    assert (word + trail)[|word|..] == trail;
    TrimStartAfterSpace(trail, "");
    assert trail + "" == trail;
    assert !IsSpace(s[|lead|]);
  }

  lemma TrimEndBeforeSpace(s: string, trail: string)
    requires AllSpace(trail)
    requires s == "" || !IsSpace(s[|s| - 1])
    ensures TrimEnd(s + trail) == s
    decreases |trail|
  {
    if |trail| > 0 {
      assert (s + trail)[..|s + trail| - 1] == s + trail[..|trail| - 1];
      TrimEndBeforeSpace(s, trail[..|trail| - 1]);
    } else {
      assert s + trail == s;
    }
  }

  /** Whitespace around a text that neither starts nor ends with whitespace is stripped. */
  lemma StripPadded(lead: string, s: string, trail: string)
    requires AllSpace(lead) && AllSpace(trail)
    requires |s| > 0 && !IsSpace(s[0]) && !IsSpace(s[|s| - 1])
    ensures Strip(lead + s + trail) == s
  {
    assert lead + s + trail == lead + (s + trail);
    TrimStartAfterSpace(lead, s + trail);
    TrimEndBeforeSpace(s, trail);
  }
}
