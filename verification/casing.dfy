/** Python's `str.title()` on ASCII letters. */
module Casing {

  predicate IsUpper(c: char) {
    'A' <= c <= 'Z'
  }

  predicate IsLower(c: char) {
    'a' <= c <= 'z'
  }

  predicate IsLetter(c: char) {
    IsUpper(c) || IsLower(c)
  }

  function ToUpper(c: char): (u: char)
    ensures IsLetter(c) ==> IsUpper(u)
    ensures !IsLower(c) ==> u == c
  {
    if IsLower(c) then (c as int - 32) as char else c
  }

  function ToLower(c: char): (l: char)
    ensures IsLetter(c) ==> IsLower(l)
    ensures !IsUpper(c) ==> l == c
  {
    if IsUpper(c) then (c as int + 32) as char else c
  }

  /** The case a letter takes in a title: upper case at the start of a word, lower case after
      another letter. */
  function TitleCase(c: char, afterLetter: bool): char {
    if afterLetter then ToLower(c) else ToUpper(c)
  }

  /** Title-casing the rest of a text, `afterLetter` telling whether a letter precedes it. */
  function TitleFrom(s: string, afterLetter: bool): (r: string)
    ensures |r| == |s|
    ensures forall i :: 0 <= i < |s| ==>
      r[i] == TitleCase(s[i], if i == 0 then afterLetter else IsLetter(s[i - 1]))
    decreases |s|
  {
    if |s| == 0 then ""
    else [TitleCase(s[0], afterLetter)] + TitleFrom(s[1..], IsLetter(s[0]))
  }

  /** Python's `s.title()`: each letter that starts a word becomes upper case, each letter
      that follows a letter becomes lower case, and other characters are kept. */
  function Title(s: string): (r: string)
    ensures |r| == |s|
    ensures forall i :: 0 <= i < |s| && IsLetter(s[i]) ==>
      if i == 0 || !IsLetter(s[i - 1]) then IsUpper(r[i]) else IsLower(r[i])
    ensures forall i :: 0 <= i < |s| && !IsLetter(s[i]) ==> r[i] == s[i]
    ensures forall i :: 0 <= i < |s| ==> ToLower(r[i]) == ToLower(s[i])
  {
    var r := TitleFrom(s, false);
    forall i | 0 <= i < |s|
      ensures !IsLetter(s[i]) ==> r[i] == s[i]
      ensures ToLower(r[i]) == ToLower(s[i])
    {
      var c := s[i];
      var after := if i == 0 then false else IsLetter(s[i - 1]);
      assert r[i] == TitleCase(c, after);
      if IsUpper(c) {
        assert ToLower(ToUpper(c)) == ToLower(c);
      } else if IsLower(c) {
        assert ToUpper(c) as int == c as int - 32;
      }
    }
    r
  }
}
