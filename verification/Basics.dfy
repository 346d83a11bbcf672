module Basics {
  datatype Option<+T> = None | Some(value: T)

  ghost predicate Distinct<T>(s: seq<T>) {
    forall i, j :: 0 <= i < j < |s| ==> s[i] != s[j]
  }

  // Case is that of ASCII letters.

  function Lower(c: char): char {
    if 'A' <= c <= 'Z' then (c as int + 32) as char else c
  }

  function ToLower(s: string): string {
    seq(|s|, i requires 0 <= i < |s| => Lower(s[i]))
  }

  predicate EqualFold(a: string, b: string) {
    ToLower(a) == ToLower(b)
  }

  /** One character is the capital of the other. */
  ghost predicate IsCapital(c: char, d: char) {
    'A' <= c <= 'Z' && d as int == c as int + 32
  }

  /** Texts are alike exactly if they are, character by character, up to capitals. */
  lemma FoldsExactly(a: string, b: string)
    ensures EqualFold(a, b) <==>
      |a| == |b| && forall i :: 0 <= i < |a| ==> a[i] == b[i] || IsCapital(a[i], b[i]) || IsCapital(b[i], a[i])
  {
    assert EqualFold(a, b) ==> |a| == |ToLower(a)| == |ToLower(b)| == |b|;
    if |a| == |b| {
      forall i | 0 <= i < |a|
        ensures ToLower(a)[i] == ToLower(b)[i] <==> a[i] == b[i] || IsCapital(a[i], b[i]) || IsCapital(b[i], a[i])
      {
        assert ToLower(a)[i] == Lower(a[i]) && ToLower(b)[i] == Lower(b[i]);
      }
    }
  }
}
