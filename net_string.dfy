/**
 * The two .NET string operations the builder utilities rely on:
 * `String.IndexOf(char)` and `String.Replace(string, string)`.
 */
module NetString {

  /** `s.IndexOf(c)`: the index of the first `c` in `s`, or -1 when there is none. */
  function IndexOf(s: string, c: char): (r: int)
    ensures -1 <= r < |s|
    ensures r == -1 <==> c !in s
    ensures 0 <= r ==> s[r] == c && c !in s[..r]
  {
    if |s| == 0 then -1
    else if s[0] == c then 0
    else
      var k := IndexOf(s[1..], c);
      if k == -1 then -1
      else
        assert s[..k + 1] == [s[0]] + s[1..][..k];
        k + 1
  }

  /**
   * `s.Replace(oldValue, newValue)`: every occurrence of `oldValue`, found
   * scanning left to right without overlaps, is replaced by `newValue`.
   * .NET rejects an empty `oldValue`, hence the precondition.
   */
  function ReplaceAll(s: string, oldValue: string, newValue: string): (r: string)
    requires |oldValue| > 0
    ensures forall c :: c in r ==> c in s || c in newValue
    decreases |s|
  {
    if |s| < |oldValue| then s
    else if s[..|oldValue|] == oldValue then newValue + ReplaceAll(s[|oldValue|..], oldValue, newValue)
    else [s[0]] + ReplaceAll(s[1..], oldValue, newValue)
  }

  /** Unfolding of `ReplaceAll` for a one-character pattern on a non-empty string. */
  lemma ReplaceCharUnfold(s: string, c: char, newValue: string)
    requires |s| > 0
    ensures ReplaceAll(s, [c], newValue)
         == (if s[0] == c then newValue else [s[0]]) + ReplaceAll(s[1..], [c], newValue)
  {
    assert s[..1] == [s[0]];
  }

  /** Replacing a character by a text that does not contain it leaves no occurrence of it. */
  lemma {:induction false} ReplaceCharRemoves(s: string, c: char, newValue: string)
    requires c !in newValue
    ensures c !in ReplaceAll(s, [c], newValue)
    decreases |s|
  {
    if |s| > 0 {
      ReplaceCharUnfold(s, c, newValue);
      ReplaceCharRemoves(s[1..], c, newValue);
    }
  }

  /**
   * Replacing one character by another is a position-wise map: the length is
   * kept and every `a` becomes `b`, every other character stays.
   */
  lemma {:induction false} ReplaceCharByChar(s: string, a: char, b: char)
    ensures |ReplaceAll(s, [a], [b])| == |s|
    ensures forall i :: 0 <= i < |s| ==> ReplaceAll(s, [a], [b])[i] == if s[i] == a then b else s[i]
    decreases |s|
  {
    if |s| > 0 {
      ReplaceCharUnfold(s, a, [b]);
      ReplaceCharByChar(s[1..], a, b);
    }
  }

  /**
   * Escaping a character `c` as `escape` and then replacing `escape` back by
   * `c` gives the original text, provided the text never contains the first
   * character of `escape`.
   */
  lemma {:induction false} ReplaceCharInverse(t: string, c: char, escape: string)
    requires |escape| > 0
    requires escape[0] !in t
    ensures ReplaceAll(ReplaceAll(t, [c], escape), escape, [c]) == t
    decreases |t|
  {
    if |t| > 0 {
      var rest := ReplaceAll(t[1..], [c], escape);
      ReplaceCharUnfold(t, c, escape);
      ReplaceCharInverse(t[1..], c, escape);
      if t[0] == c {
        var e := escape + rest;
        assert e[..|escape|] == escape && e[|escape|..] == rest;
      } else {
        var e := [t[0]] + rest;
        if |e| >= |escape| {
          assert e[..|escape|][0] == t[0] != escape[0];
          assert e[1..] == rest;
        } else {
          assert ReplaceAll(rest, escape, [c]) == rest;
        }
      }
    }
  }
}
