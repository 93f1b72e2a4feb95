/** String helpers shared by the serialiser, the prompt builder and the reply cleaner:
    prefix and suffix tests, and Python's `str.strip()` with no arguments. */
module Text {

  /** `pre` is a prefix of `s`. */
  predicate StartsWith(s: string, pre: string) {
    |pre| <= |s| && s[..|pre|] == pre
  }

  /** `suf` is a suffix of `s`. */
  predicate EndsWith(s: string, suf: string) {
    |suf| <= |s| && s[|s| - |suf|..] == suf
  }

  lemma StartsWithAppend(a: string, b: string)
    ensures StartsWith(a + b, a)
  {
    assert (a + b)[..|a|] == a;
  }

  lemma StartsWithTrans(s: string, t: string, pre: string)
    requires StartsWith(s, t) && StartsWith(t, pre)
    ensures StartsWith(s, pre)
  {
    assert s[..|pre|] == s[..|t|][..|pre|];
  }

  /** Python 3's `str.isspace()`: the characters `str.strip()` removes when given no argument. */
  predicate IsSpace(c: char) {
    c == ' ' || ('\t' <= c <= '\r') || ('\U{1C}' <= c <= '\U{1F}') || c == '\U{85}' || c == '\U{A0}'
    || c == '\U{1680}' || ('\U{2000}' <= c <= '\U{200A}') || c == '\U{2028}' || c == '\U{2029}'
    || c == '\U{202F}' || c == '\U{205F}' || c == '\U{3000}'
  }

  predicate AllSpace(s: string) {
    forall i :: 0 <= i < |s| ==> IsSpace(s[i])
  }

  /** Neither the first nor the last character is whitespace. */
  predicate Trimmed(s: string) {
    |s| == 0 || (!IsSpace(s[0]) && !IsSpace(s[|s| - 1]))
  }

  /** Length of the leading whitespace run of `s`. */
  function LeadingSpace(s: string): (k: nat)
    ensures k <= |s| && AllSpace(s[..k])
    ensures k < |s| ==> !IsSpace(s[k])
  {
    if |s| == 0 || !IsSpace(s[0]) then 0
    else
      var k := 1 + LeadingSpace(s[1..]);
      assert s[..k] == [s[0]] + s[1..][..k - 1];
      k
  }

  /** Length of `s` once its trailing whitespace run is cut off. */
  function TrailingCut(s: string): (j: nat)
    ensures j <= |s| && AllSpace(s[j..])
    ensures j > 0 ==> !IsSpace(s[j - 1])
  {
    if |s| == 0 || !IsSpace(s[|s| - 1]) then |s|
    else
      var j := TrailingCut(s[..|s| - 1]);
      assert s[j..] == s[..|s| - 1][j..] + [s[|s| - 1]];
      j
  }

  /** Python `s.strip()`: `s` without its leading and trailing whitespace. */
  function Strip(s: string): (r: string)
    ensures Trimmed(r)
    ensures exists i, j :: 0 <= i <= j <= |s| && r == s[i..j] && AllSpace(s[..i]) && AllSpace(s[j..])
  {
    var i := LeadingSpace(s);
    if i == |s| then
      assert s[i..] == [];
      ""
    else
      var j := i + TrailingCut(s[i..]);
      assert s[j..] == s[i..][j - i..];
      assert s[i..j] == s[i..][..j - i];
      s[i..j]
  }

  /** Stripping removes exactly the whitespace around `s`: a string that has none is left as it is,
      and one that is whitespace only becomes empty. */
  lemma StripKeepsTrimmed(s: string)
    requires Trimmed(s)
    ensures Strip(s) == s
  {
    if |s| > 0 {
      assert LeadingSpace(s) == 0;
      assert TrailingCut(s) == |s|;
      assert s[0..|s|] == s;
    }
  }

  lemma {:induction false} StripBlank(s: string)
    ensures Strip(s) == "" <==> AllSpace(s)
  {
    var i := LeadingSpace(s);
    if i < |s| {
      assert !IsSpace(s[i]);
      var j := i + TrailingCut(s[i..]);
      assert s[i..][0] == s[i];
      assert j > i;
    } else {
      assert s == s[..i];
    }
  }
}
