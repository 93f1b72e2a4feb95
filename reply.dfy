/** Cleaning the model's reply before it is parsed as JSON: every "```json" is
    removed, then every "```", and the result is stripped of surrounding whitespace. */
module Reply {
  import opened Text

  /** `pat` occurs somewhere in `s`. */
  predicate Contains(s: string, pat: string) {
    StartsWith(s, pat) || (s != [] && Contains(s[1..], pat))
  }

  /** Python's `s.replace(pat, "")`: the occurrences of `pat` found scanning from the
      left, without overlap, are deleted. */
  function Remove(s: string, pat: string): (r: string)
    requires pat != []
    ensures |r| <= |s|
  {
    if |s| < |pat| then s
    else if s[..|pat|] == pat then Remove(s[|pat|..], pat)
    else [s[0]] + Remove(s[1..], pat)
  }

  const Fence := "```"
  const JsonFence := "```json"

  /** `raw.replace("```json", "").replace("```", "").strip()`: the cleaned reply holds
      no fence and no surrounding whitespace. */
  function Clean(raw: string): (r: string)
    ensures !Contains(r, Fence)
    ensures Trimmed(r)
  {
    var x := Remove(Remove(raw, JsonFence), Fence);
    assert Fence == ['`', '`', '`'];
    RemoveRunFree(Remove(raw, JsonFence), '`');
    StripKeepsAbsent(x, Fence);
    Strip(x)
  }

  // ---------------------------------------------------------------------------
  // Occurrences

  lemma {:induction false} ContainsInSuffix(s: string, pat: string, i: nat)
    requires i <= |s| && Contains(s[i..], pat)
    ensures Contains(s, pat)
    decreases i
  {
    if i > 0 {
      assert s[1..][i - 1..] == s[i..];
      ContainsInSuffix(s[1..], pat, i - 1);
    } else {
      assert s[i..] == s;
    }
  }

  lemma {:induction false} ContainsInPrefix(s: string, pat: string, j: nat)
    requires j <= |s| && Contains(s[..j], pat)
    ensures Contains(s, pat)
    decreases j
  {
    if StartsWith(s[..j], pat) {
      assert s[..|pat|] == s[..j][..|pat|];
    } else {
      assert s[..j][1..] == s[1..][..j - 1];
      ContainsInPrefix(s[1..], pat, j - 1);
    }
  }

  /** A piece of a text without `pat` has no `pat` either. */
  lemma ContainsInSlice(s: string, pat: string, i: nat, j: nat)
    requires i <= j <= |s| && Contains(s[i..j], pat)
    ensures Contains(s, pat)
  {
    assert s[i..j] == s[i..][..j - i];
    ContainsInPrefix(s[i..], pat, j - i);
    ContainsInSuffix(s, pat, i);
  }

  lemma {:induction false} TooShort(s: string, pat: string)
    requires |s| < |pat|
    ensures !Contains(s, pat)
    decreases |s|
  {
    if s != [] {
      TooShort(s[1..], pat);
    }
  }

  /** A text that holds a longer pattern holds every prefix of it. */
  lemma {:induction false} ContainsShorter(s: string, pat: string, pre: string)
    requires StartsWith(pat, pre) && Contains(s, pat)
    ensures Contains(s, pre)
    decreases |s|
  {
    if StartsWith(s, pat) {
      assert s[..|pre|] == s[..|pat|][..|pre|];
    } else {
      ContainsShorter(s[1..], pat, pre);
    }
  }

  // ---------------------------------------------------------------------------
  // Removal

  /** A text without `pat` is left unchanged. */
  lemma {:induction false} RemoveAbsent(s: string, pat: string)
    requires pat != [] && !Contains(s, pat)
    ensures Remove(s, pat) == s
    decreases |s|
  {
    if |s| >= |pat| {
      RemoveAbsent(s[1..], pat);
      assert [s[0]] + s[1..] == s;
    }
  }

  /** When `s` does not open with `pat`, its first character survives the removal. */
  lemma RemoveKeepsHead(s: string, pat: string)
    requires pat != [] && s != [] && !StartsWith(s, pat)
    ensures Remove(s, pat) != [] && Remove(s, pat)[0] == s[0]
  {
  }

  /** Deleting a run of three equal characters leaves no such run behind: a kept
      character that begins a run is never followed by a deletion. */
  lemma {:induction false} RemoveRunFree(s: string, c: char)
    ensures !Contains(Remove(s, [c, c, c]), [c, c, c])
    decreases |s|
  {
    var run := [c, c, c];
    if |s| < 3 {
      TooShort(s, run);
    } else if s[..3] == run {
      RemoveRunFree(s[3..], c);
    } else {
      var t := s[1..];
      var r := Remove(t, run);
      RemoveRunFree(t, c);
      assert Remove(s, run) == [s[0]] + r;
      assert ([s[0]] + r)[1..] == r;
      if s[0] == c {
        // `t` cannot open with the run, or `s` would have
        assert !StartsWith(t, run);
        RemoveKeepsHead(t, run);
        if t[0] == c {
          assert s[2] != c by { assert s[..3] == [s[0], s[1], s[2]]; }
          var u := t[1..];
          if |t| < 3 {
            assert r == t;
          } else {
            assert r == [t[0]] + Remove(u, run);
            assert u[0] == s[2];
            assert !StartsWith(u, run);
            RemoveKeepsHead(u, run);
          }
          assert r[1] != c;
        }
        assert !StartsWith([s[0]] + r, run);
      } else {
        assert ([s[0]] + r)[0] != c;
      }
    }
  }

  // ---------------------------------------------------------------------------
  // The cleaned reply

  /** Stripping cannot create an occurrence that was not there. */
  lemma StripKeepsAbsent(x: string, pat: string)
    requires !Contains(x, pat)
    ensures !Contains(Strip(x), pat)
  {
    var i, j :| 0 <= i <= j <= |x| && Strip(x) == x[i..j] && AllSpace(x[..i]) && AllSpace(x[j..]);
    if Contains(Strip(x), pat) {
      ContainsInSlice(x, pat, i, j);
    }
  }

  /** A reply with no fence and no surrounding whitespace is returned unchanged. */
  lemma CleanKeepsPlainReply(raw: string)
    requires !Contains(raw, Fence) && Trimmed(raw)
    ensures Clean(raw) == raw
  {
    assert StartsWith(JsonFence, Fence);
    if Contains(raw, JsonFence) {
      ContainsShorter(raw, JsonFence, Fence);
    }
    RemoveAbsent(raw, JsonFence);
    RemoveAbsent(raw, Fence);
    StripKeepsTrimmed(raw);
  }

  /** Deleting a leading occurrence is the first step of the scan. */
  lemma RemoveLeading(pat: string, y: string)
    requires pat != []
    ensures Remove(pat + y, pat) == Remove(y, pat)
  {
    assert (pat + y)[..|pat|] == pat;
    assert (pat + y)[|pat|..] == y;
  }

  /** A text not led by `pre` is not led by anything that begins with `pre`. */
  lemma NotLedByLonger(s: string, longer: string, pre: string)
    requires StartsWith(longer, pre) && !StartsWith(s, pre)
    ensures !StartsWith(s, longer)
  {
  }

  /** A text without "```" followed by a closing fence holds no "```json": an
      occurrence would need three backticks inside the text or seven characters
      after its last two. */
  lemma {:induction false} NoJsonFenceBeforeFence(x: string)
    requires !Contains(x, Fence)
    ensures !Contains(x + Fence, JsonFence)
    decreases |x|
  {
    var s := x + Fence;
    if x == [] {
      TooShort(s, JsonFence);
    } else {
      if |x| >= 3 {
        assert s[..3] == x[..3];
        assert StartsWith(JsonFence, Fence);
        NotLedByLonger(s, JsonFence, Fence);
      }
      assert s[1..] == x[1..] + Fence;
      NoJsonFenceBeforeFence(x[1..]);
    }
  }

  /** Deleting every "```" from a text without one, followed by a closing fence,
      gives back the text. When the text ends in backticks the scan deletes an earlier
      run of three than the appended one, with the same result. */
  lemma {:induction false} RemoveFenceSuffix(x: string)
    requires !Contains(x, Fence)
    ensures Remove(x + Fence, Fence) == x
    decreases |x|
  {
    var s := x + Fence;
    assert Fence == ['`', '`', '`'];
    if x == [] {
      assert s == Fence;
      assert s[..3] == Fence && s[3..] == [];
    } else if |x| < 3 && s[..3] == Fence {
      // a text of one or two backticks: the scan opens a run inside it
      assert forall i :: 0 <= i < |x| ==> x[i] == s[..3][i] == '`';
      assert s[3..] == x;
      assert Remove(s, Fence) == Remove(s[3..], Fence);
    } else {
      if |x| >= 3 {
        assert s[..3] == x[..3];
      }
      assert s[1..] == x[1..] + Fence;
      assert Remove(s, Fence) == [s[0]] + Remove(x[1..] + Fence, Fence);
      RemoveFenceSuffix(x[1..]);
      assert [x[0]] + x[1..] == x;
    }
  }

  /** A reply wrapped in a "```json" ... "```" block is cleaned to its stripped
      payload. */
  lemma CleanFencedReply(x: string)
    requires !Contains(x, Fence)
    ensures Clean(JsonFence + x + Fence) == Strip(x)
  {
    assert JsonFence + x + Fence == JsonFence + (x + Fence);
    RemoveLeading(JsonFence, x + Fence);
    NoJsonFenceBeforeFence(x);
    RemoveAbsent(x + Fence, JsonFence);
    RemoveFenceSuffix(x);
  }
}
