/**
 * The pieces of Python's `str` behaviour the request handler relies on:
 * `str.replace` with no count argument, the `in` operator on strings and
 * the truthiness of an optional string.
 */
module PyStrings {
  import opened Wrappers

  /** `pat` starts at position `i` of `s`. */
  predicate MatchAt(s: string, pat: string, i: int) {
    0 <= i <= |s| && pat <= s[i..]
  }

  /** Python's `p in s`: `p` occurs somewhere in `s`. */
  predicate Contains(s: string, p: string) {
    exists i :: 0 <= i <= |s| && MatchAt(s, p, i)
  }

  /** Python truthiness of a value that is either `None` or a string. */
  predicate Truthy(v: Option<string>)
    ensures Truthy(v) <==> v != None && v != Some("")
  {
    v.Some? && v.value != ""
  }

  /**
   * `s.replace(pat, rep)`: scans left to right and replaces every
   * non-overlapping occurrence of `pat`. As in CPython, an empty `pat`
   * inserts `rep` before every character and once more at the end.
   */
  function ReplaceAll(s: string, pat: string, rep: string): (r: string)
    ensures rep == pat ==> r == s
    ensures pat != [] && |rep| <= |pat| ==> |r| <= |s|
    ensures pat != [] && |rep| >= |pat| ==> |r| >= |s|
    decreases |s|
  {
    if pat == [] then
      if s == [] then rep else rep + [s[0]] + ReplaceAll(s[1..], pat, rep)
    else if pat <= s then
      rep + ReplaceAll(s[|pat|..], pat, rep)
    else if s == [] then
      []
    else
      [s[0]] + ReplaceAll(s[1..], pat, rep)
  }

  /** A non-empty text where `pat` does not start: its first character is copied. */
  lemma ReplaceCopiesHead(t: string, pat: string, rep: string)
    requires pat != [] && t != [] && !MatchAt(t, pat, 0)
    ensures ReplaceAll(t, pat, rep) == [t[0]] + ReplaceAll(t[1..], pat, rep)
  {
    assert t[0..] == t;
  }

  /** Dropping the first character shifts every match one place to the left. */
  lemma MatchShift(t: string, pat: string, i: int)
    requires t != [] && 0 <= i
    ensures MatchAt(t[1..], pat, i) <==> MatchAt(t, pat, i + 1)
  {
    if i <= |t| - 1 {
      assert t[1..][i..] == t[i + 1..];
    }
  }

  /** Text in which `pat` does not occur comes back unchanged. */
  lemma {:induction false} ReplaceAbsent(s: string, pat: string, rep: string)
    requires pat != [] && !Contains(s, pat)
    ensures ReplaceAll(s, pat, rep) == s
  {
    if s != [] {
      assert !MatchAt(s, pat, 0);
      ReplaceCopiesHead(s, pat, rep);
      forall i | 0 <= i <= |s| - 1 ensures !MatchAt(s[1..], pat, i) {
        MatchShift(s, pat, i);
      }
      ReplaceAbsent(s[1..], pat, rep);
    }
  }

  /** No match in the first `n` positions of `t` means none in the first `n - 1` of its tail. */
  lemma NoMatchInTail(t: string, n: nat, pat: string)
    requires 0 < n <= |t|
    requires forall i :: 0 <= i < n ==> !MatchAt(t, pat, i)
    ensures forall i :: 0 <= i < n - 1 ==> !MatchAt(t[1..], pat, i)
  {
    forall i | 0 <= i < n - 1 ensures !MatchAt(t[1..], pat, i) {
      MatchShift(t, pat, i);
    }
  }

  /** One step of the scan past a prefix: copy the head, then the rest of the prefix. */
  lemma SkipStep(t: string, n: nat, pat: string, rep: string)
    requires pat != [] && 0 < n <= |t| && !MatchAt(t, pat, 0)
    requires ReplaceAll(t[1..], pat, rep) == t[1..][..n - 1] + ReplaceAll(t[1..][n - 1..], pat, rep)
    ensures ReplaceAll(t, pat, rep) == t[..n] + ReplaceAll(t[n..], pat, rep)
  {
    var x := ReplaceAll(t[n..], pat, rep);
    calc {
      ReplaceAll(t, pat, rep);
      == { ReplaceCopiesHead(t, pat, rep); }
      [t[0]] + ReplaceAll(t[1..], pat, rep);
      == { assert t[1..][n - 1..] == t[n..]; }
      [t[0]] + (t[1..][..n - 1] + x);
      == { ConsPrefix(t, n, x); }
      t[..n] + x;
    }
  }

  lemma ConsPrefix(t: string, n: nat, x: string)
    requires 0 < n <= |t|
    ensures [t[0]] + (t[1..][..n - 1] + x) == t[..n] + x
  {
    assert [t[0]] + t[1..][..n - 1] == t[..n];
  }

  /**
   * Left to right: the first `n` characters, at none of which `pat`
   * starts, are copied as they are and the scan resumes right after them.
   */
  lemma {:induction false} ReplaceSkipsPrefix(t: string, n: nat, pat: string, rep: string)
    requires pat != [] && n <= |t|
    requires forall i :: 0 <= i < n ==> !MatchAt(t, pat, i)
    ensures ReplaceAll(t, pat, rep) == t[..n] + ReplaceAll(t[n..], pat, rep)
  {
    if n > 0 {
      NoMatchInTail(t, n, pat);
      ReplaceSkipsPrefix(t[1..], n - 1, pat, rep);
      SkipStep(t, n, pat, rep);
    }
  }

  /** Text that starts with `pat` starts its output with `rep`. */
  lemma ReplaceMatchHead(pat: string, b: string, rep: string)
    requires pat != []
    ensures ReplaceAll(pat + b, pat, rep) == rep + ReplaceAll(b, pat, rep)
  {
    assert pat <= pat + b;
    assert (pat + b)[|pat|..] == b;
  }

  /**
   * The first occurrence of `pat` is the one replaced: everything before it
   * is copied, it becomes `rep`, and the rest is processed on its own.
   */
  lemma ReplaceFirstOccurrence(a: string, b: string, pat: string, rep: string)
    requires pat != []
    requires forall i :: 0 <= i < |a| ==> !MatchAt(a + pat + b, pat, i)
    ensures ReplaceAll(a + pat + b, pat, rep) == a + rep + ReplaceAll(b, pat, rep)
  {
    var t := a + pat + b;
    calc {
      ReplaceAll(t, pat, rep);
      == { ReplaceSkipsPrefix(t, |a|, pat, rep); }
      t[..|a|] + ReplaceAll(t[|a|..], pat, rep);
      == { assert t[..|a|] == a; assert t[|a|..] == pat + b; }
      a + ReplaceAll(pat + b, pat, rep);
      == { ReplaceMatchHead(pat, b, rep); }
      a + (rep + ReplaceAll(b, pat, rep));
    }
  }

  /**
   * When `rep` is not empty, output characters before the first
   * replacement are input characters, so a prefix of the output free of
   * `rep[0]` is a prefix of the input.
   */
  lemma {:induction false} OutputPrefixIsInputPrefix(t: string, q: string, pat: string, rep: string)
    requires pat != [] && rep != [] && rep[0] !in q
    ensures q <= ReplaceAll(t, pat, rep) ==> q <= t
  {
    var out := ReplaceAll(t, pat, rep);
    if pat <= t {
      assert out[0] == rep[0];
      assert q != [] ==> q[0] in q;
    } else if t != [] {
      var rest := ReplaceAll(t[1..], pat, rep);
      assert out == [t[0]] + rest;
      if q != [] {
        assert forall c :: c in q[1..] ==> c in q;
        OutputPrefixIsInputPrefix(t[1..], q[1..], pat, rep);
        assert q == [q[0]] + q[1..];
      }
    }
  }

  /**
   * After `s.replace(pat, rep)` with a non-empty `rep` that shares no
   * character with `pat`, no occurrence of `pat` is left: the replacement
   * can neither contain one nor create one at a seam.
   */
  lemma {:induction false} ReplaceLeavesNoOccurrence(s: string, pat: string, rep: string)
    requires pat != [] && rep != []
    requires forall j :: 0 <= j < |rep| ==> rep[j] !in pat
    ensures !Contains(ReplaceAll(s, pat, rep), pat)
  {
    if pat <= s {
      ReplaceLeavesNoOccurrence(s[|pat|..], pat, rep);
      NoOccurrenceAfterReplacement(rep, ReplaceAll(s[|pat|..], pat, rep), pat);
    } else if s != [] {
      ReplaceLeavesNoOccurrence(s[1..], pat, rep);
      NoOccurrenceAfterCopiedHead(s, pat, rep);
    }
  }

  /** A replacement sharing no character with `pat`, put before text without `pat`, creates none. */
  lemma NoOccurrenceAfterReplacement(rep: string, rest: string, pat: string)
    requires pat != []
    requires forall j :: 0 <= j < |rep| ==> rep[j] !in pat
    requires !Contains(rest, pat)
    ensures !Contains(rep + rest, pat)
  {
    var out := rep + rest;
    assert pat[0] in pat;
    forall i | 0 <= i <= |out| ensures !MatchAt(out, pat, i) {
      if i < |rep| {
        assert out[i..][0] == rep[i];
      } else {
        assert out[i..] == rest[i - |rep|..];
        assert !MatchAt(rest, pat, i - |rep|);
      }
    }
  }

  /** A copied head character where `pat` does not start cannot begin an occurrence in the output. */
  lemma NoOccurrenceAfterCopiedHead(s: string, pat: string, rep: string)
    requires pat != [] && rep != [] && s != [] && !(pat <= s)
    requires forall j :: 0 <= j < |rep| ==> rep[j] !in pat
    requires !Contains(ReplaceAll(s[1..], pat, rep), pat)
    ensures !Contains([s[0]] + ReplaceAll(s[1..], pat, rep), pat)
  {
    var rest := ReplaceAll(s[1..], pat, rep);
    var out := [s[0]] + rest;
    forall i | 0 <= i <= |out| ensures !MatchAt(out, pat, i) {
      if i == 0 {
        var tail := pat[1..];
        assert forall c :: c in tail ==> c in pat;
        OutputPrefixIsInputPrefix(s[1..], tail, pat, rep);
        assert pat <= out ==> tail <= rest;
        assert pat == [pat[0]] + tail;
      } else {
        assert out[i..] == rest[i - 1..];
        assert !MatchAt(rest, pat, i - 1);
      }
    }
  }
}
