/** `String.prototype.replace` with a global (`g`) regular expression.  The
    regular expression itself is supplied as a dedicated matcher: a function
    that, given the rest of the input, says whether the pattern matches at its
    first character, how many characters the match spans and what replaces
    it.  None of the patterns modelled here looks behind the match position,
    so the rest of the input is all a matcher needs. */
module Rewrite {
  import opened Wrappers
  import opened Text

  /** A match at the current position: its length and its replacement. */
  datatype Match = Match(len: nat, replacement: string)

  /** Every match a matcher reports is non-empty and lies within its input. */
  predicate Consumes(at: string -> Option<Match>, t: string) {
    at(t).Some? ==> 0 < at(t).value.len <= |t|
  }

  /** The left-to-right scan of a global replace: at each position try the
      pattern; on a match emit the replacement and resume after the match,
      otherwise copy one character and try at the next position. */
  function GlobalReplace(s: string, at: string -> Option<Match>): string
    requires forall t :: Consumes(at, t)
    decreases |s|
  {
    if |s| == 0 then ""
    else
      assert Consumes(at, s);
      match at(s)
      case Some(m) => m.replacement + GlobalReplace(s[m.len..], at)
      case None => [s[0]] + GlobalReplace(s[1..], at)
  }

  /** A match at the start is replaced and the scan resumes right after it. */
  lemma MatchStep(t: string, at: string -> Option<Match>, m: Match)
    requires forall u :: Consumes(at, u)
    requires 0 < |t| && at(t) == Some(m)
    ensures m.len <= |t|
    ensures GlobalReplace(t, at) == m.replacement + GlobalReplace(t[m.len..], at)
  {
    assert Consumes(at, t);
  }

  /** Where the pattern matches nowhere, the input comes back unchanged. */
  lemma {:induction false} NoMatchUnchanged(s: string, at: string -> Option<Match>)
    requires forall t :: Consumes(at, t)
    requires forall k :: 0 <= k < |s| ==> at(s[k..]).None?
    ensures GlobalReplace(s, at) == s
    decreases |s|
  {
    if |s| > 0 {
      assert at(s[0..]).None? && s[0..] == s;
      forall k | 0 <= k < |s| - 1 ensures at(s[1..][k..]).None? {
        assert s[1..][k..] == s[k + 1..];
      }
      NoMatchUnchanged(s[1..], at);
    }
  }

  /** A replace whose replacements are all empty only deletes characters. */
  lemma {:induction false} DeletionIsSubsequence(s: string, at: string -> Option<Match>)
    requires forall t :: Consumes(at, t)
    requires forall t :: at(t).Some? ==> at(t).value.replacement == ""
    ensures Subsequence(GlobalReplace(s, at), s)
    decreases |s|
  {
    if |s| > 0 {
      assert Consumes(at, s);
      match at(s)
      case Some(m) =>
        assert m.replacement == "";
        assert GlobalReplace(s, at) == GlobalReplace(s[m.len..], at);
        DeletionIsSubsequence(s[m.len..], at);
        SubsequenceOfSuffix(GlobalReplace(s[m.len..], at), s, m.len);
      case None =>
        DeletionIsSubsequence(s[1..], at);
    }
  }

  /** A replace whose replacements are as long as their matches keeps the
      length of the input. */
  lemma {:induction false} SameLengthReplace(s: string, at: string -> Option<Match>)
    requires forall t :: Consumes(at, t)
    requires forall t :: at(t).Some? ==> |at(t).value.replacement| == at(t).value.len
    ensures |GlobalReplace(s, at)| == |s|
    decreases |s|
  {
    if |s| > 0 {
      assert Consumes(at, s);
      match at(s)
      case Some(m) => SameLengthReplace(s[m.len..], at);
      case None => SameLengthReplace(s[1..], at);
    }
  }

  // ---------------------------------------------------------------------
  // replacing a literal, case-sensitive pattern (`/class=/g` and the like)

  /** The matcher of a literal pattern. */
  function LiteralAt(pat: string, rep: string): (at: string -> Option<Match>)
    ensures forall t :: Consumes(at, t)
  {
    t => if 0 < |pat| && StartsWith(t, pat) then Some(Match(|pat|, rep)) else None
  }

  /** `s.replace(/pat/g, rep)` for a pattern without metacharacters. */
  function ReplaceAll(s: string, pat: string, rep: string): string {
    GlobalReplace(s, LiteralAt(pat, rep))
  }

  /** The conditions under which no occurrence of `pat` survives replacing
      it by `rep`: the replacement does not contain the pattern, does not
      begin with a character the pattern has after its first, and no
      non-empty end of the replacement is a proper beginning of the pattern. */
  predicate CannotRecreate(pat: string, rep: string) {
    && 0 < |pat| && 0 < |rep|
    && (forall i :: 0 <= i <= |rep| ==> !OccursAt(rep, pat, i))
    && (forall j :: 1 <= j < |pat| ==> rep[0] != pat[j])
    && (forall m :: 0 < m < |pat| && m <= |rep| ==> rep[|rep| - m..] != pat[..m])
  }

  /** Unfolding one step of a literal replace. */
  lemma ReplaceStep(s: string, pat: string, rep: string)
    requires 0 < |s| && 0 < |pat|
    ensures StartsWith(s, pat) ==> ReplaceAll(s, pat, rep) == rep + ReplaceAll(s[|pat|..], pat, rep)
    ensures !StartsWith(s, pat) ==> ReplaceAll(s, pat, rep) == [s[0]] + ReplaceAll(s[1..], pat, rep)
  {
  }

  /** An output that begins with a proper tail of the pattern comes from an
      input that begins with that tail. */
  lemma {:induction false} TailComesFromInput(t: string, pat: string, rep: string, j: nat)
    requires CannotRecreate(pat, rep) && 1 <= j < |pat|
    ensures StartsWith(ReplaceAll(t, pat, rep), pat[j..]) ==> StartsWith(t, pat[j..])
    decreases |pat| - j
  {
    var r := ReplaceAll(t, pat, rep);
    var w := pat[j..];
    if |t| > 0 {
      ReplaceStep(t, pat, rep);
      if StartsWith(t, pat) {
        assert r[0] == rep[0] != pat[j] == w[0];
      } else if j + 1 < |pat| {
        var tail := ReplaceAll(t[1..], pat, rep);
        assert r == [t[0]] + tail;
        TailComesFromInput(t[1..], pat, rep, j + 1);
        if StartsWith(r, w) {
          assert tail[..|w| - 1] == r[1..|w|] == w[1..] == pat[j + 1..];
          assert t[..|w|] == [t[0]] + t[1..][..|w| - 1];
        }
      } else {
        assert |w| == 1;
        if StartsWith(r, w) {
          assert t[..1] == [t[0]] == [r[0]] == w;
        }
      }
    }
  }

  /** No occurrence of the pattern survives the replace. */
  lemma {:induction false} NoOccurrenceAt(s: string, pat: string, rep: string, i: nat)
    requires CannotRecreate(pat, rep)
    ensures !OccursAt(ReplaceAll(s, pat, rep), pat, i)
    decreases |s|
  {
    if |s| > 0 {
      ReplaceStep(s, pat, rep);
      if StartsWith(s, pat) {
        if i >= |rep| {
          NoOccurrenceAt(s[|pat|..], pat, rep, i - |rep|);
        }
        NoOccurrenceAfterReplacement(rep, ReplaceAll(s[|pat|..], pat, rep), pat, i);
      } else {
        if i > 0 {
          NoOccurrenceAt(s[1..], pat, rep, i - 1);
        }
        NoOccurrenceAfterCopy(s, ReplaceAll(s[1..], pat, rep), pat, rep, i);
      }
    }
  }

  /** Behind an emitted replacement, an occurrence could only lie wholly
      within what follows it. */
  lemma {:induction false} NoOccurrenceAfterReplacement(rep: string, tail: string, pat: string, i: nat)
    requires CannotRecreate(pat, rep)
    requires i >= |rep| ==> !OccursAt(tail, pat, i - |rep|)
    ensures !OccursAt(rep + tail, pat, i)
  {
    var r := rep + tail;
    if i + |pat| <= |rep| {
      assert !OccursAt(rep, pat, i);
      assert r[i..i + |pat|] == rep[i..i + |pat|];
    } else if i < |rep| {
      var m := |rep| - i;
      assert rep[|rep| - m..] != pat[..m];
      if i + |pat| <= |r| {
        assert r[i..i + m] == rep[i..] == rep[|rep| - m..];
        assert r[i..i + |pat|][..m] == r[i..i + m];
      }
    } else if i + |pat| <= |r| {
      assert r[i..i + |pat|] == tail[i - |rep|..i - |rep| + |pat|];
    }
  }

  /** Behind a copied character, an occurrence at the start would need the
      input to start with the pattern; any later one lies within the rest. */
  lemma {:induction false} NoOccurrenceAfterCopy(s: string, tail: string, pat: string, rep: string, i: nat)
    requires CannotRecreate(pat, rep) && 0 < |s| && !StartsWith(s, pat)
    requires tail == ReplaceAll(s[1..], pat, rep)
    requires i > 0 ==> !OccursAt(tail, pat, i - 1)
    ensures !OccursAt([s[0]] + tail, pat, i)
  {
    var r := [s[0]] + tail;
    if i == 0 {
      if |pat| == 1 {
        assert s[..1] == [s[0]];
        if 1 <= |r| { assert r[..1] == [s[0]]; }
      } else {
        TailComesFromInput(s[1..], pat, rep, 1);
        if |pat| <= |r| {
          assert r[..|pat|] == [s[0]] + tail[..|pat| - 1];
          if |pat| <= |s| {
            assert s[..|pat|][1..] == s[1..][..|pat| - 1];
            assert s[..|pat|] == [s[0]] + s[1..][..|pat| - 1];
          }
        }
      }
    } else if i + |pat| <= |r| {
      assert r[i..i + |pat|] == tail[i - 1..i - 1 + |pat|];
    }
  }

  /** Replacing a pattern that cannot be recreated leaves none behind. */
  lemma NoOccurrenceSurvives(s: string, pat: string, rep: string)
    requires CannotRecreate(pat, rep)
    ensures !Contains(ReplaceAll(s, pat, rep), pat)
  {
    forall i: nat | i <= |ReplaceAll(s, pat, rep)|
      ensures !OccursAt(ReplaceAll(s, pat, rep), pat, i)
    {
      NoOccurrenceAt(s, pat, rep, i);
    }
  }

  /** A string without the pattern is left unchanged. */
  lemma ReplaceAbsent(s: string, pat: string, rep: string)
    requires !Contains(s, pat)
    ensures ReplaceAll(s, pat, rep) == s
  {
    var at := LiteralAt(pat, rep);
    forall k | 0 <= k < |s| ensures at(s[k..]).None? {
      if 0 < |pat| && StartsWith(s[k..], pat) {
        assert s[k..][..|pat|] == s[k..k + |pat|];
        assert OccursAt(s, pat, k);
      }
    }
    NoMatchUnchanged(s, at);
  }

  /** A pattern with a character the input lacks is not replaced anywhere. */
  lemma LiteralAbsentChar(s: string, pat: string, rep: string, j: nat)
    requires j < |pat| && pat[j] !in s
    ensures ReplaceAll(s, pat, rep) == s
  {
    forall i: nat | i <= |s| ensures !OccursAt(s, pat, i) {
      if i + |pat| <= |s| {
        assert s[i..i + |pat|][j] == s[i + j] != pat[j];
      }
    }
    ReplaceAbsent(s, pat, rep);
  }

  /** Characters before which the pattern cannot start are copied as they are. */
  lemma {:induction false} ReplaceKeepsPrefix(p: string, t: string, pat: string, rep: string)
    requires 0 < |pat| && pat[0] !in p
    ensures ReplaceAll(p + t, pat, rep) == p + ReplaceAll(t, pat, rep)
  {
    if |p| > 0 {
      var s := p + t;
      if |pat| <= |s| {
        assert s[..|pat|][0] == p[0] != pat[0];
      }
      assert !StartsWith(s, pat);
      ReplaceStep(s, pat, rep);
      assert s[1..] == p[1..] + t;
      ReplaceKeepsPrefix(p[1..], t, pat, rep);
      assert s[0] == p[0];
      calc {
        ReplaceAll(s, pat, rep);
        [p[0]] + ReplaceAll(p[1..] + t, pat, rep);
        [p[0]] + (p[1..] + ReplaceAll(t, pat, rep));
        { assert p == [p[0]] + p[1..]; }
        p + ReplaceAll(t, pat, rep);
      }
    } else {
      assert p + t == t;
    }
  }
}
