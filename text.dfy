/** String primitives with the semantics of the JavaScript built-ins the
    handlers use: `trim`, `split` on one character, `startsWith`, `includes`,
    the regular-expression classes `\s` and `\w`, and ASCII case folding as
    the `i` flag performs it. */
module Text {

  /** JavaScript WhiteSpace and LineTerminator code points: what `trim`
      removes and what the regular-expression class `\s` matches. */
  predicate IsSpace(c: char) {
    ('\t' <= c <= '\r') || c == ' ' || c == '\U{00A0}' || c == '\U{1680}'
    || ('\U{2000}' <= c <= '\U{200A}') || c == '\U{2028}' || c == '\U{2029}'
    || c == '\U{202F}' || c == '\U{205F}' || c == '\U{3000}' || c == '\U{FEFF}'
  }

  /** The line terminators that the regular-expression `.` refuses to match. */
  predicate IsLineTerminator(c: char) {
    c == '\n' || c == '\r' || c == '\U{2028}' || c == '\U{2029}'
  }

  /** The class `\w`: `[A-Za-z0-9_]` (the `i` flag does not widen it). */
  predicate IsWordChar(c: char) {
    ('a' <= c <= 'z') || ('A' <= c <= 'Z') || ('0' <= c <= '9') || c == '_'
  }

  predicate IsLowerAscii(c: char) {
    'a' <= c <= 'z'
  }

  predicate IsAsciiLetter(c: char) {
    ('a' <= c <= 'z') || ('A' <= c <= 'Z')
  }

  /** `toUpperCase` on one ASCII lower-case letter. */
  function UpperAscii(c: char): (u: char)
    requires IsLowerAscii(c)
    ensures 'A' <= u <= 'Z' && u as int + 32 == c as int
  {
    (c as int - 32) as char
  }

  /** ASCII case folding: the only folding the `i` flag applies without the
      `u` flag when the pattern itself is ASCII. */
  function FoldAscii(c: char): (f: char)
    ensures !('A' <= f <= 'Z')
    ensures 'A' <= c <= 'Z' ==> f as int == c as int + 32
    ensures !('A' <= c <= 'Z') ==> f == c
  {
    if 'A' <= c <= 'Z' then (c as int + 32) as char else c
  }

  predicate AllSpace(s: string) {
    forall i :: 0 <= i < |s| ==> IsSpace(s[i])
  }

  predicate StartsWith(s: string, p: string) {
    |p| <= |s| && s[..|p|] == p
  }

  /** `p` occurs in `s` starting at index `i`. */
  predicate OccursAt(s: string, p: string, i: nat) {
    i + |p| <= |s| && s[i..i + |p|] == p
  }

  /** `s.includes(p)`. */
  predicate Contains(s: string, p: string) {
    exists i: nat | i <= |s| :: OccursAt(s, p, i)
  }

  // ---------------------------------------------------------------------
  // trim

  /** Number of whitespace characters at the start of `s`. */
  function LeadingSpace(s: string): (k: nat)
    ensures k <= |s| && AllSpace(s[..k])
    ensures k < |s| ==> !IsSpace(s[k])
  {
    if |s| > 0 && IsSpace(s[0]) then
      var k := LeadingSpace(s[1..]);
      SpaceBefore(s, k);
      k + 1
    else 0
  }

  lemma SpaceBefore(s: string, k: nat)
    requires 0 < |s| && k < |s| && IsSpace(s[0]) && AllSpace(s[1..][..k])
    ensures AllSpace(s[..k + 1])
  {
    assert s[..k + 1] == [s[0]] + s[1..][..k];
  }

  /** Index where the whitespace at the end of `s` begins. */
  function TrailingSpace(s: string): (j: nat)
    ensures j <= |s| && AllSpace(s[j..])
    ensures 0 < j ==> !IsSpace(s[j - 1])
  {
    if |s| > 0 && IsSpace(s[|s| - 1]) then
      var j := TrailingSpace(s[..|s| - 1]);
      SpaceAfter(s, j);
      j
    else |s|
  }

  lemma SpaceAfter(s: string, j: nat)
    requires 0 < |s| && j < |s| && IsSpace(s[|s| - 1]) && AllSpace(s[..|s| - 1][j..])
    ensures AllSpace(s[j..]) && s[..|s| - 1][..j] == s[..j]
  {
    assert s[j..] == s[..|s| - 1][j..] + [s[|s| - 1]];
  }

  /** `String.prototype.trim`: the infix of `s` left after removing its
      whitespace margins; the result has no whitespace at either end. */
  function Trim(s: string): (r: string)
    ensures exists i :: IsMargin(s, r, i)
    ensures r == [] || (!IsSpace(r[0]) && !IsSpace(r[|r| - 1]))
  {
    var i := LeadingSpace(s);
    var t := s[i..];
    var j := TrailingSpace(t);
    TrimMargins(s, i, j);
    t[..j]
  }

  lemma TrimMargins(s: string, i: nat, j: nat)
    requires i <= |s| && AllSpace(s[..i])
    requires j <= |s| - i && AllSpace(s[i..][j..])
    ensures IsMargin(s, s[i..][..j], i)
  {
    assert s[i..][..j] == s[i..i + j];
    assert s[i + j..] == s[i..][j..];
  }

  /** `r` sits in `s` at index `i` with only whitespace around it. */
  predicate IsMargin(s: string, r: string, i: nat) {
    i + |r| <= |s| && r == s[i..i + |r|] && AllSpace(s[..i]) && AllSpace(s[i + |r|..])
  }

  /** A string whose ends are not whitespace is its own trim. */
  lemma TrimOfTrimmed(s: string)
    requires s == [] || (!IsSpace(s[0]) && !IsSpace(s[|s| - 1]))
    ensures Trim(s) == s
  {
  }

  /** `trim` is idempotent. */
  lemma TrimIdempotent(s: string)
    ensures Trim(Trim(s)) == Trim(s)
  {
    TrimOfTrimmed(Trim(s));
  }

  /** `trim` yields the empty string exactly for all-whitespace input. */
  lemma TrimEmptyIff(s: string)
    ensures Trim(s) == [] <==> AllSpace(s)
  {
    var i := LeadingSpace(s);
    var t := s[i..];
    var j := TrailingSpace(t);
    assert Trim(s) == t[..j];
    if j == 0 {
      assert i == |s|;
      assert s[..i] == s;
    }
    if AllSpace(s) {
      assert i == |s|;
    }
  }

  // ---------------------------------------------------------------------
  // split / join

  /** Index of the first `c` in `s`, or `|s|` when there is none. */
  function IndexOf(s: string, c: char): (k: nat)
    ensures k <= |s|
    ensures c !in s[..k]
    ensures k < |s| ==> s[k] == c
  {
    if |s| == 0 then 0 else if s[0] == c then 0 else 1 + IndexOf(s[1..], c)
  }

  /** `s.split(sep)` for a one-character separator. */
  function Split(s: string, sep: char): (parts: seq<string>)
    ensures |parts| >= 1
    ensures forall i :: 0 <= i < |parts| ==> sep !in parts[i]
    decreases |s|
  {
    var k := IndexOf(s, sep);
    if k == |s| then [s] else [s[..k]] + Split(s[k + 1..], sep)
  }

  /** `parts.join(sep)`. */
  function Join(parts: seq<string>, sep: char): string
    requires |parts| >= 1
  {
    if |parts| == 1 then parts[0] else parts[0] + [sep] + Join(parts[1..], sep)
  }

  /** Joining the pieces of a split gives back the original string. */
  lemma {:induction false} JoinSplit(s: string, sep: char)
    ensures Join(Split(s, sep), sep) == s
    decreases |s|
  {
    var k := IndexOf(s, sep);
    if k < |s| {
      var rest := Split(s[k + 1..], sep);
      var parts := [s[..k]] + rest;
      assert Split(s, sep) == parts;
      assert parts[1..] == rest;
      JoinSplit(s[k + 1..], sep);
      assert Join(parts, sep) == s[..k] + [sep] + s[k + 1..];
      assert s == s[..k] + [sep] + s[k + 1..];
    }
  }

  lemma {:induction false} IndexOfAbsent(s: string, c: char)
    requires c !in s
    ensures IndexOf(s, c) == |s|
  {
    if |s| > 0 {
      assert s[1..] == s[1..];
      IndexOfAbsent(s[1..], c);
    }
  }

  lemma {:induction false} IndexOfPrefix(p: string, c: char, q: string)
    requires c !in p
    ensures IndexOf(p + [c] + q, c) == |p|
  {
    if |p| > 0 {
      assert (p + [c] + q)[1..] == p[1..] + [c] + q;
      IndexOfPrefix(p[1..], c, q);
    }
  }

  /** The first piece of a split is the text before the first separator;
      the remaining pieces are the split of the text after it. */
  lemma SplitCons(p: string, sep: char, q: string)
    requires sep !in p
    ensures Split(p + [sep] + q, sep) == [p] + Split(q, sep)
  {
    var s := p + [sep] + q;
    IndexOfPrefix(p, sep, q);
    assert s[..|p|] == p;
    assert s[|p| + 1..] == q;
  }

  /** `s.split(sep)[0]` is the longest separator-free prefix of `s`. */
  lemma SplitFirst(s: string, sep: char)
    ensures Split(s, sep)[0] == s[..IndexOf(s, sep)]
  {
  }

  // ---------------------------------------------------------------------
  // concatenation of a list of strings

  /** Concatenation is associative. */
  lemma AppendAssoc<T>(a: seq<T>, b: seq<T>, c: seq<T>)
    ensures (a + b) + c == a + (b + c)
  {
  }

  function Concat(ss: seq<string>): string {
    if |ss| == 0 then "" else Concat(ss[..|ss| - 1]) + ss[|ss| - 1]
  }

  // ---------------------------------------------------------------------
  // subsequences: what a pass that only deletes can produce

  /** `r` is obtained from `s` by deleting characters. */
  predicate Subsequence(r: string, s: string)
    decreases |s|
  {
    |r| == 0 ||
    (|s| > 0 && ((r[0] == s[0] && Subsequence(r[1..], s[1..])) || Subsequence(r, s[1..])))
  }

  lemma {:induction false} SubsequenceLength(r: string, s: string)
    requires Subsequence(r, s)
    ensures |r| <= |s|
    decreases |s|
  {
    if |r| > 0 {
      if r[0] == s[0] && Subsequence(r[1..], s[1..]) {
        SubsequenceLength(r[1..], s[1..]);
      } else {
        SubsequenceLength(r, s[1..]);
      }
    }
  }

  lemma {:induction false} SubsequenceTrans(a: string, b: string, c: string)
    requires Subsequence(a, b) && Subsequence(b, c)
    ensures Subsequence(a, c)
    decreases |c|
  {
    if |a| > 0 {
      if b[0] == c[0] && Subsequence(b[1..], c[1..]) {
        if a[0] == b[0] && Subsequence(a[1..], b[1..]) {
          SubsequenceTrans(a[1..], b[1..], c[1..]);
        } else {
          SubsequenceTrans(a, b[1..], c[1..]);
        }
      } else {
        SubsequenceTrans(a, b, c[1..]);
      }
    }
  }

  /** Deleting a prefix keeps subsequences of the rest subsequences of all. */
  lemma {:induction false} SubsequenceOfSuffix(r: string, s: string, k: nat)
    requires k <= |s| && Subsequence(r, s[k..])
    ensures Subsequence(r, s)
    decreases k
  {
    if k > 0 {
      assert s[1..][k - 1..] == s[k..];
      SubsequenceOfSuffix(r, s[1..], k - 1);
    }
  }
}
