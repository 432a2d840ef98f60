/** The preview endpoint: three global, case-insensitive replace passes over
    the posted markup, then a fixed HTML document around the result.  Each
    regular expression is a dedicated matcher for the `Rewrite` driver. */
module Preview {
  import opened Wrappers
  import opened Text
  import opened Rewrite

  // ---------------------------------------------------------------------
  // /<script\b[^<]*(?:(?!<\/script>)<[^<]*)*<\/script>/gi
  //
  // After `<script` and a word boundary, the body may hold any `<` that
  // does not begin `</script>`, so the match runs exactly to the first
  // `</script>` after the opener; with no such closer there is no match.

  const ScriptOpen: string := "<script"
  const ScriptClose: string := "</script>"

  /** The pattern `p` occurs at position `j` of `s` when ASCII letters are
      compared without regard to case (the `i` flag). */
  predicate CiAt(s: string, j: nat, p: string) {
    j + |p| <= |s| && forall i :: 0 <= i < |p| ==> FoldAscii(s[j + i]) == FoldAscii(p[i])
  }

  /** The first case-insensitive `</script>` in `s` at or after `from`. */
  function FindClose(s: string, from: nat): (k: Option<nat>)
    requires from <= |s|
    ensures k.Some? ==> from <= k.value && CiAt(s, k.value, ScriptClose)
    ensures k.Some? ==> forall j :: from <= j < k.value ==> !CiAt(s, j, ScriptClose)
    ensures k.None? ==> forall j :: from <= j <= |s| ==> !CiAt(s, j, ScriptClose)
    decreases |s| - from
  {
    if from == |s| then None
    else if CiAt(s, from, ScriptClose) then Some(from)
    else FindClose(s, from + 1)
  }

  /** The script pattern at the first character of `t`. */
  function ScriptAt(t: string): (m: Option<Match>)
    ensures m.Some? ==> m.value.replacement == "" && 0 < m.value.len <= |t|
  {
    if CiAt(t, 0, ScriptOpen) && |t| > |ScriptOpen| && !IsWordChar(t[|ScriptOpen|]) then
      match FindClose(t, |ScriptOpen|)
      case Some(k) => Some(Match(k + |ScriptClose|, ""))
      case None => None
    else None
  }

  // ---------------------------------------------------------------------
  // /javascript:/gi

  const JavascriptScheme: string := "javascript:"

  function JavascriptAt(t: string): (m: Option<Match>)
    ensures m.Some? ==> m.value.replacement == "" && 0 < m.value.len <= |t|
  {
    if CiAt(t, 0, JavascriptScheme) then Some(Match(|JavascriptScheme|, "")) else None
  }

  // ---------------------------------------------------------------------
  // /on\w+\s*=/gi
  //
  // `\w`, `\s` and `=` are pairwise disjoint, so the greedy runs are the
  // only way the pattern can match.

  /** Number of word characters at the start of `s`. */
  function WordRun(s: string): (n: nat)
    ensures n <= |s|
    ensures forall i :: 0 <= i < n ==> IsWordChar(s[i])
    ensures n < |s| ==> !IsWordChar(s[n])
  {
    if |s| > 0 && IsWordChar(s[0]) then 1 + WordRun(s[1..]) else 0
  }

  function HandlerAt(t: string): (m: Option<Match>)
    ensures m.Some? ==> m.value.replacement == "" && 0 < m.value.len <= |t|
  {
    if CiAt(t, 0, "on") then
      var n := WordRun(t[2..]);
      var w := LeadingSpace(t[2 + n..]);
      if 0 < n && 2 + n + w < |t| && t[2 + n + w] == '=' then Some(Match(2 + n + w + 1, "")) else None
    else None
  }

  // ---------------------------------------------------------------------
  // the sanitiser

  /** A matcher that only ever deletes. */
  ghost predicate Deletes(at: string -> Option<Match>) {
    forall t :: at(t).Some? ==> at(t).value.replacement == "" && 0 < at(t).value.len <= |t|
  }

  function RemoveScripts(s: string): string {
    GlobalReplace(s, ScriptAt)
  }

  function RemoveJavascript(s: string): string {
    GlobalReplace(s, JavascriptAt)
  }

  function RemoveHandlers(s: string): string {
    GlobalReplace(s, HandlerAt)
  }

  /** The three passes, in order. */
  function Sanitize(html: string): string {
    RemoveHandlers(RemoveJavascript(RemoveScripts(html)))
  }

  /** A deleting pass keeps the rest of its input in order. */
  lemma PassIsSubsequence(s: string, at: string -> Option<Match>)
    requires Deletes(at)
    ensures forall t :: Consumes(at, t)
    ensures Subsequence(GlobalReplace(s, at), s)
  {
    DeletionIsSubsequence(s, at);
  }

  /** Sanitising only deletes characters, so it never lengthens the markup. */
  lemma {:induction false} SanitizeOnlyDeletes(html: string)
    ensures Subsequence(Sanitize(html), html)
    ensures |Sanitize(html)| <= |html|
  {
    var a := RemoveScripts(html);
    var b := RemoveJavascript(a);
    PassIsSubsequence(html, ScriptAt);
    PassIsSubsequence(a, JavascriptAt);
    PassIsSubsequence(b, HandlerAt);
    SubsequenceTrans(b, a, html);
    SubsequenceTrans(Sanitize(html), b, html);
    SubsequenceLength(Sanitize(html), html);
  }

  // ---------------------------------------------------------------------
  // what each pass matches

  /** A script opener is removed exactly when a non-word character follows
      it and a `</script>` comes later, and then through the first such
      closer. */
  lemma ScriptMatch(t: string)
    ensures ScriptAt(t).Some? <==>
      CiAt(t, 0, ScriptOpen) && |t| > |ScriptOpen| && !IsWordChar(t[|ScriptOpen|])
      && exists j :: |ScriptOpen| <= j <= |t| && CiAt(t, j, ScriptClose)
    ensures ScriptAt(t).Some? ==>
      var close := ScriptAt(t).value.len - |ScriptClose|;
      CiAt(t, close, ScriptClose) && forall j :: |ScriptOpen| <= j < close ==> !CiAt(t, j, ScriptClose)
  {
  }

  /** Matching after a prefix is matching in the rest. */
  lemma CiAtShift(p: string, u: string, j: nat, pat: string)
    ensures CiAt(p + u, |p| + j, pat) <==> CiAt(u, j, pat)
  {
    if CiAt(u, j, pat) {
      forall i | 0 <= i < |pat| ensures FoldAscii((p + u)[|p| + j + i]) == FoldAscii(pat[i]) {
        assert (p + u)[|p| + j + i] == u[j + i];
      }
    }
    if CiAt(p + u, |p| + j, pat) {
      forall i | 0 <= i < |pat| ensures FoldAscii(u[j + i]) == FoldAscii(pat[i]) {
        assert (p + u)[|p| + j + i] == u[j + i];
      }
    }
  }

  /** A pattern matches itself. */
  lemma CiAtSelf(p: string, u: string)
    ensures CiAt(p + u, 0, p)
  {
    forall i | 0 <= i < |p| ensures FoldAscii((p + u)[i]) == FoldAscii(p[i]) {
      assert (p + u)[i] == p[i];
    }
  }

  /** The scan for a closer finds the first one. */
  lemma FindCloseFirst(s: string, from: nat, k: nat)
    requires from <= k <= |s| && CiAt(s, k, ScriptClose)
    requires forall j :: from <= j < k ==> !CiAt(s, j, ScriptClose)
    ensures FindClose(s, from) == Some(k)
  {
  }

  /** An opener followed by a non-word character matches through the first
      closer after it. */
  lemma {:induction false} ScriptBlockMatch(body: string, rest: string)
    requires 0 < |body| && !IsWordChar(body[0])
    requires forall j :: 0 <= j < |body| ==> !CiAt(body + ScriptClose + rest, j, ScriptClose)
    ensures ScriptAt(ScriptOpen + body + ScriptClose + rest)
      == Some(Match(|ScriptOpen| + |body| + |ScriptClose|, ""))
  {
    var u := body + ScriptClose + rest;
    var t := ScriptOpen + u;
    var o := |ScriptOpen|;
    assert ScriptOpen + body + ScriptClose + rest == t;
    CiAtSelf(ScriptOpen, u);
    assert t[o] == body[0];
    forall j | o <= j < o + |body| ensures !CiAt(t, j, ScriptClose) {
      CiAtShift(ScriptOpen, u, j - o, ScriptClose);
    }
    assert u == body + (ScriptClose + rest);
    CiAtSelf(ScriptClose, rest);
    CiAtShift(body, ScriptClose + rest, 0, ScriptClose);
    CiAtShift(ScriptOpen, u, |body|, ScriptClose);
    FindCloseFirst(t, o, o + |body|);
  }

  /** A script block is removed through its first closer, and the scan
      resumes right after that closer. */
  lemma {:induction false} ScriptBlockRemoved(body: string, rest: string)
    requires 0 < |body| && !IsWordChar(body[0])
    requires forall j :: 0 <= j < |body| ==> !CiAt(body + ScriptClose + rest, j, ScriptClose)
    ensures RemoveScripts(ScriptOpen + body + ScriptClose + rest) == RemoveScripts(rest)
  {
    var t := ScriptOpen + body + ScriptClose + rest;
    var n := |ScriptOpen| + |body| + |ScriptClose|;
    ScriptBlockMatch(body, rest);
    MatchStep(t, ScriptAt, Match(n, ""));
    assert t[n..] == rest;
  }

  /** An opener never closed later is no match, so it stays in place. */
  lemma UnclosedOpenerKept(t: string)
    requires forall j :: |ScriptOpen| <= j <= |t| ==> !CiAt(t, j, ScriptClose)
    ensures ScriptAt(t).None?
  {
    ScriptMatch(t);
  }

  /** The handler pattern: `on` in any letter case, a word run, optional
      whitespace and `=`. */
  lemma {:induction false} HandlerMatch(on: string, name: string, gap: string, rest: string)
    requires |on| == 2 && CiAt(on, 0, "on")
    requires 0 < |name| && forall i :: 0 <= i < |name| ==> IsWordChar(name[i])
    requires AllSpace(gap)
    ensures HandlerAt(on + name + gap + "=" + rest) == Some(Match(2 + |name| + |gap| + 1, ""))
  {
    var t := on + name + gap + "=" + rest;
    assert CiAt(t, 0, "on") by {
      assert t[0] == on[0] && t[1] == on[1];
    }
    assert WordRun(t[2..]) == |name| by {
      assert t[2..] == name + (gap + "=" + rest);
      WordRunOf(name, gap + "=" + rest);
    }
    assert LeadingSpace(t[2 + |name|..]) == |gap| by {
      assert t[2 + |name|..] == gap + ("=" + rest);
      LeadingSpaceOf(gap, "=" + rest);
    }
    assert t[2 + |name| + |gap|] == '=';
  }

  /** Wherever the scan meets a handler attribute, in any letter case, it
      deletes it whole and resumes right after the `=`. */
  lemma {:induction false} HandlerDeleted(on: string, name: string, gap: string, rest: string)
    requires |on| == 2 && CiAt(on, 0, "on")
    requires 0 < |name| && forall i :: 0 <= i < |name| ==> IsWordChar(name[i])
    requires AllSpace(gap)
    ensures RemoveHandlers(on + name + gap + "=" + rest) == RemoveHandlers(rest)
  {
    var t := on + name + gap + "=" + rest;
    var n := 2 + |name| + |gap| + 1;
    HandlerMatch(on, name, gap, rest);
    MatchStep(t, HandlerAt, Match(n, ""));
    assert t[n..] == rest;
  }

  lemma {:induction false} WordRunOf(w: string, u: string)
    requires forall i :: 0 <= i < |w| ==> IsWordChar(w[i])
    requires 0 < |u| && !IsWordChar(u[0])
    ensures WordRun(w + u) == |w|
  {
    if |w| > 0 {
      assert (w + u)[1..] == w[1..] + u;
      WordRunOf(w[1..], u);
    } else {
      assert w + u == u;
    }
  }

  lemma {:induction false} LeadingSpaceOf(g: string, u: string)
    requires AllSpace(g)
    requires 0 < |u| && !IsSpace(u[0])
    ensures LeadingSpace(g + u) == |g|
  {
    if |g| > 0 {
      assert (g + u)[1..] == g[1..] + u;
      LeadingSpaceOf(g[1..], u);
    } else {
      assert g + u == u;
    }
  }

  /** A handler attribute right after any character is deleted whole,
      even inside a word: the character cannot start a match of its own,
      since `on` is never followed by `o`. */
  lemma {:induction false} HandlerAfterChar(c: char, on: string, name: string)
    requires |on| == 2 && CiAt(on, 0, "on")
    requires 0 < |name| && forall i :: 0 <= i < |name| ==> IsWordChar(name[i])
    ensures RemoveHandlers([c] + (on + name + "=")) == [c]
  {
    var m := on + name + "=";
    var s := [c] + m;
    assert !CiAt(s, 0, "on") by {
      assert s[1] == on[0] && FoldAscii(on[0]) == FoldAscii("on"[0]) == 'o';
      assert FoldAscii("on"[1]) == 'n';
      assert FoldAscii(s[0 + 1]) != FoldAscii("on"[1]);
    }
    assert s[1..] == m;
    assert RemoveHandlers(s) == [c] + RemoveHandlers(m);
    assert m == on + name + "" + "=" + "";
    HandlerDeleted(on, name, "", "");
  }

  /** The handler pass turns `content=` into `c`: `ontent=` is a match. */
  lemma HandlerInsideWord(s: string)
    requires s == "content="
    ensures RemoveHandlers(s) == "c"
  {
    var on, name := "on", "tent";
    assert s == ['c'] + (on + name + "=");
    assert CiAt(on, 0, "on");
    HandlerAfterChar('c', on, name);
  }

  /** The scheme, in any letter case, is deleted wherever the scan meets
      it, and the scan resumes right after it. */
  lemma {:induction false} SchemeDeleted(m: string, t: string)
    requires |m| == |JavascriptScheme| && CiAt(m, 0, JavascriptScheme)
    ensures RemoveJavascript(m + t) == RemoveJavascript(t)
  {
    var s := m + t;
    assert CiAt(s, 0, JavascriptScheme) by {
      forall i | 0 <= i < |JavascriptScheme| ensures s[i] == m[i] { }
    }
    MatchStep(s, JavascriptAt, Match(|JavascriptScheme|, ""));
    assert s[|m|..] == t;
  }

  /** Characters none of which can begin the scheme are copied as they are. */
  lemma {:induction false} SchemeFreePrefix(p: string, t: string)
    requires forall i :: 0 <= i < |p| ==> FoldAscii(p[i]) != 'j'
    ensures RemoveJavascript(p + t) == p + RemoveJavascript(t)
  {
    if |p| > 0 {
      var s := p + t;
      assert !CiAt(s, 0, JavascriptScheme) by {
        assert s[0] == p[0] && FoldAscii(JavascriptScheme[0]) == 'j';
      }
      assert s[1..] == p[1..] + t;
      SchemeFreePrefix(p[1..], t);
      assert p == [p[0]] + p[1..];
    } else {
      assert p + t == t;
    }
  }

  /** Text shorter than the scheme holds no match. */
  lemma ShortTextKept(t: string)
    requires |t| < |JavascriptScheme|
    ensures RemoveJavascript(t) == t
  {
    NoMatchUnchanged(t, JavascriptAt);
  }

  lemma FalseStart(s: string, m: string)
    requires s == "javajavascript:script:" && m == JavascriptScheme + "script:"
    ensures s == "j" + ("ava" + m) && !CiAt(s, 0, JavascriptScheme)
  {
    assert FoldAscii(s[4]) != FoldAscii(JavascriptScheme[4]);
  }

  /** One pass is not a fixpoint: removing `javascript:` from
      `javajavascript:script:` leaves a fresh `javascript:`. */
  lemma {:induction false} OnePassLeavesScheme(s: string)
    requires s == "javajavascript:script:"
    ensures RemoveJavascript(s) == JavascriptScheme
  {
    var tail := "script:";
    var m := JavascriptScheme + tail;
    calc {
      RemoveJavascript(s);
      { FalseStart(s, m); assert s[1..] == "ava" + m; }
      "j" + RemoveJavascript("ava" + m);
      { SchemeFreePrefix("ava", m); }
      "j" + ("ava" + RemoveJavascript(m));
      { assert CiAt(JavascriptScheme, 0, JavascriptScheme);
        SchemeDeleted(JavascriptScheme, tail);
        ShortTextKept(tail); }
      "j" + ("ava" + tail);
      { SchemeRespelled(tail); }
      JavascriptScheme;
    }
  }

  lemma SchemeRespelled(tail: string)
    requires tail == "script:"
    ensures "j" + ("ava" + tail) == JavascriptScheme
  {
  }

  // ---------------------------------------------------------------------
  // the document

  const DocumentMeta: string :=
    "<!DOCTYPE html>\n<html lang=\"en\">\n<head>\n  <meta charset=\"UTF-8\">\n"
    + "  <meta name=\"viewport\" content=\"width=device-width, initial-scale=1.0\">\n"
    + "  <title>Preview</title>\n  "
  /** The rest of the stylesheet loader, `<script src=...></script>`, that
      the document always carries. */
  const TailwindSource: string := " src=\"https://cdn.tailwindcss.com\"></script>"
  const DocumentStyle: string :=
    "\n  <style>\n    body {\n      margin: 0;\n      padding: 20px;\n      min-height: 100vh;\n"
    + "      background: white;\n    }\n    * {\n      box-sizing: border-box;\n    }\n  </style>\n"
    + "</head>\n<body>\n  "
  const DocumentHead: string := DocumentMeta + ScriptOpen + TailwindSource + DocumentStyle
  const DocumentTail: string := "\n</body>\n</html>"

  /** The preview document around already sanitised markup. */
  function Document(markup: string): (doc: string)
    ensures |doc| == |DocumentHead| + |markup| + |DocumentTail|
    ensures doc[..|DocumentHead|] == DocumentHead
    ensures doc[|DocumentHead|..|doc| - |DocumentTail|] == markup
    ensures doc[|doc| - |DocumentTail|..] == DocumentTail
  {
    DocumentHead + markup + DocumentTail
  }

  /** Two documents are equal exactly when the markup they embed is. */
  lemma DocumentInjective(a: string, b: string)
    ensures Document(a) == Document(b) <==> a == b
  {
    if Document(a) == Document(b) {
      assert |a| == |b|;
      assert a == Document(a)[|DocumentHead|..|Document(a)| - |DocumentTail|];
    }
  }

  // ---------------------------------------------------------------------
  // the endpoint

  datatype HttpError = HttpError(status: int, message: string)

  /** The request body: unreadable, or parsed with its `html` field (`None`
      when missing or not a string). */
  datatype Body = Unreadable | Parsed(html: Option<string>)

  function PreviewResponse(body: Body): Result<string, HttpError> {
    match body
    case Unreadable => Failure(HttpError(500, "Failed to generate preview"))
    case Parsed(html) =>
      if html.None? || |html.value| < 1 then Failure(HttpError(400, "Invalid HTML provided"))
      else Success(Document(Sanitize(html.value)))
  }

  /** A missing, non-string or empty `html` is a 400; an unreadable body a
      500; otherwise the document embeds the sanitised markup. */
  lemma PreviewOutcomes(body: Body)
    ensures PreviewResponse(body).Failure? <==> body.Unreadable? || body.html.None? || body.html.value == ""
    ensures PreviewResponse(body).Failure? ==>
      PreviewResponse(body).error.status == (if body.Unreadable? then 500 else 400)
    ensures PreviewResponse(body).Success? ==>
      var doc := PreviewResponse(body).value;
      doc[|DocumentHead|..|doc| - |DocumentTail|] == Sanitize(body.html.value)
      && |doc| <= |DocumentHead| + |body.html.value| + |DocumentTail|
  {
    if body.Parsed? && body.html.Some? {
      SanitizeOnlyDeletes(body.html.value);
    }
  }

  lemma OccursBetween(a: string, p: string, b: string)
    ensures OccursAt(a + p + b, p, |a|)
  {
    assert (a + p + b)[|a|..|a| + |p|] == p;
  }

  lemma OccursExtended(a: string, p: string, i: nat, b: string)
    requires OccursAt(a, p, i)
    ensures OccursAt(a + b, p, i)
  {
    assert (a + b)[i..i + |p|] == a[i..i + |p|];
  }

  /** Whatever is posted, the document loads a script of its own. */
  lemma DocumentLoadsScript(markup: string)
    ensures Contains(Document(markup), ScriptOpen)
  {
    var k := |DocumentMeta|;
    AppendAssoc(DocumentMeta + ScriptOpen, TailwindSource, DocumentStyle);
    OccursBetween(DocumentMeta, ScriptOpen, TailwindSource + DocumentStyle);
    OccursExtended(DocumentHead, ScriptOpen, k, markup);
    OccursExtended(DocumentHead + markup, ScriptOpen, k, DocumentTail);
  }
}
