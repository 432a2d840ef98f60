/** The markup exporters: rewriting generated HTML into a React component,
    a Vue single-file component or a Svelte component. */
module Transformers {
  import opened Wrappers
  import opened Text
  import opened Rewrite

  // ---------------------------------------------------------------------
  // the matcher of /<!--(.*?)-->/

  /** `.` matches every character except a line terminator. */
  predicate NoLineTerminator(t: string) {
    forall i :: 0 <= i < |t| ==> !IsLineTerminator(t[i])
  }

  /** The lazy `(.*?)-->` started at `k`: the first `-->` at or after `k`,
      provided no line terminator comes before it. */
  function CommentClose(s: string, k: nat): (e: Option<nat>)
    requires k <= |s|
    ensures e.Some? ==> k <= e.value && OccursAt(s, "-->", e.value) && NoLineTerminator(s[k..e.value])
    ensures e.Some? ==> forall i :: k <= i < e.value ==> !OccursAt(s, "-->", i)
    decreases |s| - k
  {
    if k + 3 <= |s| && s[k..k + 3] == "-->" then Some(k)
    else if k < |s| && !IsLineTerminator(s[k]) then
      var e := CommentClose(s, k + 1);
      if e.Some? then
        assert s[k..e.value] == [s[k]] + s[k + 1..e.value];
        e
      else e
    else None
  }

  /** The scan finds exactly the first `-->` after a terminator-free run. */
  lemma {:induction false} CommentCloseFindsFirst(s: string, k: nat, e: nat)
    requires k <= e && OccursAt(s, "-->", e) && NoLineTerminator(s[k..e])
    requires forall i :: k <= i < e ==> !OccursAt(s, "-->", i)
    ensures CommentClose(s, k) == Some(e)
    decreases e - k
  {
    if k < e {
      assert !OccursAt(s, "-->", k);
      assert s[k] == s[k..e][0];
      assert s[k + 1..e] == s[k..e][1..];
      CommentCloseFindsFirst(s, k + 1, e);
    }
  }

  /** The matcher of `/<!--(.*?)-->/g` with replacement `{/* $1 */}`. */
  function CommentAt(t: string): (r: Option<Match>)
    ensures r.Some? ==> 0 < r.value.len <= |t|
  {
    if StartsWith(t, "<!--") then
      match CommentClose(t, 4)
      case Some(e) => Some(Match(e + 3, "{/* " + t[4..e] + " */}"))
      case None => None
    else None
  }

  /** `html.replace(/<!--(.*?)-->/g, '{/* $1 */}')`. */
  function ConvertComments(s: string): string {
    GlobalReplace(s, CommentAt)
  }

  /** A comment on one line becomes a JSX comment with the same text, and
      the rewrite resumes right after its `-->`. */
  lemma {:induction false} CommentBecomesJsx(x: string, rest: string)
    requires NoLineTerminator(x) && !Contains(x, "-->")
    ensures ConvertComments("<!--" + x + "-->" + rest) == "{/* " + x + " */}" + ConvertComments(rest)
  {
    var s := "<!--" + x + "-->" + rest;
    var e := 4 + |x|;
    assert s[4..e] == x;
    assert OccursAt(s, "-->", e) by {
      assert s[e..e + 3] == "-->";
    }
    NoCloserBefore(s, x);
    CommentCloseFindsFirst(s, 4, e);
    assert StartsWith(s, "<!--");
    MatchStep(s, CommentAt, Match(e + 3, "{/* " + x + " */}"));
    assert s[e + 3..] == rest;
  }

  /** Behind `<!--`, a text without `-->` followed by `-->` has no closer
      before its own end. */
  lemma NoCloserBefore(s: string, x: string)
    requires !Contains(x, "-->")
    requires |s| >= 4 + |x| + 3 && s[4..4 + |x|] == x && s[4 + |x|] == '-' && s[4 + |x| + 1] == '-'
    ensures forall i :: 4 <= i < 4 + |x| ==> !OccursAt(s, "-->", i)
  {
    var e := 4 + |x|;
    forall i | 4 <= i < e ensures !OccursAt(s, "-->", i) {
      if i + 3 <= e {
        assert s[i..i + 3] == x[i - 4..i - 1] by {
          var w := s[4..e];
          assert w[i - 4] == s[i] && w[i - 3] == s[i + 1] && w[i - 2] == s[i + 2];
        }
        assert !OccursAt(x, "-->", i - 4);
      } else {
        assert s[i..i + 3][2] == s[i + 2] == '-';
      }
    }
  }

  // ---------------------------------------------------------------------
  // the matcher of /\son([a-z]+)=/

  /** Number of lower-case ASCII letters at the start of `s`. */
  function LowerRun(s: string): (n: nat)
    ensures n <= |s|
    ensures forall i :: 0 <= i < n ==> IsLowerAscii(s[i])
    ensures n < |s| ==> !IsLowerAscii(s[n])
  {
    if |s| > 0 && IsLowerAscii(s[0]) then 1 + LowerRun(s[1..]) else 0
  }

  /** The matcher of `/\son([a-z]+)=/g` with the callback that upper-cases
      the first letter of the event name and writes a plain space before
      `on`. */
  function EventAt(t: string): (r: Option<Match>)
    ensures r.Some? ==> 0 < r.value.len <= |t| && |r.value.replacement| == r.value.len
  {
    if 4 <= |t| && IsSpace(t[0]) && t[1..3] == "on" then
      var n := LowerRun(t[3..]);
      if 0 < n && 3 + n < |t| && t[3 + n] == '=' then
        Some(Match(4 + n, " on" + [UpperAscii(t[3])] + t[4..3 + n] + "="))
      else None
    else None
  }

  /** `html.replace(/\son([a-z]+)=/g, …)`: capitalise event attributes. */
  function CapitaliseEvents(s: string): string {
    GlobalReplace(s, EventAt)
  }

  /** Capitalising event attributes never changes the length of the markup. */
  lemma CapitaliseEventsKeepsLength(s: string)
    ensures |CapitaliseEvents(s)| == |s|
  {
    SameLengthReplace(s, EventAt);
  }

  /** Every event attribute behind a whitespace character, its name a run
      of lower-case letters, is rewritten: the whitespace becomes a plain
      space, the first letter of the name is upper-cased, the rest of the
      name and the `=` are kept, and the scan resumes after the `=`. */
  lemma {:induction false} EventCapitalised(ws: char, name: string, rest: string)
    requires IsSpace(ws)
    requires 0 < |name| && forall i :: 0 <= i < |name| ==> IsLowerAscii(name[i])
    ensures CapitaliseEvents([ws] + "on" + name + "=" + rest)
      == " on" + [UpperAscii(name[0])] + name[1..] + "=" + CapitaliseEvents(rest)
  {
    var t := [ws] + "on" + name + "=" + rest;
    var n := |name|;
    assert LowerRun(t[3..]) == n by {
      assert t[3..] == name + ("=" + rest);
      LowerRunOf(name, "=" + rest);
    }
    assert t[1..3] == "on";
    assert t[3 + n] == '=';
    assert t[3] == name[0] && t[4..3 + n] == name[1..];
    var m := Match(4 + n, " on" + [UpperAscii(name[0])] + name[1..] + "=");
    assert EventAt(t) == Some(m);
    MatchStep(t, EventAt, m);
    assert t[4 + n..] == rest;
  }

  lemma {:induction false} LowerRunOf(w: string, u: string)
    requires forall i :: 0 <= i < |w| ==> IsLowerAscii(w[i])
    requires 0 < |u| && !IsLowerAscii(u[0])
    ensures LowerRun(w + u) == |w|
  {
    if |w| > 0 {
      assert (w + u)[1..] == w[1..] + u;
      LowerRunOf(w[1..], u);
    } else {
      assert w + u == u;
    }
  }

  /** `onclick=` after any whitespace character: the whitespace becomes a
      plain space and the event name is capitalised. */
  lemma OnclickCapitalised(ws: char)
    requires IsSpace(ws)
    ensures CapitaliseEvents([ws] + "onclick=") == " onClick="
  {
    var s := [ws] + "onclick=";
    assert s[3..] == "click=";
    assert LowerRun("=") == 0;
    assert LowerRun("k=") == 1;
    assert LowerRun("ck=") == 2;
    assert LowerRun("ick=") == 3;
    assert LowerRun("lick=") == 4;
    assert LowerRun("click=") == 5;
    var n := LowerRun(s[3..]);
    assert n == 5;
    assert 4 <= |s| && IsSpace(s[0]) && s[1..3] == "on";
    assert 0 < n && 3 + n < |s| && s[3 + n] == '=';
    assert " on" + [UpperAscii(s[3])] + s[4..3 + n] + "=" == " onClick=";
    assert EventAt(s) == Some(Match(9, " onClick="));
    assert s[9..] == "";
    assert CapitaliseEvents(s) == " onClick=" + GlobalReplace(s[9..], EventAt);
  }

  /** A tab before an event attribute turns into a space. */
  lemma TabBeforeEventBecomesSpace()
    ensures CapitaliseEvents("\tonclick=") == " onClick="
  {
    OnclickCapitalised('\t');
    assert ['\t'] + "onclick=" == "\tonclick=";
  }

  // ---------------------------------------------------------------------
  // the exporters

  /** The attribute and comment rewrites of `htmlToReact`, in order. */
  function ReactMarkup(html: string): string {
    var renamed := ReplaceAll(ReplaceAll(html, "class=", "className="), "for=", "htmlFor=");
    CapitaliseEvents(ConvertComments(renamed))
  }

  const ReactHead: string := "import React from 'react';\n\nexport default function Component() {\n  return (\n    "
  const ReactTail: string := "\n  );\n}"

  /** `htmlToReact`: the rewritten, trimmed markup inside a function component. */
  function HtmlToReact(html: string): string {
    ReactHead + Trim(ReactMarkup(html)) + ReactTail
  }

  const VueHead: string := "<script setup lang=\"ts\">\n// Component logic here\n</script>\n\n<template>\n  "
  const VueTail: string := "\n</template>"

  /** `htmlToVue`: the trimmed markup, otherwise untouched, in a template. */
  function HtmlToVue(html: string): string {
    VueHead + Trim(html) + VueTail
  }

  const SvelteHead: string := "<script>\n  // Svelte 5 runes\n  let count = $state(0);\n</script>\n\n"

  /** `htmlToSvelte`: the trimmed markup after a runes script block. */
  function HtmlToSvelte(html: string): string {
    SvelteHead + Trim(html)
  }

  /** The part of a wrapped component between a fixed head and tail. */
  function Between(s: string, head: string, tail: string): string
    requires |head| + |tail| <= |s|
  {
    s[|head|..|s| - |tail|]
  }

  /** The `class=` rename leaves no `class=` behind. */
  lemma NoClassAttributeSurvives(html: string)
    ensures !Contains(ReplaceAll(html, "class=", "className="), "class=")
  {
    var pat, rep := "class=", "className=";
    forall i | 0 <= i <= |rep| ensures !OccursAt(rep, pat, i) {
      if i + |pat| <= |rep| {
        var w := rep[i..i + |pat|];
        assert w[0] == rep[i];
        assert w[5] == rep[i + 5];
      }
    }
    forall m | 0 < m < |pat| && m <= |rep| ensures rep[|rep| - m..] != pat[..m] {
      assert rep[|rep| - m..][m - 1] == '=' != pat[..m][m - 1];
    }
    NoOccurrenceSurvives(html, pat, rep);
  }

  /** The `for=` rename leaves no `for=` behind, wherever it stood. */
  lemma NoForAttributeSurvives(html: string)
    ensures !Contains(ReplaceAll(html, "for=", "htmlFor="), "for=")
  {
    var pat, rep := "for=", "htmlFor=";
    forall i | 0 <= i <= |rep| ensures !OccursAt(rep, pat, i) {
      if i + |pat| <= |rep| {
        var w := rep[i..i + |pat|];
        assert w[0] == rep[i];
        assert w[3] == rep[i + 3];
      }
    }
    forall m | 0 < m < |pat| && m <= |rep| ensures rep[|rep| - m..] != pat[..m] {
      assert rep[|rep| - m..][m - 1] == '=' != pat[..m][m - 1];
    }
    NoOccurrenceSurvives(html, pat, rep);
  }

  /** `for=` is renamed after any run of characters without an `f`, so
      `data-for=` becomes `data-htmlFor=`: the pattern is not anchored to
      an attribute name. */
  lemma {:induction false} ForRenamedAfterAnyPrefix(p: string)
    requires 'f' !in p
    ensures ReplaceAll(p + "for=", "for=", "htmlFor=") == p + "htmlFor="
  {
    var pat, rep := "for=", "htmlFor=";
    ReplaceStep(pat, pat, rep);
    assert pat[4..] == "";
    ReplaceKeepsPrefix(p, pat, pat, rep);
  }

  /** The Vue export carries exactly the trimmed input between its fixed
      head and tail. */
  lemma VueCarriesTrimmedMarkup(html: string)
    ensures var r := HtmlToVue(html);
      |VueHead| + |VueTail| <= |r| && r[..|VueHead|] == VueHead && r[|r| - |VueTail|..] == VueTail
      && Between(r, VueHead, VueTail) == Trim(html)
  {
  }

  /** The Svelte export carries exactly the trimmed input after its head. */
  lemma SvelteCarriesTrimmedMarkup(html: string)
    ensures var r := HtmlToSvelte(html);
      |SvelteHead| <= |r| && r[..|SvelteHead|] == SvelteHead && r[|SvelteHead|..] == Trim(html)
  {
  }

  /** The React export carries the trimmed, rewritten markup between its
      fixed head and tail. */
  lemma ReactCarriesTrimmedMarkup(html: string)
    ensures var r := HtmlToReact(html);
      |ReactHead| + |ReactTail| <= |r| && r[..|ReactHead|] == ReactHead && r[|r| - |ReactTail|..] == ReactTail
      && Between(r, ReactHead, ReactTail) == Trim(ReactMarkup(html))
  {
  }

  /** Exporting to Vue does not depend on surrounding whitespace. */
  lemma {:induction false} VueIgnoresMargins(html: string)
    ensures HtmlToVue(html) == HtmlToVue(Trim(html))
  {
    TrimIdempotent(html);
  }

  /** Exporting to Svelte does not depend on surrounding whitespace. */
  lemma {:induction false} SvelteIgnoresMargins(html: string)
    ensures HtmlToSvelte(html) == HtmlToSvelte(Trim(html))
  {
    TrimIdempotent(html);
  }

  /** Exporting to React does depend on leading whitespace: a space before
      `onclick=` lets the event rule fire, trimming first does not. */
  lemma {:induction false} ReactSeesMargins(spaced: string)
    requires spaced == " onclick="
    ensures HtmlToReact(spaced) != HtmlToReact(Trim(spaced))
  {
    var k := |ReactHead| + 2;
    ReactSpacedExport(spaced, "onClick=");
    ReactTrimmedExport(spaced, "onclick=");
    assert HtmlToReact(spaced)[k] != HtmlToReact(Trim(spaced))[k];
  }

  lemma {:induction false} ReactSpacedExport(spaced: string, capital: string)
    requires spaced == " onclick=" && capital == "onClick="
    ensures HtmlToReact(spaced) == ReactHead + capital + ReactTail
    ensures |ReactHead| + 2 < |HtmlToReact(spaced)| && HtmlToReact(spaced)[|ReactHead| + 2] == 'C'
  {
    var fired := " " + capital;
    assert ReactMarkup(spaced) == fired by {
      ReactMarkupSpaced(spaced, fired);
    }
    assert Trim(fired) == capital by {
      TrimSpaced(fired, capital);
    }
    CharAfterHead(ReactHead, capital, ReactTail, 2);
  }

  lemma {:induction false} ReactTrimmedExport(spaced: string, bare: string)
    requires spaced == " onclick=" && bare == "onclick="
    ensures HtmlToReact(Trim(spaced)) == ReactHead + bare + ReactTail
    ensures |ReactHead| + 2 < |HtmlToReact(Trim(spaced))| && HtmlToReact(Trim(spaced))[|ReactHead| + 2] == 'c'
  {
    assert Trim(spaced) == bare by {
      TrimSpaced(spaced, bare);
    }
    assert Trim(ReactMarkup(bare)) == bare by {
      ReactMarkupBare(bare);
      TrimIdempotent(spaced);
    }
    CharAfterHead(ReactHead, bare, ReactTail, 2);
  }

  /** A character of the wrapped text, seen in the wrapper. */
  lemma CharAfterHead(head: string, a: string, tail: string, k: nat)
    requires k < |a|
    ensures |head| + k < |head + a + tail| && (head + a + tail)[|head| + k] == a[k]
  {
  }

  /** One leading space is trimmed off markup that has no other margin. */
  lemma TrimSpaced(spaced: string, bare: string)
    requires spaced == " " + bare
    requires 0 < |bare| && !IsSpace(bare[0]) && !IsSpace(bare[|bare| - 1])
    ensures Trim(spaced) == bare
  {
    assert LeadingSpace(bare) == 0;
    assert spaced[1..] == bare;
    assert LeadingSpace(spaced) == 1;
    assert TrailingSpace(bare) == |bare|;
    assert TrailingSpace(spaced) == |spaced|;
  }

  lemma {:induction false} ReactMarkupSpaced(s: string, fired: string)
    requires s == " onclick=" && fired == " onClick="
    ensures ReactMarkup(s) == fired
  {
    // the input holds no `s`, no `f` and no `<`
    calc {
      ReactMarkup(s);
      { LiteralAbsentChar(s, "class=", "className=", 3); }
      CapitaliseEvents(ConvertComments(ReplaceAll(s, "for=", "htmlFor=")));
      { LiteralAbsentChar(s, "for=", "htmlFor=", 0); }
      CapitaliseEvents(ConvertComments(s));
      { NoOpenerUnchanged(s); }
      CapitaliseEvents(s);
      { OnclickCapitalised(' '); assert [' '] + "onclick=" == s; }
      fired;
    }
  }

  lemma {:induction false} ReactMarkupBare(s: string)
    requires s == "onclick="
    ensures ReactMarkup(s) == s
  {
    calc {
      ReactMarkup(s);
      { LiteralAbsentChar(s, "class=", "className=", 3); }
      CapitaliseEvents(ConvertComments(ReplaceAll(s, "for=", "htmlFor=")));
      { LiteralAbsentChar(s, "for=", "htmlFor=", 0); }
      CapitaliseEvents(ConvertComments(s));
      { NoOpenerUnchanged(s); }
      CapitaliseEvents(s);
      { forall i | 0 <= i < |s| ensures !IsSpace(s[i]) { }
        NoSpaceUnchanged(s); }
      s;
    }
  }

  /** Markup without whitespace holds no event attribute to capitalise. */
  lemma NoSpaceUnchanged(s: string)
    requires forall i :: 0 <= i < |s| ==> !IsSpace(s[i])
    ensures CapitaliseEvents(s) == s
  {
    forall k | 0 <= k < |s| ensures EventAt(s[k..]).None? {
      assert s[k..][0] == s[k];
    }
    NoMatchUnchanged(s, EventAt);
  }

  /** Markup without a `<` holds no comment to convert. */
  lemma NoOpenerUnchanged(s: string)
    requires '<' !in s
    ensures ConvertComments(s) == s
  {
    forall k | 0 <= k < |s| ensures CommentAt(s[k..]).None? {
      assert s[k..][0] == s[k];
      if 4 <= |s[k..]| { assert s[k..][..4][0] == s[k]; }
    }
    NoMatchUnchanged(s, CommentAt);
  }
}
