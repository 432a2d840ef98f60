/** What both conversion endpoints share: the check on the uploaded data URL,
    the base64 payload cut out of it, the model fallback, the request sent
    upstream and the conversion row they store. */
module Request {
  import opened Wrappers
  import opened Text

  // ---------------------------------------------------------------------
  // the body schema: `image` must match /^data:image\/[a-zA-Z]+;base64,/

  const MediaPrefix: string := "data:image/"
  const Base64Marker: string := ";base64,"

  /** Number of ASCII letters at the start of `s`. */
  function LetterRun(s: string): (n: nat)
    ensures n <= |s|
    ensures forall i :: 0 <= i < n ==> IsAsciiLetter(s[i])
    ensures n < |s| ==> !IsAsciiLetter(s[n])
  {
    if |s| > 0 && IsAsciiLetter(s[0]) then 1 + LetterRun(s[1..]) else 0
  }

  /** The length of the matched `data:image/<letters>;base64,` prefix, if
      the image matches at all.  `[a-zA-Z]+` is followed by `;`, which is
      no letter, so the greedy run is the only way the pattern can match. */
  function DataUrlPrefix(image: string): (p: Option<nat>)
    ensures p.Some? ==> 20 <= p.value <= |image| && image[p.value - 1] == ','
  {
    if StartsWith(image, MediaPrefix) then
      var n := LetterRun(image[11..]);
      if 0 < n && StartsWith(image[11 + n..], Base64Marker) then
        assert image[11 + n..][7] == image[11 + n + 7];
        Some(11 + n + 8)
      else None
    else None
  }

  predicate IsImageDataUrl(image: string) {
    DataUrlPrefix(image).Some?
  }

  /** An image subtype: one or more ASCII letters. */
  predicate IsSubtype(t: string) {
    0 < |t| && forall i :: 0 <= i < |t| ==> IsAsciiLetter(t[i])
  }

  lemma {:induction false} LetterRunOf(t: string, u: string)
    requires forall i :: 0 <= i < |t| ==> IsAsciiLetter(t[i])
    requires 0 < |u| && !IsAsciiLetter(u[0])
    ensures LetterRun(t + u) == |t|
  {
    if |t| > 0 {
      assert (t + u)[1..] == t[1..] + u;
      LetterRunOf(t[1..], u);
    } else {
      assert t + u == u;
    }
  }

  /** The scanner accepts exactly the strings that begin with
      `data:image/`, a subtype of letters and `;base64,`. */
  lemma DataUrlPrefixIff(image: string, t: string, rest: string)
    requires image == MediaPrefix + t + Base64Marker + rest
    ensures IsSubtype(t) ==> DataUrlPrefix(image) == Some(|MediaPrefix| + |t| + |Base64Marker|)
    ensures DataUrlPrefix(image).Some? && DataUrlPrefix(image).value == |MediaPrefix| + |t| + |Base64Marker| ==> IsSubtype(t)
  {
    assert image[..11] == MediaPrefix;
    assert image[11..] == t + (Base64Marker + rest);
    if IsSubtype(t) {
      LetterRunOf(t, Base64Marker + rest);
      assert image[11 + |t|..] == Base64Marker + rest;
      assert image[11 + |t|..][..8] == Base64Marker;
    }
    if DataUrlPrefix(image).Some? && DataUrlPrefix(image).value == 19 + |t| {
      var n := LetterRun(image[11..]);
      assert n == |t|;
      forall i | 0 <= i < |t| ensures IsAsciiLetter(t[i]) {
        assert image[11..][i] == t[i];
      }
    }
  }

  /** Every accepted image begins with a well-formed prefix. */
  lemma DataUrlPrefixSound(image: string)
    requires IsImageDataUrl(image)
    ensures exists t :: IsSubtype(t) && StartsWith(image, MediaPrefix + t + Base64Marker)
  {
    var n := LetterRun(image[11..]);
    var t := image[11..11 + n];
    forall i | 0 <= i < |t| ensures IsAsciiLetter(t[i]) {
      assert t[i] == image[11..][i];
    }
    assert image[..11 + n + 8] == MediaPrefix + t + Base64Marker by {
      assert image[..11] == MediaPrefix;
      assert image[11 + n..][..8] == Base64Marker;
    }
    assert IsSubtype(t);
  }

  // ---------------------------------------------------------------------
  // the payload: `image.split(',')[1]`

  /** The second comma-separated field; `None` stands for `undefined`. */
  function Base64Payload(image: string): Option<string> {
    var parts := Split(image, ',');
    if |parts| >= 2 then Some(parts[1]) else None
  }

  /** The second field exists exactly when there is a comma, and holds no
      comma itself. */
  lemma PayloadNeedsComma(image: string)
    ensures Base64Payload(image).Some? <==> ',' in image
    ensures Base64Payload(image).Some? ==> ',' !in Base64Payload(image).value
  {
  }

  /** The scanned prefix holds exactly one comma, its last character. */
  lemma PrefixHasOneComma(image: string)
    requires IsImageDataUrl(image)
    ensures ',' !in image[..DataUrlPrefix(image).value - 1]
  {
    var n := LetterRun(image[11..]);
    var pre := image[..11 + n + 7];
    forall i | 0 <= i < |pre| ensures pre[i] != ',' {
      if i < 11 {
        assert pre[i] == image[..11][i] == MediaPrefix[i];
      } else if i < 11 + n {
        assert pre[i] == image[11..][i - 11];
      } else {
        assert pre[i] == image[11 + n..][..8][i - 11 - n] == Base64Marker[i - 11 - n];
      }
    }
  }

  /** For an accepted image the payload is exactly the text after
      `;base64,` up to the next comma or the end. */
  lemma {:induction false} PayloadFollowsMarker(image: string)
    requires IsImageDataUrl(image)
    ensures var p := DataUrlPrefix(image).value;
      Base64Payload(image) == Some(image[p..][..IndexOf(image[p..], ',')])
  {
    var p := DataUrlPrefix(image).value;
    PrefixHasOneComma(image);
    assert image == image[..p - 1] + [','] + image[p..];
    SplitCons(image[..p - 1], ',', image[p..]);
    SplitFirst(image[p..], ',');
  }

  // ---------------------------------------------------------------------
  // the model fallback

  const DefaultModel: string := "moonshotai/kimi-k2.5"

  /** `typeof model === 'string' && model.trim() ? model : default`; `None`
      stands for a configured value that is not a string. */
  function ResolveModel(model: Option<string>): string {
    if model.Some? && Trim(model.value) != "" then model.value else DefaultModel
  }

  /** The configured model is used, untrimmed, exactly when it has
      non-whitespace content, and the resolved model is never blank. */
  lemma ResolvedModel(model: Option<string>)
    ensures model.Some? && !AllSpace(model.value) ==> ResolveModel(model) == model.value
    ensures model.None? || AllSpace(model.value) ==> ResolveModel(model) == DefaultModel
    ensures !AllSpace(ResolveModel(model))
  {
    if model.Some? {
      TrimEmptyIff(model.value);
    }
    assert !IsSpace(DefaultModel[0]);
  }

  // ---------------------------------------------------------------------
  // what is sent upstream and what is stored

  const PngPrefix: string := "data:image/png;base64,"

  /** The chat request: the resolved model and the screenshot, always
      labelled as PNG whatever subtype the client sent. */
  datatype UpstreamRequest = UpstreamRequest(model: string, imageUrl: string)

  /** The request for a model setting and the value of
      `image.split(',')[1]`; a missing field is interpolated as the text
      `undefined`, as a template literal does. */
  function BuildRequest(model: Option<string>, payload: Option<string>): UpstreamRequest {
    var field := match payload case Some(p) => p case None => "undefined";
    UpstreamRequest(ResolveModel(model), PngPrefix + field)
  }

  /** A comma-free payload behind any well-formed prefix is accepted and
      comes back out unchanged. */
  lemma {:induction false} SubtypeUrlPayload(t: string, payload: string)
    requires IsSubtype(t) && ',' !in payload
    ensures IsImageDataUrl(MediaPrefix + t + Base64Marker + payload)
    ensures Base64Payload(MediaPrefix + t + Base64Marker + payload) == Some(payload)
  {
    var url := MediaPrefix + t + Base64Marker + payload;
    var p := |MediaPrefix| + |t| + |Base64Marker|;
    DataUrlPrefixIff(url, t, payload);
    assert IsImageDataUrl(url);
    assert Base64Payload(url) == Some(payload) by {
      PrefixHasOneComma(url);
      assert url == url[..p - 1] + [','] + payload by {
        assert url[p - 1] == ',';
        assert url[p..] == payload;
      }
      SplitCons(url[..p - 1], ',', payload);
      IndexOfAbsent(payload, ',');
    }
  }

  /** A comma-free payload behind the PNG prefix is accepted and comes
      back out unchanged. */
  lemma {:induction false} PngUrlPayload(payload: string)
    requires ',' !in payload
    ensures IsImageDataUrl(PngPrefix + payload)
    ensures Base64Payload(PngPrefix + payload) == Some(payload)
  {
    assert PngPrefix == MediaPrefix + "png" + Base64Marker;
    SubtypeUrlPayload("png", payload);
  }

  /** For an accepted image the forwarded URL is the payload behind the
      PNG prefix; it passes the same schema check and carries the same
      payload, so the `undefined` case never arises. */
  lemma {:induction false} ForwardedUrlRoundTrip(model: Option<string>, image: string)
    requires IsImageDataUrl(image)
    ensures var url := BuildRequest(model, Base64Payload(image)).imageUrl;
      Base64Payload(image).Some? && url == PngPrefix + Base64Payload(image).value
      && IsImageDataUrl(url) && Base64Payload(url) == Base64Payload(image)
  {
    PayloadFollowsMarker(image);
    var p := DataUrlPrefix(image).value;
    var payload := image[p..][..IndexOf(image[p..], ',')];
    assert ',' !in payload;
    PngUrlPayload(payload);
  }

  const Anonymous: string := "anonymous"

  /** A row of the `conversions` table as the endpoints write it.  The
      endpoints leave the preview image unset (it stays null), and the
      creation time is the ORM's insert-time default (the current date);
      neither is modelled. */
  datatype Conversion = Conversion(id: string, userId: string, htmlOutput: string)
}
