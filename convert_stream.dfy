/** The streaming conversion endpoint: after the rate-limit decision and the
    request checks it announces a conversion id, relays every content
    fragment of the upstream event stream as a `chunk` event, then formats,
    stores and announces the result, or reports a single `error`.

    The endpoint's side effects (writes to the response, the upstream
    fetch, the database insert) are recorded, in order, as a trace. */
module ConvertStream {
  import opened Wrappers
  import opened Text
  import opened Request

  const RateLimitStatus: int := 429
  const RateLimitMessage: string := "Rate limit exceeded. Try again later."
  const FailureMessage: string := "Conversion failed"

  /** The JSON events written to the client, one per `data:` frame. */
  datatype Event =
    | IdEvent(id: string)
    | Chunk(content: string)
    | Done(html: string, id: string)
    | Error(message: string)

  datatype Effect =
    | Write(event: Event)
    | Fetch(request: UpstreamRequest)
    | Insert(row: Conversion)

  /** The decoded reads of the upstream body, and whether the reader fails
      (`broken`) instead of reporting done after the last of them. */
  datatype Body = Body(received: seq<string>, broken: bool)

  /** What the fetch gives back: nothing (the fetch rejects), or a response
      with its `ok` flag and, possibly, a readable body. */
  datatype Upstream = Unreachable | Responded(ok: bool, body: Option<Body>)

  datatype Outcome =
    | RateLimited(status: int, message: string)
    | Streamed(effects: seq<Effect>)

  // ---------------------------------------------------------------------
  // the upstream line protocol

  const DataField: string := "data: "
  const DoneMarker: string := "[DONE]"

  /** The content a single line contributes.  `parse` stands for
      `JSON.parse` followed by `choices?.[0]?.delta?.content || ''`: `None`
      when parsing throws, the content (possibly empty) otherwise. */
  function LineFragment(line: string, parse: string -> Option<string>): Option<string> {
    if StartsWith(line, DataField) && line[6..] != DoneMarker then
      match parse(line[6..])
      case Some(content) => if content != "" then Some(content) else None
      case None => None
    else None
  }

  function AsSeq(o: Option<string>): seq<string> {
    match o case Some(x) => [x] case None => []
  }

  /** The fragments of a list of lines, in order; none of them is empty. */
  function LineFragments(lines: seq<string>, parse: string -> Option<string>): (r: seq<string>)
    ensures forall i :: 0 <= i < |r| ==> r[i] != ""
  {
    if |lines| == 0 then []
    else LineFragments(lines[..|lines| - 1], parse) + AsSeq(LineFragment(lines[|lines| - 1], parse))
  }

  /** A read is split on `\n` on its own: nothing is carried from one
      read to the next. */
  function ReadFragments(read: string, parse: string -> Option<string>): (r: seq<string>)
    ensures forall i :: 0 <= i < |r| ==> r[i] != ""
  {
    LineFragments(Split(read, '\n'), parse)
  }

  /** The fragments of a whole body, read by read; none of them is empty. */
  function Fragments(received: seq<string>, parse: string -> Option<string>): (r: seq<string>)
    ensures forall i :: 0 <= i < |r| ==> r[i] != ""
  {
    if |received| == 0 then []
    else Fragments(received[..|received| - 1], parse) + ReadFragments(received[|received| - 1], parse)
  }

  /** The read loop: every non-empty fragment, in arrival order, and the
      accumulated text, which is always their concatenation. */
  method Relay(received: seq<string>, parse: string -> Option<string>) returns (fullHtml: string, chunks: seq<string>)
    ensures chunks == Fragments(received, parse)
    ensures fullHtml == Concat(chunks)
  {
    fullHtml, chunks := "", [];
    var i := 0;
    while i < |received|
      invariant 0 <= i <= |received|
      invariant chunks == Fragments(received[..i], parse)
      invariant fullHtml == Concat(chunks)
    {
      var lines := Split(received[i], '\n');
      fullHtml, chunks := RelayLines(lines, parse, fullHtml, chunks);
      FragmentsStep(received, i, parse);
      i := i + 1;
    }
    assert received[..i] == received;
  }

  /** The loop over the lines of one read: appends their fragments to the
      chunks relayed so far, and their text to the accumulated markup. */
  method RelayLines(lines: seq<string>, parse: string -> Option<string>, html0: string, chunks0: seq<string>)
    returns (fullHtml: string, chunks: seq<string>)
    requires html0 == Concat(chunks0)
    ensures chunks == chunks0 + LineFragments(lines, parse)
    ensures fullHtml == Concat(chunks)
  {
    fullHtml, chunks := html0, chunks0;
    var j := 0;
    assert lines[..0] == [];
    while j < |lines|
      invariant 0 <= j <= |lines|
      invariant chunks == chunks0 + LineFragments(lines[..j], parse)
      invariant fullHtml == Concat(chunks)
    {
      fullHtml, chunks := RelayLine(lines[j], parse, fullHtml, chunks);
      LineFragmentsStep(lines, j, parse);
      AppendAssoc(chunks0, LineFragments(lines[..j], parse), AsSeq(LineFragment(lines[j], parse)));
      j := j + 1;
    }
    assert lines[..j] == lines;
  }

  /** One line: a `data: ` line other than `[DONE]` whose payload parses
      to non-empty content has that content relayed and appended to the
      markup; every other line changes nothing. */
  method RelayLine(line: string, parse: string -> Option<string>, html0: string, chunks0: seq<string>)
    returns (fullHtml: string, chunks: seq<string>)
    requires html0 == Concat(chunks0)
    ensures chunks == chunks0 + AsSeq(LineFragment(line, parse))
    ensures fullHtml == Concat(chunks)
  {
    fullHtml, chunks := html0, chunks0;
    if StartsWith(line, DataField) {
      var data := line[6..];
      if data != DoneMarker {
        var parsed := parse(data);
        if parsed.Some? {
          var content := parsed.value;
          if content != "" {
            ConcatSnoc(chunks, content);
            fullHtml := fullHtml + content;
            chunks := chunks + [content];
            return;
          }
        }
      }
    }
    assert AsSeq(LineFragment(line, parse)) == [];
    assert chunks0 + [] == chunks0;
  }

  lemma LineFragmentsStep(lines: seq<string>, j: nat, parse: string -> Option<string>)
    requires j < |lines|
    ensures LineFragments(lines[..j + 1], parse) == LineFragments(lines[..j], parse) + AsSeq(LineFragment(lines[j], parse))
  {
    assert lines[..j + 1][..j] == lines[..j];
  }

  lemma FragmentsStep(received: seq<string>, i: nat, parse: string -> Option<string>)
    requires i < |received|
    ensures Fragments(received[..i + 1], parse) == Fragments(received[..i], parse) + ReadFragments(received[i], parse)
  {
    assert received[..i + 1][..i] == received[..i];
  }

  lemma ConcatSnoc(chunks: seq<string>, c: string)
    ensures Concat(chunks + [c]) == Concat(chunks) + c
  {
    assert (chunks + [c])[..|chunks|] == chunks;
  }

  // ---------------------------------------------------------------------
  // the handler

  /** The body has a valid `image` and the API key is a string; `None`
      stands for a missing or non-string value. */
  predicate Acceptable(image: Option<string>, apiKey: Option<string>) {
    image.Some? && IsImageDataUrl(image.value) && apiKey.Some?
  }

  function ChunkWrites(chunks: seq<string>): (w: seq<Effect>)
    ensures |w| == |chunks|
  {
    seq(|chunks|, i requires 0 <= i < |chunks| => Write(Chunk(chunks[i])))
  }

  /** The trace after the fetch: the relayed chunks, then the rest, or a
      lone `error` when there is no readable, successful response. */
  function Relayed(upstream: Upstream, parse: string -> Option<string>, format: string -> Option<string>,
                   insert: Conversion -> bool, id: string): seq<Effect>
  {
    if upstream.Responded? && upstream.ok && upstream.body.Some? then
      var chunks := Fragments(upstream.body.value.received, parse);
      ChunkWrites(chunks) + Finish(upstream.body.value.broken, Concat(chunks), format, insert, id)
    else [Write(Error(FailureMessage))]
  }

  /** The trace after the read loop: the insert of the formatted markup and
      `done`, or an `error` at the first step that fails. */
  function Finish(broken: bool, fullHtml: string, format: string -> Option<string>,
                  insert: Conversion -> bool, id: string): seq<Effect>
  {
    if broken then [Write(Error(FailureMessage))]
    else match format(Trim(fullHtml))
      case None => [Write(Error(FailureMessage))]
      case Some(html) =>
        var row := Conversion(id, Anonymous, html);
        [Insert(row), Write(if insert(row) then Done(html, id) else Error(FailureMessage))]
  }

  /** The endpoint's whole behaviour for given inputs and oracles. */
  function Handle(denied: bool, image: Option<string>, apiKey: Option<string>, model: Option<string>,
                  freshId: string, upstream: Upstream, parse: string -> Option<string>,
                  format: string -> Option<string>, insert: Conversion -> bool): Outcome
  {
    if denied then RateLimited(RateLimitStatus, RateLimitMessage)
    else Streamed(Attempted(image, apiKey, model, freshId, upstream, parse, format, insert))
  }

  /** The trace of the guarded part of the handler: a lone `error` for a
      rejected request, otherwise the id, the fetch and what follows. */
  function Attempted(image: Option<string>, apiKey: Option<string>, model: Option<string>,
                     freshId: string, upstream: Upstream, parse: string -> Option<string>,
                     format: string -> Option<string>, insert: Conversion -> bool): seq<Effect>
  {
    if !Acceptable(image, apiKey) then [Write(Error(FailureMessage))]
    else
      var request := BuildRequest(model, Base64Payload(image.value));
      [Write(IdEvent(freshId)), Fetch(request)] + Relayed(upstream, parse, format, insert, freshId)
  }

  /** Everything after the fetch: check the response, relay the body,
      then finish. */
  method Respond(upstream: Upstream, parse: string -> Option<string>, format: string -> Option<string>,
                 insert: Conversion -> bool, conversionId: string)
    returns (trace: seq<Effect>)
    ensures trace == Relayed(upstream, parse, format, insert, conversionId)
  {
    if upstream.Unreachable? || !upstream.ok || upstream.body.None? {
      return [Write(Error(FailureMessage))];
    }
    var body := upstream.body.value;
    var fullHtml, chunks := Relay(body.received, parse);
    var rest := Complete(body.broken, fullHtml, format, insert, conversionId);
    trace := ChunkWrites(chunks) + rest;
  }

  /** After the read loop: format the trimmed markup, store it and announce
      it, or report an error at the first step that fails. */
  method Complete(broken: bool, fullHtml: string, format: string -> Option<string>,
                  insert: Conversion -> bool, id: string)
    returns (trace: seq<Effect>)
    ensures trace == Finish(broken, fullHtml, format, insert, id)
  {
    if broken {
      return [Write(Error(FailureMessage))];
    }
    var formatted := format(Trim(fullHtml));
    if formatted.None? {
      return [Write(Error(FailureMessage))];
    }
    var row := Conversion(id, Anonymous, formatted.value);
    trace := [Insert(row)];
    if insert(row) {
      trace := trace + [Write(Done(formatted.value, id))];
    } else {
      trace := trace + [Write(Error(FailureMessage))];
    }
  }

  /** The handler, step by step.  `denied` is the rate limiter's decision,
      `image`, `apiKey` and `model` the request field and the configuration,
      `freshId` the generated UUID, `upstream` what the fetch returns, and
      `parse`, `format` and `insert` stand for the JSON payload extraction,
      the formatter and the database insert (`false` when it throws). */
  method ConvertStream(denied: bool, image: Option<string>, apiKey: Option<string>, model: Option<string>,
                       freshId: string, upstream: Upstream, parse: string -> Option<string>,
                       format: string -> Option<string>, insert: Conversion -> bool)
    returns (out: Outcome)
    ensures out == Handle(denied, image, apiKey, model, freshId, upstream, parse, format, insert)
  {
    if denied {
      return RateLimited(RateLimitStatus, RateLimitMessage);
    }
    var trace := Attempt(image, apiKey, model, freshId, upstream, parse, format, insert);
    return Streamed(trace);
  }

  /** The body of the `try` block and its `catch`. */
  method Attempt(image: Option<string>, apiKey: Option<string>, model: Option<string>,
                 freshId: string, upstream: Upstream, parse: string -> Option<string>,
                 format: string -> Option<string>, insert: Conversion -> bool)
    returns (trace: seq<Effect>)
    ensures trace == Attempted(image, apiKey, model, freshId, upstream, parse, format, insert)
  {
    if !Acceptable(image, apiKey) {
      return [Write(Error(FailureMessage))];
    }
    var base64Data := Base64Payload(image.value);
    var conversionId := freshId;
    var opening := [Write(IdEvent(conversionId))];
    var request := BuildRequest(model, base64Data);
    opening := opening + [Fetch(request)];
    assert opening == [Write(IdEvent(freshId)), Fetch(request)];
    var rest := Respond(upstream, parse, format, insert, conversionId);
    trace := opening + rest;
  }
}

module ConvertStreamProperties {
  import opened Wrappers
  import opened Text
  import opened Request
  import opened ConvertStream

  // ---------------------------------------------------------------------
  // the line protocol

  /** A line contributes exactly when it is a `data: ` line other than the
      terminator whose payload parses to non-empty content, and it then
      contributes that content. */
  lemma LineFragmentContributes(line: string, parse: string -> Option<string>)
    ensures LineFragment(line, parse).Some? <==>
              StartsWith(line, DataField) && line[|DataField|..] != DoneMarker &&
              parse(line[|DataField|..]).Some? && parse(line[|DataField|..]).value != ""
    ensures LineFragment(line, parse).Some? ==> LineFragment(line, parse) == parse(line[|DataField|..])
  {
  }

  /** A read without a line break is a single line. */
  lemma SingleLineRead(line: string, parse: string -> Option<string>)
    requires '\n' !in line
    ensures ReadFragments(line, parse) == AsSeq(LineFragment(line, parse))
  {
    IndexOfAbsent(line, '\n');
    var lines: seq<string> := [line];
    assert Split(line, '\n') == lines;
    assert lines[..0] == [];
    assert LineFragments(lines, parse) == LineFragments(lines[..0], parse) + AsSeq(LineFragment(line, parse));
  }

  /** A body of one read has that read's fragments. */
  lemma OneRead(read: string, parse: string -> Option<string>)
    ensures Fragments([read], parse) == ReadFragments(read, parse)
  {
    var received: seq<string> := [read];
    assert received[..0] == [];
    assert Fragments(received, parse) == Fragments(received[..0], parse) + ReadFragments(read, parse);
  }

  /** Reads are independent: the fragments of a body are those of its
      first part followed by those of the rest, with nothing carried over. */
  lemma {:induction false} FragmentsAppend(a: seq<string>, b: seq<string>, parse: string -> Option<string>)
    ensures Fragments(a + b, parse) == Fragments(a, parse) + Fragments(b, parse)
    decreases |b|
  {
    if |b| == 0 {
      assert a + b == a;
    } else {
      var init, last := b[..|b| - 1], b[|b| - 1];
      assert (a + b)[..|a + b| - 1] == a + init;
      assert (a + b)[|a + b| - 1] == last;
      FragmentsAppend(a, init, parse);
      AppendAssoc(Fragments(a, parse), Fragments(init, parse), ReadFragments(last, parse));
    }
  }

  /** The lines that contribute nothing: the end marker, a line that is not
      a `data: ` line, a payload that does not parse, and a payload with
      empty content. */
  lemma SilentLines(line: string, payload: string, parse: string -> Option<string>)
    ensures ReadFragments(DataField + DoneMarker, parse) == []
    ensures '\n' !in line && !StartsWith(line, DataField) ==> ReadFragments(line, parse) == []
    ensures '\n' !in payload && (parse(payload).None? || parse(payload) == Some("")) ==>
      ReadFragments(DataField + payload, parse) == []
  {
    SingleLineRead(DataField + DoneMarker, parse);
    assert (DataField + DoneMarker)[6..] == DoneMarker;
    if '\n' !in line {
      SingleLineRead(line, parse);
    }
    if '\n' !in payload {
      assert '\n' !in DataField;
      SingleLineRead(DataField + payload, parse);
      assert (DataField + payload)[6..] == payload;
    }
  }

  /** A read that contributes nothing neither emits a chunk nor stops the
      loop: the reads after it are relayed as if it were not there. */
  lemma SilentReadSkipped(before: seq<string>, read: string, after: seq<string>, parse: string -> Option<string>)
    requires ReadFragments(read, parse) == []
    ensures Fragments(before + [read] + after, parse) == Fragments(before, parse) + Fragments(after, parse)
  {
    FragmentsAppend(before + [read], after, parse);
    FragmentsAppend(before, [read], parse);
    OneRead(read, parse);
    assert Fragments(before + [read], parse) == Fragments(before, parse);
  }

  /** A `data: ` line whose payload is cut in two by a read boundary is
      lost: the first half does not parse and the second half is no
      `data: ` line. */
  lemma LineSplitAcrossReadsIsLost(first: string, second: string, parse: string -> Option<string>)
    requires '\n' !in first && '\n' !in second
    requires !StartsWith(second, DataField) && parse(first).None?
    ensures Fragments([DataField + first, second], parse) == []
  {
    SilentLines(second, first, parse);
    var split: seq<string> := [DataField + first, second];
    assert split == [DataField + first] + [second];
    FragmentsAppend([DataField + first], [second], parse);
    OneRead(second, parse);
    OneRead(DataField + first, parse);
  }

  /** The same line arriving within one read is relayed. */
  lemma WholeLineRelayed(payload: string, parse: string -> Option<string>)
    requires '\n' !in payload && payload != DoneMarker
    requires parse(payload).Some? && parse(payload).value != ""
    ensures Fragments([DataField + payload], parse) == [parse(payload).value]
  {
    var line: string := DataField + payload;
    assert '\n' !in line by {
      assert '\n' !in DataField;
    }
    SingleLineRead(line, parse);
    assert line[6..] == payload;
    OneRead(line, parse);
  }

  // ---------------------------------------------------------------------
  // the event protocol

  /** The events among the effects, in order. */
  function Written(effects: seq<Effect>): seq<Event> {
    if |effects| == 0 then []
    else
      var last := effects[|effects| - 1];
      Written(effects[..|effects| - 1]) + if last.Write? then [last.event] else []
  }

  lemma {:induction false} WrittenAppend(a: seq<Effect>, b: seq<Effect>)
    ensures Written(a + b) == Written(a) + Written(b)
    decreases |b|
  {
    if |b| == 0 {
      assert a + b == a;
    } else {
      assert (a + b)[..|a + b| - 1] == a + b[..|b| - 1];
      WrittenAppend(a, b[..|b| - 1]);
    }
  }

  function ChunkEvents(chunks: seq<string>): seq<Event> {
    seq(|chunks|, i requires 0 <= i < |chunks| => Chunk(chunks[i]))
  }

  lemma WrittenPair(a: Effect, b: Effect)
    ensures Written([a, b]) == Written([a]) + Written([b])
  {
    WrittenAppend([a], [b]);
    assert [a] + [b] == [a, b];
  }

  lemma WrittenSingle(e: Effect)
    ensures Written([e]) == if e.Write? then [e.event] else []
  {
    var es: seq<Effect> := [e];
    assert es[..0] == [];
  }

  /** The relayed chunk writes are exactly the chunk events, in order. */
  lemma {:induction false} WrittenChunks(chunks: seq<string>)
    ensures Written(ChunkWrites(chunks)) == ChunkEvents(chunks)
    decreases |chunks|
  {
    if |chunks| > 0 {
      var init := chunks[..|chunks| - 1];
      assert ChunkWrites(chunks)[..|chunks| - 1] == ChunkWrites(init);
      WrittenChunks(init);
    }
  }

  predicate IsTerminal(e: Event) {
    e.Done? || e.Error?
  }

  /** `id, chunk*, (done | error)`. */
  predicate Protocol(events: seq<Event>, id: string) {
    && 2 <= |events|
    && events[0] == IdEvent(id)
    && IsTerminal(events[|events| - 1])
    && forall k :: 0 < k < |events| - 1 ==> events[k].Chunk?
  }

  /** Every step after the fetch succeeds: a readable, successful response
      whose reader finishes, a formattable result and a committed insert. */
  predicate Completes(upstream: Upstream, parse: string -> Option<string>, format: string -> Option<string>,
                      insert: Conversion -> bool, id: string)
  {
    && upstream.Responded? && upstream.ok && upstream.body.Some? && !upstream.body.value.broken
    && var html := format(Trim(Concat(Fragments(upstream.body.value.received, parse))));
       html.Some? && insert(Conversion(id, Anonymous, html.value))
  }

  /** The markup the `done` event and the stored row carry on success. */
  function FinalHtml(upstream: Upstream, parse: string -> Option<string>, format: string -> Option<string>,
                     insert: Conversion -> bool, id: string): string
    requires Completes(upstream, parse, format, insert, id)
  {
    format(Trim(Concat(Fragments(upstream.body.value.received, parse)))).value
  }

  /** A rate-limit denial is answered with 429 before anything is read,
      fetched or written. */
  lemma DenialComesFirst(denied: bool, image: Option<string>, apiKey: Option<string>,
                         model: Option<string>, freshId: string, upstream: Upstream,
                         parse: string -> Option<string>, format: string -> Option<string>,
                         insert: Conversion -> bool)
    ensures var out := Handle(denied, image, apiKey, model, freshId, upstream, parse, format, insert);
      (denied <==> out.RateLimited?) && (denied ==> out == RateLimited(429, "Rate limit exceeded. Try again later."))
  {
  }

  /** A bad image or a missing API key yields a lone `error` event: no id is
      announced and nothing is fetched or stored.  Conversely an id is
      announced exactly when the request is acceptable. */
  lemma InvalidRequestIsOneError(denied: bool, image: Option<string>, apiKey: Option<string>,
                                 model: Option<string>, freshId: string, upstream: Upstream,
                                 parse: string -> Option<string>, format: string -> Option<string>,
                                 insert: Conversion -> bool)
    requires !denied
    ensures var out := Handle(denied, image, apiKey, model, freshId, upstream, parse, format, insert);
      && out.Streamed? && 0 < |out.effects|
      && (!Acceptable(image, apiKey) ==> out.effects == [Write(Error("Conversion failed"))])
      && (out.effects[0] == Write(IdEvent(freshId)) <==> Acceptable(image, apiKey))
  {
  }

  /** The events after the read loop: exactly one terminal event, a `done`
      exactly when the insert committed. */
  lemma FinishWritesOneTerminal(broken: bool, fullHtml: string, format: string -> Option<string>,
                                insert: Conversion -> bool, id: string)
    ensures var events := Written(Finish(broken, fullHtml, format, insert, id));
      |events| == 1 && IsTerminal(events[0])
  {
    var rest := Finish(broken, fullHtml, format, insert, id);
    if !broken && format(Trim(fullHtml)).Some? {
      WrittenPair(rest[0], rest[1]);
      WrittenSingle(rest[0]);
      WrittenSingle(rest[1]);
      assert rest == [rest[0], rest[1]];
    } else {
      WrittenSingle(rest[0]);
      assert rest == [rest[0]];
    }
  }

  /** Once the id is announced the client sees `id, chunk*, (done | error)`. */
  lemma {:induction false} StreamFollowsProtocol(image: Option<string>, apiKey: Option<string>,
                                                 model: Option<string>, freshId: string, upstream: Upstream,
                                                 parse: string -> Option<string>, format: string -> Option<string>,
                                                 insert: Conversion -> bool)
    requires Acceptable(image, apiKey)
    ensures var out := Handle(false, image, apiKey, model, freshId, upstream, parse, format, insert);
      out.Streamed? && Protocol(Written(out.effects), freshId)
  {
    var out := Handle(false, image, apiKey, model, freshId, upstream, parse, format, insert);
    var request := BuildRequest(model, Base64Payload(image.value));
    var head := [Write(IdEvent(freshId)), Fetch(request)];
    var tail := Relayed(upstream, parse, format, insert, freshId);
    assert out.effects == head + tail;
    WrittenAppend(head, tail);
    assert Written(head) == [IdEvent(freshId)] by {
      WrittenPair(head[0], head[1]);
      WrittenSingle(head[0]);
      WrittenSingle(head[1]);
    }
    if upstream.Responded? && upstream.ok && upstream.body.Some? {
      var body := upstream.body.value;
      var chunks := Fragments(body.received, parse);
      var rest := Finish(body.broken, Concat(chunks), format, insert, freshId);
      WrittenAppend(ChunkWrites(chunks), rest);
      WrittenChunks(chunks);
      FinishWritesOneTerminal(body.broken, Concat(chunks), format, insert, freshId);
      var events := Written(out.effects);
      assert events == [IdEvent(freshId)] + (ChunkEvents(chunks) + Written(rest));
      forall k | 0 < k < |events| - 1 ensures events[k].Chunk? {
        assert events[k] == ChunkEvents(chunks)[k - 1];
      }
    } else {
      WrittenSingle(tail[0]);
      assert tail == [tail[0]];
    }
  }

  /** The stream ends in `done` exactly when every step after the fetch
      succeeds; then the row with the announced id, user `anonymous` and the
      formatted, trimmed markup is inserted immediately before `done`, which
      carries the same markup and id. */
  lemma {:induction false} DoneExactlyOnSuccess(image: Option<string>, apiKey: Option<string>,
                                                model: Option<string>, freshId: string, upstream: Upstream,
                                                parse: string -> Option<string>, format: string -> Option<string>,
                                                insert: Conversion -> bool)
    requires Acceptable(image, apiKey)
    ensures var out := Handle(false, image, apiKey, model, freshId, upstream, parse, format, insert);
      && out.Streamed? && 3 <= |out.effects|
      && (out.effects[|out.effects| - 1].Write? && out.effects[|out.effects| - 1].event.Done?
          <==> Completes(upstream, parse, format, insert, freshId))
      && (Completes(upstream, parse, format, insert, freshId) ==>
            var html := FinalHtml(upstream, parse, format, insert, freshId);
            && out.effects[|out.effects| - 2] == Insert(Conversion(freshId, "anonymous", html))
            && out.effects[|out.effects| - 1] == Write(Done(html, freshId)))
      && (!Completes(upstream, parse, format, insert, freshId) ==>
            out.effects[|out.effects| - 1] == Write(Error("Conversion failed")))
  {
    var out := Handle(false, image, apiKey, model, freshId, upstream, parse, format, insert);
    var opening := [Write(IdEvent(freshId)), Fetch(BuildRequest(model, Base64Payload(image.value)))];
    if upstream.Responded? && upstream.ok && upstream.body.Some? {
      var chunks := Fragments(upstream.body.value.received, parse);
      var f := Finish(upstream.body.value.broken, Concat(chunks), format, insert, freshId);
      FinishEnds(upstream.body.value.broken, Concat(chunks), format, insert, freshId);
      AppendAssoc(opening, ChunkWrites(chunks), f);
      var head := opening + ChunkWrites(chunks);
      assert out.effects == head + f;
      assert out.effects[|out.effects| - 1] == f[|f| - 1];
      if Completes(upstream, parse, format, insert, freshId) {
        assert out.effects[|out.effects| - 2] == f[0];
      }
    } else {
      assert out.effects == opening + [Write(Error(FailureMessage))];
    }
  }

  /** The steps after the read loop end in `done`, right after the insert
      it announces, exactly when the body was read to the end, the formatter
      succeeded and the insert committed; otherwise in `error`. */
  lemma FinishEnds(broken: bool, fullHtml: string, format: string -> Option<string>,
                   insert: Conversion -> bool, id: string)
    ensures var f := Finish(broken, fullHtml, format, insert, id);
      var html := format(Trim(fullHtml));
      && 0 < |f|
      && (!broken && html.Some? && insert(Conversion(id, Anonymous, html.value)) ==>
            f == [Insert(Conversion(id, Anonymous, html.value)), Write(Done(html.value, id))])
      && (broken || html.None? || !insert(Conversion(id, Anonymous, html.value)) ==>
            f[|f| - 1] == Write(Error(FailureMessage)))
  {
  }

  /** Every relayed fragment is written as a `chunk`, in arrival order,
      right after the id and the fetch. */
  lemma {:induction false} ChunksRelayedInOrder(image: Option<string>, apiKey: Option<string>,
                                                model: Option<string>, freshId: string, upstream: Upstream,
                                                parse: string -> Option<string>, format: string -> Option<string>,
                                                insert: Conversion -> bool)
    requires Acceptable(image, apiKey)
    requires upstream.Responded? && upstream.ok && upstream.body.Some?
    ensures var out := Handle(false, image, apiKey, model, freshId, upstream, parse, format, insert);
      var chunks := Fragments(upstream.body.value.received, parse);
      && out.Streamed? && 2 + |chunks| < |out.effects|
      && out.effects[2..2 + |chunks|] == ChunkWrites(chunks)
      && out.effects[1] == Fetch(BuildRequest(model, Base64Payload(image.value)))
  {
    var out := Handle(false, image, apiKey, model, freshId, upstream, parse, format, insert);
    var chunks := Fragments(upstream.body.value.received, parse);
    var head := [Write(IdEvent(freshId)), Fetch(BuildRequest(model, Base64Payload(image.value)))];
    var writes := ChunkWrites(chunks);
    var rest := Finish(upstream.body.value.broken, Concat(chunks), format, insert, freshId);
    assert out.effects == head + (writes + rest);
    assert 0 < |rest| by {
      FinishWritesOneTerminal(upstream.body.value.broken, Concat(chunks), format, insert, freshId);
    }
    MiddleSlice(head, writes, rest);
  }

  lemma MiddleSlice<T>(head: seq<T>, middle: seq<T>, rest: seq<T>)
    ensures (head + (middle + rest))[|head|..|head| + |middle|] == middle
    ensures (head + (middle + rest))[..|head|] == head
  {
  }
}
