/** The HTTP streaming transport (lib/transport-http-stream-transport.js):
    one persistent `GET <uri>&when=open` whose response body is a sequence
    of `data: <payload>` records, each terminated by a blank line. Chunks of
    the body arrive in arbitrary pieces; a carry-over buffer holds the
    unterminated tail between them. */
module StreamTransport {
  import opened TransportEvents
  import opened Framing

  /** What one `data` event yields: the complete records, still carrying
      their `data: ` prefix, in split order, and the new carry-over buffer. */
  datatype Step = Step(records: seq<string>, buffer: string)

  /** Every piece of a string's split but the last is a complete record; the
      last one is what is carried over. */
  function Whole(s: string): Step {
    var parts := Split(s);
    Step(Init(parts), Last(parts))
  }

  /** The records of a string, each with its separator, followed by what is
      carried over, give back the string; what is carried over holds no
      separator. */
  lemma WholeConserves(s: string)
    ensures Terminated(Whole(s).records) + Whole(s).buffer == s
    ensures NoSeparator(Whole(s).buffer)
  {
    SplitIsLeftmost(s);
  }

  /** The concatenate-and-split part of the `data` handler, given the chunk
      after its leading whitespace is gone: an empty chunk is ignored,
      anything else is appended to the buffer and split on `"\n\n"`. */
  function Absorb(buffer: string, chunk: string): (r: Step)
    ensures buffer + chunk == Terminated(r.records) + r.buffer
    ensures chunk == "" ==> r == Step([], buffer)
    ensures chunk != "" ==> NoSeparator(r.buffer)
  {
    if chunk == "" then Step([], buffer)
    else
      WholeConserves(buffer + chunk);
      Whole(buffer + chunk)
  }

  /** The whole `data` handler as written: leading whitespace is stripped
      from EVERY chunk before it is absorbed. Nothing is lost or invented:
      the old buffer and the stripped chunk are exactly the complete records,
      each with its separator, followed by the new buffer. */
  function ChunkStep(buffer: string, chunk: string): (r: Step)
    ensures buffer + StripLeadingWhitespace(chunk) == Terminated(r.records) + r.buffer
    ensures StripLeadingWhitespace(chunk) == "" ==> r == Step([], buffer)
    ensures StripLeadingWhitespace(chunk) != "" ==>
              NoSeparator(r.buffer) && r.buffer == Last(Split(buffer + StripLeadingWhitespace(chunk)))
  {
    Absorb(buffer, StripLeadingWhitespace(chunk))
  }

  /** The records a response yields when its body arrives as `chunks`,
      starting from `buffer`, with the handler as written. */
  function Feed(buffer: string, chunks: seq<string>): Step
    decreases |chunks|
  {
    if chunks == [] then Step([], buffer)
    else
      var first := ChunkStep(buffer, chunks[0]);
      var rest := Feed(first.buffer, chunks[1..]);
      Step(first.records + rest.records, rest.buffer)
  }

  /** Absorbing chunks one by one, with no stripping. */
  function AbsorbAll(buffer: string, chunks: seq<string>): Step
    decreases |chunks|
  {
    if chunks == [] then Step([], buffer)
    else
      var first := Absorb(buffer, chunks[0]);
      var rest := AbsorbAll(first.buffer, chunks[1..]);
      Step(first.records + rest.records, rest.buffer)
  }

  lemma InitAppend(a: seq<string>, b: seq<string>)
    requires |b| >= 1
    ensures Init(a + b) == a + Init(b) && Last(a + b) == Last(b)
  {
    assert (a + b)[..|a + b| - 1] == a + b[..|b| - 1];
  }

  /** The records of `x + y` are those of `x` followed by those of what
      `x` leaves over, continued with `y`. */
  lemma WholeAppend(x: string, y: string)
    ensures Whole(x + y) == Step(Whole(x).records + Whole(Whole(x).buffer + y).records,
                                 Whole(Whole(x).buffer + y).buffer)
  {
    SplitAppend(x, y);
    InitAppend(Init(Split(x)), Split(Last(Split(x)) + y));
  }

  /** A buffer without a separator yields no record and is carried over whole. */
  lemma WholeOfUnterminated(s: string)
    requires NoSeparator(s)
    ensures Whole(s) == Step([], s)
  {
    LeftmostSplitUnique(s, [s]);
  }

  lemma ConcatCons(prefix: string, c: string, tail: seq<string>)
    ensures prefix + Concat([c] + tail) == (prefix + c) + Concat(tail)
  {
    assert ([c] + tail)[1..] == tail;
  }

  /** An empty chunk is skipped. */
  lemma AbsorbEmptyChunk(buffer: string, tail: seq<string>)
    requires AbsorbAll(buffer, tail) == Whole(buffer + Concat(tail))
    ensures AbsorbAll(buffer, [""] + tail) == Whole(buffer + Concat([""] + tail))
  {
    assert ([""] + tail)[1..] == tail;
    ConcatCons(buffer, "", tail);
    assert buffer + "" == buffer;
  }

  /** A non-empty chunk contributes the records it completes. */
  lemma AbsorbChunk(buffer: string, c: string, tail: seq<string>)
    requires c != ""
    requires AbsorbAll(Whole(buffer + c).buffer, tail) == Whole(Whole(buffer + c).buffer + Concat(tail))
    ensures AbsorbAll(buffer, [c] + tail) == Whole(buffer + Concat([c] + tail))
  {
    assert ([c] + tail)[1..] == tail;
    ConcatCons(buffer, c, tail);
    WholeAppend(buffer + c, Concat(tail));
  }

  /** Absorbing chunks one at a time yields the records of their
      concatenation, however it is cut. */
  lemma {:induction false} AbsorbAllWhole(buffer: string, chunks: seq<string>)
    requires NoSeparator(buffer)
    ensures AbsorbAll(buffer, chunks) == Whole(buffer + Concat(chunks))
    decreases |chunks|
  {
    if chunks == [] {
      WholeOfUnterminated(buffer);
      assert buffer + Concat(chunks) == buffer;
    } else {
      var c, tail := chunks[0], chunks[1..];
      assert chunks == [c] + tail;
      AbsorbAllWhole(Absorb(buffer, c).buffer, tail);
      if c == "" {
        AbsorbEmptyChunk(buffer, tail);
      } else {
        AbsorbChunk(buffer, c, tail);
      }
    }
  }

  /** A string none of whose chunks starts with whitespace does not start
      with whitespace either. */
  lemma {:induction false} ConcatNoLeadingWhitespace(chunks: seq<string>)
    requires forall i :: 0 <= i < |chunks| ==> !StartsWithWhitespace(chunks[i])
    ensures !StartsWithWhitespace(Concat(chunks))
  {
    if chunks != [] {
      ConcatNoLeadingWhitespace(chunks[1..]);
      if chunks[0] != "" {
        assert Concat(chunks)[0] == chunks[0][0];
      }
    }
  }

  /** Without leading whitespace in any chunk, the handler as written is
      plain absorption. */
  lemma {:induction false} FeedIsAbsorbAll(buffer: string, chunks: seq<string>)
    requires forall i :: 0 <= i < |chunks| ==> !StartsWithWhitespace(chunks[i])
    ensures Feed(buffer, chunks) == AbsorbAll(buffer, chunks)
    decreases |chunks|
  {
    if chunks != [] {
      assert StripLeadingWhitespace(chunks[0]) == chunks[0];
      FeedIsAbsorbAll(ChunkStep(buffer, chunks[0]).buffer, chunks[1..]);
    }
  }

  /** The condition the handler as written needs: once the body read so far
      holds content, no further chunk starts with whitespace. Padding may be
      spread over any number of leading chunks. */
  predicate PaddingUpFront(chunks: seq<string>) {
    forall i :: 1 <= i < |chunks| && StripLeadingWhitespace(Concat(chunks[..i])) != "" ==>
      !StartsWithWhitespace(chunks[i])
  }

  /** Chunk-boundary independence of the handler as written, under the
      condition it needs: when no chunk after the padding starts with
      whitespace, the records depend only on the whole body, not on where
      it was cut. */
  lemma {:induction false} ChunkBoundaryIndependence(chunks: seq<string>)
    requires PaddingUpFront(chunks)
    ensures Feed("", chunks) == Whole(StripLeadingWhitespace(Concat(chunks)))
    decreases |chunks|
  {
    if chunks == [] {
      WholeOfUnterminated("");
    } else if StripLeadingWhitespace(chunks[0]) == "" {
      PaddingTail(chunks);
      ChunkBoundaryIndependence(chunks[1..]);
      PaddedFirstChunk(chunks);
    } else {
      ContentTail(chunks);
      ContentFirstChunk(chunks);
    }
  }

  /** The body read up to chunk `i` is the first chunk followed by the rest
      read up to chunk `i - 1`. */
  lemma ConcatPrefix(chunks: seq<string>, i: nat)
    requires 1 <= i <= |chunks|
    ensures Concat(chunks[..i]) == chunks[0] + Concat(chunks[1..][..i - 1])
  {
    assert chunks[..i][0] == chunks[0];
    assert chunks[..i][1..] == chunks[1..][..i - 1];
  }

  /** Dropping an all-whitespace first chunk keeps the condition. */
  lemma PaddingTail(chunks: seq<string>)
    requires chunks != [] && StripLeadingWhitespace(chunks[0]) == ""
    requires PaddingUpFront(chunks)
    ensures PaddingUpFront(chunks[1..])
  {
    var tail := chunks[1..];
    forall i | 1 <= i < |tail| && StripLeadingWhitespace(Concat(tail[..i])) != ""
      ensures !StartsWithWhitespace(tail[i])
    {
      ConcatPrefix(chunks, i + 1);
      assert chunks[1..][..i] == tail[..i];
      StripAppend(chunks[0], Concat(tail[..i]));
      assert StripLeadingWhitespace(Concat(chunks[..i + 1])) != "";
      assert tail[i] == chunks[i + 1];
    }
  }

  /** After a first chunk with content, no chunk starts with whitespace. */
  lemma ContentTail(chunks: seq<string>)
    requires chunks != [] && StripLeadingWhitespace(chunks[0]) != ""
    requires PaddingUpFront(chunks)
    ensures forall i :: 1 <= i < |chunks| ==> !StartsWithWhitespace(chunks[i])
  {
    forall i | 1 <= i < |chunks|
      ensures !StartsWithWhitespace(chunks[i])
    {
      ConcatPrefix(chunks, i);
      StripAppend(chunks[0], Concat(chunks[1..][..i - 1]));
      assert StripLeadingWhitespace(Concat(chunks[..i])) != "";
    }
  }

  /** An all-whitespace first chunk is dropped. */
  lemma PaddedFirstChunk(chunks: seq<string>)
    requires chunks != [] && StripLeadingWhitespace(chunks[0]) == ""
    ensures Feed("", chunks) == Feed("", chunks[1..])
    ensures StripLeadingWhitespace(Concat(chunks)) == StripLeadingWhitespace(Concat(chunks[1..]))
  {
    StripAppend(chunks[0], Concat(chunks[1..]));
    assert [] + Feed("", chunks[1..]).records == Feed("", chunks[1..]).records;
  }

  /** A first chunk with content is absorbed after its padding is stripped. */
  lemma ContentFirstChunk(chunks: seq<string>)
    requires chunks != [] && StripLeadingWhitespace(chunks[0]) != ""
    requires forall i :: 1 <= i < |chunks| ==> !StartsWithWhitespace(chunks[i])
    ensures Feed("", chunks) == Whole(StripLeadingWhitespace(Concat(chunks)))
  {
    var tail := chunks[1..];
    var stripped := StripLeadingWhitespace(chunks[0]);
    TailHasNoPadding(chunks);
    var b := Whole(stripped).buffer;
    WholeConserves(stripped);
    FeedIsAbsorbAll(b, tail);
    AbsorbAllWhole(b, tail);
    StripAppend(chunks[0], Concat(tail));
    ChunkStepOfContent("", chunks[0], stripped);
    assert "" + stripped == stripped;
    WholeAppend(stripped, Concat(tail));
  }

  lemma TailHasNoPadding(chunks: seq<string>)
    requires chunks != []
    requires forall i :: 1 <= i < |chunks| ==> !StartsWithWhitespace(chunks[i])
    ensures forall i :: 0 <= i < |chunks[1..]| ==> !StartsWithWhitespace(chunks[1..][i])
  {
    assert forall i :: 0 <= i < |chunks[1..]| ==> chunks[1..][i] == chunks[i + 1];
  }

  /** A record followed by its separator comes first. */
  lemma WholeCons(p: string, rest: string)
    requires NoSeparator(p) && !EndsWithNewline(p)
    ensures Whole(p + Separator + rest) == Step([p] + Whole(rest).records, Whole(rest).buffer)
  {
    SplitCons(p, rest);
    InitAppend([p], Split(rest));
  }

  /** The first chunk of the example below holds no complete record. */
  lemma FirstPieceSplit()
    ensures Whole("data: A\n") == Step([], "data: A\n")
  {
    var p := "data: A\n";
    assert NoSeparator(p);
    WholeOfUnterminated(p);
  }

  /** What the handler as written absorbs from the example below: one
      record, in which the first record's payload runs into the second. */
  lemma MergedSplit()
    ensures Whole("data: A\ndata: B\n\n") == Step(["data: A\ndata: B"], "")
  {
    var p := "data: A\ndata: B";
    assert NoSeparator(p);
    WholeOfUnterminated("");
    WholeCons(p, "");
    assert p + Separator + "" == "data: A\ndata: B\n\n";
  }

  /** The records of the example body taken whole: two of them. */
  lemma BodySplit()
    ensures Whole("data: A\n\ndata: B\n\n") == Step(["data: A", "data: B"], "")
  {
    var a, b := "data: A", "data: B";
    assert NoSeparator(a) && NoSeparator(b);
    WholeOfUnterminated("");
    WholeCons(b, "");
    WholeCons(a, b + Separator + "");
    assert a + Separator + (b + Separator + "") == "data: A\n\ndata: B\n\n";
  }

  /** The handler as written over a body in two chunks. */
  lemma FeedTwo(c1: string, c2: string)
    ensures var first := ChunkStep("", c1);
            var second := ChunkStep(first.buffer, c2);
            Feed("", [c1, c2]) == Step(first.records + second.records, second.buffer)
  {
    assert [c1, c2][1..] == [c2] && [c2][1..] == [];
    var first := ChunkStep("", c1);
    var second := ChunkStep(first.buffer, c2);
    assert Feed(second.buffer, []) == Step([], second.buffer);
    assert Feed(first.buffer, [c2]) == Step(second.records + [], second.buffer);
    assert second.records + [] == second.records;
  }

  /** A chunk that is not all padding is absorbed once its padding is gone. */
  lemma ChunkStepOfContent(buffer: string, chunk: string, stripped: string)
    requires StripLeadingWhitespace(chunk) == stripped && stripped != ""
    ensures ChunkStep(buffer, chunk) == Whole(buffer + stripped)
  {
  }

  /** A single newline in front of content is taken for padding. */
  lemma StripNewline(b: string)
    requires !StartsWithWhitespace(b)
    ensures StripLeadingWhitespace("\n" + b) == b
  {
    assert ("\n" + b)[1..] == b;
  }

  lemma SecondChunkPadded()
    ensures StripLeadingWhitespace("\ndata: B\n\n") == "data: B\n\n"
  {
    StripNewline("data: B\n\n");
    assert "\n" + "data: B\n\n" == "\ndata: B\n\n";
  }

  /** The first chunk of the example, as written: nothing complete yet. */
  lemma ExampleFirstChunk()
    ensures ChunkStep("", "data: A\n") == Step([], "data: A\n")
  {
    assert StripLeadingWhitespace("data: A\n") == "data: A\n";
    ChunkStepOfContent("", "data: A\n", "data: A\n");
    assert "" + "data: A\n" == "data: A\n";
    FirstPieceSplit();
  }

  /** The second chunk of the example, as written: its leading newline is
      stripped as if it were padding. */
  lemma ExampleSecondChunk()
    ensures ChunkStep("data: A\n", "\ndata: B\n\n") == Step(["data: A\ndata: B"], "")
  {
    SecondChunkPadded();
    MergedBody();
    MergedSplit();
    ChunkStepAfterStrip("data: A\n", "\ndata: B\n\n", "data: B\n\n", "data: A\ndata: B\n\n");
  }

  lemma MergedBody()
    ensures "data: A\n" + "data: B\n\n" == "data: A\ndata: B\n\n"
  {
  }

  /** A chunk with content after stripping is absorbed as the whole of the
      buffer followed by the stripped chunk. */
  lemma ChunkStepAfterStrip(buffer: string, chunk: string, stripped: string, joined: string)
    requires StripLeadingWhitespace(chunk) == stripped && stripped != ""
    requires buffer + stripped == joined
    ensures ChunkStep(buffer, chunk) == Whole(joined)
  {
    ChunkStepOfContent(buffer, chunk, stripped);
  }

  /** The handler as written, on a body cut between the two newlines of a
      separator: the second chunk's leading `"\n"` is taken for padding and
      stripped, so the body's two records come out as one. */
  lemma StripMergesRecords()
    ensures Feed("", ["data: A\n", "\ndata: B\n\n"]).records == ["data: A\ndata: B"]
    ensures Whole(Concat(["data: A\n", "\ndata: B\n\n"])).records == ["data: A", "data: B"]
  {
    FeedTwo("data: A\n", "\ndata: B\n\n");
    ExampleFirstChunk();
    ExampleSecondChunk();
    assert [] + ["data: A\ndata: B"] == ["data: A\ndata: B"];
    TwoChunkBody();
    BodySplit();
  }

  lemma TwoChunkBody()
    ensures Concat(["data: A\n", "\ndata: B\n\n"]) == "data: A\n\ndata: B\n\n"
  {
    var c1, c2 := "data: A\n", "\ndata: B\n\n";
    assert [c1, c2][1..] == [c2] && [c2][1..] == [];
    assert Concat([c2]) == c2 + "" == c2;
    assert Concat([c1, c2]) == c1 + c2;
  }

  /** The handler as its comments intend it: only the padding in front of
      the body is stripped; once content has arrived, chunks are absorbed as
      they are. */
  function FeedPaddingOnce(chunks: seq<string>): Step
    decreases |chunks|
  {
    if chunks == [] then Step([], "")
    else if StripLeadingWhitespace(chunks[0]) == "" then FeedPaddingOnce(chunks[1..])
    else AbsorbAll("", [StripLeadingWhitespace(chunks[0])] + chunks[1..])
  }

  /** Stripping only the leading padding makes the records independent of
      where the body is cut, with no condition on the chunks. */
  lemma {:induction false} PaddingOnceBoundaryIndependence(chunks: seq<string>)
    ensures FeedPaddingOnce(chunks) == Whole(StripLeadingWhitespace(Concat(chunks)))
    decreases |chunks|
  {
    if chunks == [] {
      WholeOfUnterminated("");
    } else {
      var c, tail := chunks[0], chunks[1..];
      assert chunks == [c] + tail;
      ConcatCons("", c, tail);
      assert "" + c == c;
      StripAppend(c, Concat(tail));
      var stripped := StripLeadingWhitespace(c);
      if stripped == "" {
        PaddingOnceBoundaryIndependence(tail);
      } else {
        AbsorbAllWhole("", [stripped] + tail);
        ConcatCons("", stripped, tail);
        assert "" + stripped == stripped;
      }
    }
  }

  /** On the body that StripMergesRecords cuts badly, the intended handler
      yields both records. */
  lemma PaddingOnceKeepsRecords()
    ensures FeedPaddingOnce(["data: A\n", "\ndata: B\n\n"]).records == ["data: A", "data: B"]
  {
    var chunks := ["data: A\n", "\ndata: B\n\n"];
    PaddingOnceBoundaryIndependence(chunks);
    TwoChunkBody();
    var body := "data: A\n\ndata: B\n\n";
    assert !StartsWithWhitespace(body);
    assert StripLeadingWhitespace(body) == body;
    BodySplit();
  }

  /** The payloads of complete records: each loses its first six characters. */
  function Messages(records: seq<string>): (ms: seq<string>)
    ensures |ms| == |records|
    ensures forall i :: 0 <= i < |records| ==> ms[i] == Unwrap(records[i])
  {
    if records == [] then []
    else
      var rest := Messages(records[1..]);
      assert forall i :: 1 <= i < |records| ==> rest[i - 1] == Unwrap(records[i]);
      [Unwrap(records[0])] + rest
  }

  /** What `onmessage` emits for a run of payloads, given whether the
      handshake has already been seen on this response. */
  function Deliver(handshaked: bool, messages: seq<string>): seq<Action>
    decreases |messages|
  {
    if messages == [] then []
    else [if handshaked then Emit(Text(messages[0])) else Emit(Open)] + Deliver(true, messages[1..])
  }

  /** Payload by payload: the first one before the handshake opens the
      transport, every other one is a `text` notification carrying it. */
  lemma {:induction false} DeliverAt(handshaked: bool, messages: seq<string>)
    ensures |Deliver(handshaked, messages)| == |messages|
    ensures forall i :: 0 <= i < |messages| ==>
              Deliver(handshaked, messages)[i] ==
              (if i == 0 && !handshaked then Emit(Open) else Emit(Text(messages[i])))
    decreases |messages|
  {
    if messages != [] {
      DeliverAt(true, messages[1..]);
    }
  }

  /** `open` is fired once per response: for the first payload if the
      handshake has not been seen yet, and never again. */
  lemma OpenedOnce(handshaked: bool, messages: seq<string>)
    ensures multiset(Deliver(handshaked, messages))[Emit(Open)] ==
            (if !handshaked && messages != [] then 1 else 0)
  {
    DeliverAt(handshaked, messages);
    TextsOnly(Deliver(handshaked, messages), 0, handshaked, messages);
  }

  lemma {:induction false} TextsOnly(r: seq<Action>, from: nat, handshaked: bool, messages: seq<string>)
    requires from <= |r| == |messages|
    requires forall i :: 0 <= i < |messages| ==>
               r[i] == (if i == 0 && !handshaked then Emit(Open) else Emit(Text(messages[i])))
    ensures multiset(r[from..])[Emit(Open)] ==
            (if from == 0 && !handshaked && messages != [] then 1 else 0)
    decreases |r| - from
  {
    if from < |r| {
      TextsOnly(r, from + 1, handshaked, messages);
      assert r[from..] == [r[from]] + r[from + 1..];
    }
  }

  /** Delivering two runs one after the other is delivering their
      concatenation: `handshaked` carries the first run's effect over. */
  lemma {:induction false} DeliverAppend(handshaked: bool, a: seq<string>, b: seq<string>)
    ensures Deliver(handshaked, a + b) == Deliver(handshaked, a) + Deliver(handshaked || a != [], b)
    decreases |a|
  {
    if a == [] {
      assert a + b == b;
    } else {
      DeliverAppend(true, a[1..], b);
      HeadOfAppend(a, b);
      var first := [if handshaked then Emit(Text(a[0])) else Emit(Open)];
      AppendAssoc(first, Deliver(true, a[1..]), Deliver(true, b));
    }
  }

  lemma {:induction false} MessagesAppend(a: seq<string>, b: seq<string>)
    ensures Messages(a + b) == Messages(a) + Messages(b)
    decreases |a|
  {
    if a == [] {
      assert a + b == b;
    } else {
      MessagesAppend(a[1..], b);
      HeadOfAppend(a, b);
      AppendAssoc([Unwrap(a[0])], Messages(a[1..]), Messages(b));
    }
  }

  lemma HeadOfAppend<T>(a: seq<T>, b: seq<T>)
    requires a != []
    ensures a + b != [] && (a + b)[0] == a[0] && (a + b)[1..] == a[1..] + b
  {
  }

  lemma AppendAssoc<T>(a: seq<T>, b: seq<T>, c: seq<T>)
    ensures a + (b + c) == (a + b) + c
  {
  }

  /** The actions of a whole response body fed chunk by chunk are those of
      its first chunk followed by those of the rest. */
  lemma FeedDelivers(handshaked: bool, buffer: string, c: string, tail: seq<string>)
    ensures var first := ChunkStep(buffer, c);
            Deliver(handshaked, Messages(Feed(buffer, [c] + tail).records)) ==
            Deliver(handshaked, Messages(first.records)) +
            Deliver(handshaked || first.records != [], Messages(Feed(first.buffer, tail).records))
  {
    var first := ChunkStep(buffer, c);
    var rest := Feed(first.buffer, tail);
    assert ([c] + tail)[1..] == tail;
    assert Feed(buffer, [c] + tail).records == first.records + rest.records;
    MessagesAppend(first.records, rest.records);
    DeliverAppend(handshaked, Messages(first.records), Messages(rest.records));
  }

  /** The transport's id after a run of payloads: the handshake payload, if
      it is among them, is parsed for it. */
  function IdAfter(parseId: string -> string, handshaked: bool, id: Option<string>, messages: seq<string>): Option<string>
  {
    if handshaked || messages == [] then id else Some(parseId(messages[0]))
  }

  /** One pass of the `forEach` over complete records. */
  lemma DeliverStep(parseId: string -> string, h0: bool, id0: Option<string>, records: seq<string>, i: nat)
    requires i < |records|
    ensures var done := Messages(records[..i]);
            var m := Unwrap(records[i]);
            Messages(records[..i + 1]) == done + [m] &&
            Deliver(h0, done + [m]) == Deliver(h0, done) + Deliver(h0 || done != [], [m]) &&
            IdAfter(parseId, h0 || done != [], IdAfter(parseId, h0, id0, done), [m]) ==
            IdAfter(parseId, h0, id0, done + [m])
  {
    assert records[..i + 1] == records[..i] + [records[i]];
    MessagesAppend(records[..i], [records[i]]);
    DeliverAppend(h0, Messages(records[..i]), [Unwrap(records[i])]);
  }

  /** One streaming transport. `buffer` and `handshaked` belong to the
      current response; each `response` event starts them afresh. */
  class Transport {
    const uri: string
    /** The query `id` of a handshake payload parsed as a URI. */
    const parseId: string -> string
    var requested: bool
    var handshaked: bool
    var buffer: string
    var id: Option<string>
    var trace: seq<Action>

    ghost predicate Valid()
      reads this
    {
      NoSeparator(buffer) && (handshaked ==> id.Some?)
    }

    constructor (uri: string, parseId: string -> string)
      ensures Valid()
      ensures this.uri == uri && this.parseId == parseId
      ensures !requested && !handshaked && buffer == "" && id == None && trace == []
    {
      this.uri := uri;
      this.parseId := parseId;
      requested := false;
      handshaked := false;
      buffer := "";
      id := None;
      trace := [];
    }

    /** `connect`: a persistent GET with `when=open`. */
    method Connect()
      requires Valid()
      modifies this
      ensures Valid()
      ensures requested && trace == old(trace) + [Issue(OpenRequest, uri + "&when=open")]
      ensures handshaked == old(handshaked) && buffer == old(buffer) && id == old(id)
    {
      requested := true;
      trace := trace + [Issue(OpenRequest, uri + "&when=open")];
    }

    /** The `response` event: a fresh handshake flag and an empty buffer. */
    method OnResponse()
      requires Valid()
      modifies this
      ensures Valid()
      ensures !handshaked && buffer == ""
      ensures requested == old(requested) && id == old(id) && trace == old(trace)
    {
      handshaked := false;
      buffer := "";
    }

    /** `onmessage`: the first payload of a response is the handshake, which
        carries the transport id; the rest are text messages. */
    method OnMessage(data: string)
      requires Valid()
      modifies this
      ensures Valid()
      ensures handshaked
      ensures trace == old(trace) + Deliver(old(handshaked), [data])
      ensures id == IdAfter(parseId, old(handshaked), old(id), [data])
      ensures requested == old(requested) && buffer == old(buffer)
    {
      if !handshaked {
        handshaked := true;
        id := Some(parseId(data));
        trace := trace + [Emit(Open)];
      } else {
        trace := trace + [Emit(Text(data))];
      }
    }

    /** The `data` event: strip the chunk's leading whitespace, ignore it if
        nothing is left, otherwise split buffer and chunk on `"\n\n"`,
        hand every piece but the last to `onmessage` in order and keep the
        last as the new buffer. */
    method OnData(chunk: string)
      requires Valid()
      modifies this
      ensures Valid()
      ensures var step := ChunkStep(old(buffer), chunk);
              buffer == step.buffer &&
              trace == old(trace) + Deliver(old(handshaked), Messages(step.records)) &&
              handshaked == (old(handshaked) || step.records != []) &&
              id == IdAfter(parseId, old(handshaked), old(id), Messages(step.records))
      ensures requested == old(requested)
    {
      var stripped := StripLeadingWhitespace(chunk);
      if stripped == "" {
        return;
      }
      var lines := Split(buffer + stripped);
      SplitIsLeftmost(buffer + stripped);
      ForEachPiece(lines);
      ChunkStepOfContent(old(buffer), chunk, stripped);
    }

    /** `(buffer + chunk).split("\n\n").forEach(...)`. */
    method ForEachPiece(lines: seq<string>)
      requires Valid() && |lines| >= 1 && NoSeparator(Last(lines))
      modifies this
      ensures Valid()
      ensures buffer == Last(lines)
      ensures trace == old(trace) + Deliver(old(handshaked), Messages(Init(lines)))
      ensures handshaked == (old(handshaked) || Init(lines) != [])
      ensures id == IdAfter(parseId, old(handshaked), old(id), Messages(Init(lines)))
      ensures requested == old(requested)
    {
      ghost var records := Init(lines);
      ghost var h0, id0, t0 := handshaked, id, trace;
      ghost var done: seq<string> := [];
      var i := 0;
      while i < |lines|
        invariant 0 <= i <= |lines|
        invariant Valid()
        invariant buffer == if i == |lines| then Last(lines) else old(buffer)
        invariant done == Messages(records[..if i < |lines| then i else |records|])
        invariant trace == t0 + Deliver(h0, done)
        invariant handshaked == (h0 || done != [])
        invariant id == IdAfter(parseId, h0, id0, done)
        invariant requested == old(requested)
      {
        OnPiece(lines, i);
        if i < |lines| - 1 {
          DeliverStep(parseId, h0, id0, records, i);
          done := done + [Unwrap(lines[i])];
        }
        i := i + 1;
      }
      assert records[..|records|] == records;
    }

    /** The `forEach` callback: every piece but the last goes to
        `onmessage` without its `data: ` prefix; the last becomes the
        buffer. */
    method OnPiece(lines: seq<string>, i: nat)
      requires Valid() && i < |lines| && NoSeparator(Last(lines))
      modifies this
      ensures Valid()
      ensures i < |lines| - 1 ==>
                buffer == old(buffer) &&
                trace == old(trace) + Deliver(old(handshaked), [Unwrap(lines[i])]) &&
                handshaked &&
                id == IdAfter(parseId, old(handshaked), old(id), [Unwrap(lines[i])])
      ensures i == |lines| - 1 ==>
                buffer == lines[i] && trace == old(trace) &&
                handshaked == old(handshaked) && id == old(id)
      ensures requested == old(requested)
    {
      if i < |lines| - 1 {
        OnMessage(Unwrap(lines[i]));
      } else {
        buffer := lines[i];
      }
    }

    /** The response's `end` event closes the transport. */
    method OnEnd()
      requires Valid()
      modifies this
      ensures Valid()
      ensures trace == old(trace) + [Emit(Close)]
      ensures requested == old(requested) && handshaked == old(handshaked)
      ensures buffer == old(buffer) && id == old(id)
    {
      trace := trace + [Emit(Close)];
    }

    /** An `error` of the request or of the response is the transport's. */
    method OnError(message: string)
      requires Valid()
      modifies this
      ensures Valid()
      ensures trace == old(trace) + [Emit(Error(Network(message)))]
      ensures requested == old(requested) && handshaked == old(handshaked)
      ensures buffer == old(buffer) && id == old(id)
    {
      trace := trace + [Emit(Error(Network(message)))];
    }

    /** `abort` aborts the current request and notifies nothing itself; the
        `close` comes from the response's `end`. */
    method Abort()
      requires Valid() && requested
      modifies this
      ensures Valid()
      ensures trace == old(trace) + [AbortRequest]
      ensures requested == old(requested) && handshaked == old(handshaked)
      ensures buffer == old(buffer) && id == old(id)
    {
      trace := trace + [AbortRequest];
    }
  }
}
