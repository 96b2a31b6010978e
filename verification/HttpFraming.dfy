/**
 The receive loop of `IpcServer::HandleClient` (gui/ipc/IpcServer.cpp).

 The request arrives in pieces of any size.  The theorem is that the pieces do not matter: what is
 dispatched depends on the byte stream alone.
 */
module HttpFraming {
  import opened Basics
  import opened Text
  import opened HttpHead

  const BLANK_LINE: string := "\r\n\r\n"

  datatype Outcome = Dispatch(body: string) | Respond(status: nat)

  function Stream(chunks: seq<string>): string {
    if chunks == [] then "" else Stream(chunks[..|chunks| - 1]) + chunks[|chunks| - 1]
  }

  /** What a whole byte stream asks for, with no notion of pieces. */
  function Framed(stream: string): Outcome {
    match FindFrom(stream, BLANK_LINE, 0)
    case None => Respond(400)
    case Some(head) =>
      match ValidateHead(stream[..head], MAX_REQUEST_BYTES)
      case Reject(status) => Respond(status)
      case Accept(length) =>
        if |stream| - (head + 4) >= length then Dispatch(stream[head + 4..head + 4 + length]) else Respond(400)
  }

  /** The first blank line of a prefix is the first blank line of the whole. */
  lemma BlankLineOfPrefix(raw: string, more: string)
    ensures FindFrom(raw, BLANK_LINE, 0).Some? ==> FindFrom(raw + more, BLANK_LINE, 0) == FindFrom(raw, BLANK_LINE, 0)
    ensures FindFrom(raw, BLANK_LINE, 0).None? && FindFrom(raw + more, BLANK_LINE, 0).Some? ==>
      FindFrom(raw + more, BLANK_LINE, 0).value + 4 > |raw|
  {
    var whole := raw + more;
    var found := FindFrom(raw, BLANK_LINE, 0);
    forall j | 0 <= j && j + 4 <= |raw| ensures MatchAt(whole, BLANK_LINE, j) <==> MatchAt(raw, BLANK_LINE, j) {
      assert whole[j..j + 4] == raw[j..j + 4];
    }
    if found.Some? {
      FoundAt(whole, BLANK_LINE, 0, found.value);
    }
  }

  /** Once a head was accepted, the whole request is judged by it. */
  lemma AcceptedPrefixDecides(raw: string, more: string, head: nat, length: nat)
    requires FindFrom(raw, BLANK_LINE, 0) == Some(head)
    requires ValidateHead(raw[..head], MAX_REQUEST_BYTES) == Accept(length)
    ensures Framed(raw + more) ==
      if |raw| + |more| - (head + 4) >= length then Dispatch((raw + more)[head + 4..head + 4 + length])
      else Respond(400)
    ensures |raw| - (head + 4) >= length ==>
      Framed(raw + more) == Dispatch(raw[head + 4..head + 4 + length])
    ensures head + 4 + length <= MAX_REQUEST_BYTES
  {
    hide ValidateHead, FindFrom, Framed;
    AcceptFits(raw[..head]);
    WholeByHead(raw, more, head, length);
    if |raw| - (head + 4) >= length { SliceOfPrefix(raw, more, head + 4, head + 4 + length); }
  }

  lemma WholeByHead(raw: string, more: string, head: nat, length: nat)
    requires FindFrom(raw, BLANK_LINE, 0) == Some(head)
    requires ValidateHead(raw[..head], MAX_REQUEST_BYTES) == Accept(length)
    ensures head + 4 <= |raw| && |raw + more| == |raw| + |more|
    ensures Framed(raw + more) ==
      if |raw| + |more| - (head + 4) >= length then Dispatch((raw + more)[head + 4..head + 4 + length])
      else Respond(400)
  {
    hide ValidateHead, FindFrom, Framed;
    assert MatchAt(raw, BLANK_LINE, head);
    BlankLineOfPrefix(raw, more);
    HeadOfPrefix(raw, more, head);
    hide *;
    FramedByHead(raw + more, head, length);
  }

  lemma FramedByHead(whole: string, head: nat, length: nat)
    requires FindFrom(whole, BLANK_LINE, 0) == Some(head)
    requires ValidateHead(whole[..head], MAX_REQUEST_BYTES) == Accept(length)
    ensures Framed(whole) ==
      if |whole| - (head + 4) >= length then Dispatch(whole[head + 4..head + 4 + length]) else Respond(400)
  {
    hide ValidateHead, FindFrom, MatchAt;
  }

  lemma HeadOfPrefix(raw: string, more: string, head: nat)
    requires head <= |raw|
    ensures (raw + more)[..head] == raw[..head]
  {
  }

  lemma SliceOfPrefix(raw: string, more: string, a: nat, b: nat)
    requires a <= b <= |raw|
    ensures (raw + more)[a..b] == raw[a..b]
  {
  }

  lemma RejectIsAnError(headers: string)
    ensures var v := ValidateHead(headers, MAX_REQUEST_BYTES); v.Reject? ==> v.status >= 400
  {
  }

  lemma AcceptFits(headers: string)
    ensures var v := ValidateHead(headers, MAX_REQUEST_BYTES);
      v.Accept? ==> |headers| + 4 + v.length <= MAX_REQUEST_BYTES
  {
  }

  lemma StreamSplits(chunks: seq<string>, i: nat) returns (more: string)
    requires i <= |chunks|
    ensures Stream(chunks) == Stream(chunks[..i]) + more
  {
    if i == |chunks| {
      more := "";
      assert chunks[..i] == chunks;
    } else {
      var n := |chunks| - 1;
      var m := StreamSplits(chunks[..n], i);
      assert chunks[..n][..i] == chunks[..i];
      more := m + chunks[n];
    }
  }

  /** After `i` pieces the loop has more than the limit and still no blank line. */
  ghost predicate GivesUp(chunks: seq<string>, i: nat) {
    && i <= |chunks| && |Stream(chunks[..i])| > MAX_REQUEST_BYTES
    && FindFrom(Stream(chunks[..i]), BLANK_LINE, 0).None?
  }

  /** The answer to a stream that arrives in these pieces. */
  ghost function Handled(chunks: seq<string>): Outcome {
    if exists i: nat :: GivesUp(chunks, i) then Respond(400) else Framed(Stream(chunks))
  }

  /** Once the blank line is there, the loop does not give up any more. */
  lemma HeadStays(chunks: seq<string>, i: nat, j: nat)
    requires i <= j <= |chunks| && FindFrom(Stream(chunks[..i]), BLANK_LINE, 0).Some?
    ensures !GivesUp(chunks, j)
  {
    var more := StreamSplits(chunks[..j], i);
    assert chunks[..j][..i] == chunks[..i];
    BlankLineOfPrefix(Stream(chunks[..i]), more);
  }

  /** The loop, branch for branch. */
  method HandleClient(chunks: seq<string>) returns (o: Outcome)
    requires forall i :: 0 <= i < |chunks| ==> chunks[i] != ""
    ensures o == Handled(chunks)
  {
    hide ValidateHead, FindFrom;
    var raw := "";
    var contentLength := 0;
    var contentLengthKnown := false;
    var requestTooLarge := false;
    var earlyStatus := 0;
    var headerEnd: Option<nat> := None;
    ghost var stream := Stream(chunks);
    var i := 0;
    BlankNotInEmpty();
    while i < |chunks|
      invariant i <= |chunks| && raw == Stream(chunks[..i])
      invariant headerEnd == FindFrom(raw, BLANK_LINE, 0)
      invariant contentLengthKnown <==> headerEnd.Some?
      invariant headerEnd.Some? ==>
        && ValidateHead(raw[..headerEnd.value], MAX_REQUEST_BYTES) == Accept(contentLength)
        && |raw| < headerEnd.value + 4 + contentLength
      invariant headerEnd.None? ==> |raw| <= MAX_REQUEST_BYTES
      invariant !requestTooLarge && earlyStatus == 0
      invariant forall j: nat :: j <= i ==> !GivesUp(chunks, j)
      decreases |chunks| - i
    {
      ghost var before := raw;
      raw := raw + chunks[i];
      assert chunks[..i + 1][..i] == chunks[..i];
      i := i + 1;
      BlankLineOfPrefix(before, chunks[i - 1]);
      if headerEnd.None? {
        headerEnd := FindFrom(raw, BLANK_LINE, 0);
        if headerEnd.Some? {
          var v := ValidateRequestHead(raw[..headerEnd.value], MAX_REQUEST_BYTES);
          if v.Reject? {
            RejectIsAnError(raw[..headerEnd.value]);
            earlyStatus := v.status;
            break;
          }
          contentLength := v.length;
          contentLengthKnown := true;
        }
      } else {
        assert raw[..headerEnd.value] == before[..headerEnd.value];
      }
      if headerEnd.Some? && contentLengthKnown {
        var bodyStart := headerEnd.value + 4;
        if |raw| >= bodyStart && |raw| - bodyStart >= contentLength { break; }
        AcceptFits(raw[..headerEnd.value]);
      }
      if |raw| > MAX_REQUEST_BYTES {
        requestTooLarge := true;
        break;
      }
    }
    ghost var more := StreamSplits(chunks, i);
    if i == |chunks| { assert chunks[..i] == chunks; }
    if headerEnd.Some? {
      forall j: nat | i <= j <= |chunks| ensures !GivesUp(chunks, j) { HeadStays(chunks, i, j); }
    } else if requestTooLarge {
      assert GivesUp(chunks, i);
    }
    o := Answer(raw, more, earlyStatus, headerEnd, requestTooLarge, contentLengthKnown, contentLength);
  }

  /** The decisions after the loop, for the bytes received so far and `more` that were not awaited. */
  method Answer(raw: string, ghost more: string, earlyStatus: nat, headerEnd: Option<nat>, requestTooLarge: bool,
                contentLengthKnown: bool, contentLength: nat) returns (o: Outcome)
    requires headerEnd == FindFrom(raw, BLANK_LINE, 0)
    requires earlyStatus != 0 ==>
      headerEnd.Some? && ValidateHead(raw[..headerEnd.value], MAX_REQUEST_BYTES) == Reject(earlyStatus)
    requires earlyStatus == 0 && headerEnd.Some? ==>
      && contentLengthKnown && ValidateHead(raw[..headerEnd.value], MAX_REQUEST_BYTES) == Accept(contentLength)
      && !requestTooLarge && (|raw| < headerEnd.value + 4 + contentLength ==> more == "")
    requires headerEnd.None? ==> requestTooLarge == (|raw| > MAX_REQUEST_BYTES) && (!requestTooLarge ==> more == "")
    ensures o == if headerEnd.None? && requestTooLarge then Respond(400) else Framed(raw + more)
  {
    hide ValidateHead, FindFrom;
    BlankLineOfPrefix(raw, more);
    if earlyStatus != 0 {
      HeadOfPrefix(raw, more, headerEnd.value);
      return Respond(earlyStatus);
    }
    if headerEnd.None? {
      assert more == "" ==> raw + more == raw;
      return Respond(400);
    }
    AcceptedPrefixDecides(raw, more, headerEnd.value, contentLength);
    // The 413 exit of the source: after a validated head it cannot be taken.
    if requestTooLarge { assert false; }
    var bodyStart := headerEnd.value + 4;
    if contentLengthKnown && (|raw| < bodyStart || |raw| - bodyStart < contentLength) {
      return Respond(400);
    }
    o := Dispatch(raw[bodyStart..bodyStart + contentLength]);
  }

  // ---- Does it matter how a stream is split? ----

  ghost predicate IsSplit(chunks: seq<string>, stream: string) {
    Stream(chunks) == stream && forall i :: 0 <= i < |chunks| ==> chunks[i] != ""
  }

  /** Dispatch, and the dispatched body, never depend on the pieces. */
  lemma DispatchIsOfStream(chunks: seq<string>)
    ensures Handled(chunks).Dispatch? || Framed(Stream(chunks)).Dispatch? ==> Handled(chunks) == Framed(Stream(chunks))
  {
    if i: nat :| GivesUp(chunks, i) {
      GivesUpLate(chunks, i);
      DispatchFits(Stream(chunks));
    }
  }

  /** A loop that gives up has seen all of the head but the end of its blank line. */
  lemma GivesUpLate(chunks: seq<string>, i: nat)
    requires GivesUp(chunks, i)
    ensures var head := FindFrom(Stream(chunks), BLANK_LINE, 0); head.Some? ==> head.value + 3 > MAX_REQUEST_BYTES
  {
    var more := StreamSplits(chunks, i);
    BlankLineOfPrefix(Stream(chunks[..i]), more);
  }

  lemma DispatchFits(stream: string)
    ensures Framed(stream).Dispatch? ==>
      FindFrom(stream, BLANK_LINE, 0).Some? && FindFrom(stream, BLANK_LINE, 0).value + 4 <= MAX_REQUEST_BYTES
  {
    hide ValidateHead, FindFrom;
    var head := FindFrom(stream, BLANK_LINE, 0);
    if head.Some? { AcceptFits(stream[..head.value]); }
  }

  /**
   No piece of a stream decides its answer: there is no head, it comes within the limit, or its first line or a
   field is refused with 400, as the end of the loop is.
   */
  predicate PiecesDoNotMatter(stream: string) {
    var head := FindFrom(stream, BLANK_LINE, 0);
    || head.None?
    || head.value + 3 <= MAX_REQUEST_BYTES
    || ValidateHead(stream[..head.value], MAX_REQUEST_BYTES) == Reject(400)
  }

  /** A head that comes too late is never accepted. */
  lemma LateHeadIsRefused(stream: string)
    ensures var head := FindFrom(stream, BLANK_LINE, 0);
      head.Some? && head.value + 3 > MAX_REQUEST_BYTES ==>
        var v := ValidateHead(stream[..head.value], MAX_REQUEST_BYTES); v.Reject? && Framed(stream) == Respond(v.status)
  {
    hide ValidateHead, FindFrom;
    var head := FindFrom(stream, BLANK_LINE, 0);
    if head.Some? { AcceptFits(stream[..head.value]); }
  }

  lemma UnsplitIsFramed(stream: string)
    requires FindFrom(stream, BLANK_LINE, 0).Some?
    ensures IsSplit([stream], stream) && Handled([stream]) == Framed(stream)
  {
    assert [stream][..0] == [] && [stream][..1] == [stream];
    assert Stream([stream]) == Stream([]) + stream == stream;
    forall i: nat ensures !GivesUp([stream], i) {
      if i <= 1 { assert i == 0 || i == 1; }
    }
  }

  /** Cut one byte short of the end of the blank line. */
  function CutLate(stream: string, head: nat): seq<string>
    requires head + 4 <= |stream|
  {
    [stream[..head + 3], stream[head + 3..]]
  }

  lemma NoBlankLineYet(stream: string, a: string, head: nat)
    requires FindFrom(stream, BLANK_LINE, 0) == Some(head) && |a| == head + 3 <= |stream| && stream[..head + 3] == a
    ensures FindFrom(a, BLANK_LINE, 0).None?
  {
    hide FindFrom;
    BlankLineOfPrefix(a, stream[|a|..]);
    assert a + stream[|a|..] == stream;
    assert FindFrom(a, BLANK_LINE, 0).Some? ==> MatchAt(a, BLANK_LINE, head);
  }

  lemma FirstPieceGivesUp(a: string, b: string)
    requires b != "" && |a| > MAX_REQUEST_BYTES && FindFrom(a, BLANK_LINE, 0).None?
    ensures Handled([a, b]) == Respond(400)
  {
    hide ValidateHead, FindFrom, Framed;
    StreamOfTwo(a, b);
    hide Stream;
    assert GivesUp([a, b], 1);
  }

  lemma CutLateGivesUp(stream: string, head: nat)
    requires FindFrom(stream, BLANK_LINE, 0) == Some(head) && head + 3 > MAX_REQUEST_BYTES
    ensures head + 4 <= |stream| && IsSplit(CutLate(stream, head), stream)
    ensures Handled(CutLate(stream, head)) == Respond(400)
  {
    hide ValidateHead, FindFrom, Framed, Handled, GivesUp, IsSplit;
    assert MatchAt(stream, BLANK_LINE, head);
    hide MatchAt;
    var a, b := stream[..head + 3], stream[head + 3..];
    NoBlankLineYet(stream, a, head);
    FirstPieceGivesUp(a, b);
    SplitInTwo(a, b);
    assert a + b == stream;
  }

  lemma SplitInTwo(a: string, b: string)
    requires a != "" && b != ""
    ensures IsSplit([a, b], a + b)
  {
    StreamOfTwo(a, b);
  }

  lemma StreamOfTwo(a: string, b: string)
    ensures Stream([a, b]) == a + b && Stream([a, b][..1]) == a
  {
    assert [a, b][..1] == [a] && [a][..0] == [];
    assert Stream([a]) == Stream([]) + a == a;
  }

  /**
   The answer to a stream is the same for every split into non-empty pieces exactly if it has no head, or its
   blank line begins early enough, or its head is one that is refused with 400.
   */
  lemma SameForEverySplitIff(stream: string)
    ensures (forall a, b :: IsSplit(a, stream) && IsSplit(b, stream) ==> Handled(a) == Handled(b))
      <==> PiecesDoNotMatter(stream)
  {
    var head := FindFrom(stream, BLANK_LINE, 0);
    LateHeadIsRefused(stream);
    if PiecesDoNotMatter(stream) {
      forall a | IsSplit(a, stream) ensures Handled(a) == Framed(stream) {
        if i: nat :| GivesUp(a, i) { GivesUpLate(a, i); }
      }
    } else {
      UnsplitIsFramed(stream);
      CutLateGivesUp(stream, head.value);
      assert Handled([stream]) != Handled(CutLate(stream, head.value));
    }
  }

  /** A head one byte too long: in one piece it is answered 413, cut inside its blank line 400. */
  lemma TwoAnswers() returns (stream: string, a: seq<string>, b: seq<string>)
    ensures IsSplit(a, stream) && Handled(a) == Respond(413)
    ensures IsSplit(b, stream) && Handled(b) == Respond(400)
  {
    var n := MAX_REQUEST_BYTES + 1;
    var head := seq(n, _ => 'a');
    stream := head + BLANK_LINE;
    assert stream[n..n + 4] == BLANK_LINE && stream[..n] == head;
    forall j | 0 <= j < n ensures !MatchAt(stream, BLANK_LINE, j) {
      assert stream[j] == 'a';
      if j + 4 <= |stream| { assert stream[j..j + 4][0] == stream[j]; }
    }
    FoundAt(stream, BLANK_LINE, 0, n);
    a, b := [stream], CutLate(stream, n);
    UnsplitIsFramed(stream);
    CutLateGivesUp(stream, n);
  }

  lemma BlankNotInEmpty()
    ensures FindFrom("", BLANK_LINE, 0) == None
  {
  }
}
