/** One connection's byte streams: framing what arrives, buffering what leaves. */
module Stream {
  import opened Types
  import opened Codec

  const RECEIVE_CAPACITY: nat := 65536
  const TRANSMIT_CAPACITY: nat := 262144

  /** The requests at the front of the bytes, what follows them, and whether that is malformed. */
  datatype Parsed = Parsed(requests: seq<Request>, rest: seq<Byte>, broken: bool)

  function Prepend(rs: seq<Request>, p: Parsed): (q: Parsed)
    ensures rs == [] ==> q == p
  {
    p.(requests := rs + p.requests)
  }

  function Parse(input: seq<Byte>): (p: Parsed)
    decreases |input|
  {
    var d := DecodeRequest(input);
    if d.NeedMoreData? then Parsed([], input, false)
    else if d.Refused? then Parsed([], input, true)
    else Prepend([d.value], Parse(input[d.consumed..]))
  }

  lemma {:induction false} PrependTwice(xs: seq<Request>, ys: seq<Request>, p: Parsed)
    ensures Prepend(xs, Prepend(ys, p)) == Prepend(xs + ys, p)
  {
    assert xs + (ys + p.requests) == (xs + ys) + p.requests;
  }

  /** What a pass leaves behind asks for more, and so is short, or is refused, and then the stream is broken. */
  lemma {:induction false} ParseLeaves(input: seq<Byte>)
    ensures var p := Parse(input);
            && |p.rest| <= |input| && p.rest == input[|input| - |p.rest|..]
            && (p.broken <==> DecodeRequest(p.rest).Refused?)
            && (!p.broken ==> DecodeRequest(p.rest).NeedMoreData? && |p.rest| < MAXIMUM_FRAME_SIZE)
    decreases |input|
  {
    hide DecodeRequest;
    DecodeFacts(input);
    var d := DecodeRequest(input);
    if d.Ok? { ParseLeaves(input[d.consumed..]); }
  }

  lemma {:induction false} DecodeFacts(input: seq<Byte>)
    ensures var d := DecodeRequest(input);
            && (d.NeedMoreData? ==> |input| < MAXIMUM_FRAME_SIZE)
            && (d.Ok? ==> 0 < d.consumed <= |input|)
  {
    hide DecodeRequest;
    if DecodeRequest(input).NeedMoreData? { NeedMoreIsShort(input); }
    DecodeConsumes(input);
  }

  lemma {:induction false} DecodeConsumes(input: seq<Byte>)
    ensures DecodeRequest(input).Ok? ==> 0 < DecodeRequest(input).consumed <= |input|
  {
    hide ValidateHeader, DecodePayload;
  }

  /** Parsing resumes where it left off. */
  lemma {:induction false} ParseResumes(a: seq<Byte>, b: seq<Byte>)
    ensures var p := Parse(a);
            if p.broken then Parse(a + b) == Parsed(p.requests, p.rest + b, true)
            else Parse(a + b) == Prepend(p.requests, Parse(p.rest + b))
    decreases |a|
  {
    hide DecodeRequest;
    DecodeFacts(a);
    DecodeStable(a, b);
    var d := DecodeRequest(a);
    if d.Ok? {
      var tail := a[d.consumed..];
      assert (a + b)[d.consumed..] == tail + b;
      ParseResumes(tail, b);
      var p := Parse(tail);
      PrependTwice([d.value], p.requests, Parse(p.rest + b));
    }
  }

  // ---- chunks --------------------------------------------------------------------------------

  function Flatten(chunks: seq<seq<Byte>>): seq<Byte> {
    if chunks == [] then [] else chunks[0] + Flatten(chunks[1..])
  }

  /** The receive loop over a stream delivered in chunks; a malformed frame closes the connection. */
  function Feed(pending: seq<Byte>, chunks: seq<seq<Byte>>): Parsed
    decreases |chunks|
  {
    if chunks == [] then Parsed([], pending, false)
    else
      var p := Parse(pending + chunks[0]);
      if p.broken then p else Prepend(p.requests, Feed(p.rest, chunks[1..]))
  }

  /** The chunking is immaterial: only the concatenated bytes matter. */
  lemma {:induction false} ChunksDoNotMatter(pending: seq<Byte>, chunks: seq<seq<Byte>>)
    requires DecodeRequest(pending).NeedMoreData?
    ensures var fed, whole := Feed(pending, chunks), Parse(pending + Flatten(chunks));
            && fed.requests == whole.requests && fed.broken == whole.broken
            && (!fed.broken ==> fed.rest == whole.rest)
    decreases |chunks|
  {
    hide DecodeRequest, Parse;
    if chunks == [] {
      assert pending + Flatten(chunks) == pending;
      ParsePending(pending);
    } else {
      var a, b := pending + chunks[0], Flatten(chunks[1..]);
      assert pending + Flatten(chunks) == a + b;
      ParseResumes(a, b);
      ParseLeaves(a);
      var p := Parse(a);
      if !p.broken { ChunksDoNotMatter(p.rest, chunks[1..]); }
    }
  }

  lemma {:induction false} ParsePending(input: seq<Byte>)
    requires DecodeRequest(input).NeedMoreData?
    ensures Parse(input) == Parsed([], input, false)
  {
    hide DecodeRequest;
  }

  /** The frames of any encodable requests, however cut up, come back as those requests. */
  function Frames(rs: seq<Request>): seq<Byte> {
    if rs == [] then [] else RequestFrame(rs[0]) + Frames(rs[1..])
  }

  function CarriedAll(rs: seq<Request>): seq<Request> {
    seq(|rs|, k requires 0 <= k < |rs| => rs[k].(command := Carried(rs[k].command)))
  }

  lemma {:induction false} FramesParse(rs: seq<Request>)
    requires forall k | 0 <= k < |rs| :: Encodable(rs[k])
    ensures Parse(Frames(rs)) == Parsed(CarriedAll(rs), [], false)
  {
    hide DecodeRequest, Parse, RequestFrame;
    if rs == [] {
      EmptyNeedsMore();
      ParsePending([]);
    } else {
      var r, tail := rs[0], Frames(rs[1..]);
      RequestRoundTrip(r, tail);
      ParseOne(RequestFrame(r) + tail);
      assert (RequestFrame(r) + tail)[|RequestFrame(r)|..] == tail;
      FramesParse(rs[1..]);
      assert [r.(command := Carried(r.command))] + CarriedAll(rs[1..]) == CarriedAll(rs);
    }
  }

  lemma {:induction false} EmptyNeedsMore()
    ensures DecodeRequest([]).NeedMoreData?
  {}

  lemma {:induction false} ParseOne(input: seq<Byte>)
    requires DecodeRequest(input).Ok?
    ensures var d := DecodeRequest(input);
            d.consumed <= |input| && Parse(input) == Prepend([d.value], Parse(input[d.consumed..]))
  {
    hide DecodeRequest;
    DecodeFacts(input);
  }

  /** A client's requests reach the gateway as sent, however the network cuts up the bytes. */
  lemma {:induction false} SentIsReceived(rs: seq<Request>, chunks: seq<seq<Byte>>)
    requires (forall k | 0 <= k < |rs| :: Encodable(rs[k])) && Flatten(chunks) == Frames(rs)
    ensures Feed([], chunks) == Parsed(CarriedAll(rs), [], false)
  {
    hide DecodeRequest, Parse, Feed, Frames, Flatten;
    EmptyNeedsMore();
    ChunksDoNotMatter([], chunks);
    assert [] + Flatten(chunks) == Frames(rs);
    FramesParse(rs);
  }

  function ResponseFrames(ws: seq<Response>): seq<Byte> {
    if ws == [] then [] else ResponseFrames(ws[..|ws| - 1]) + ResponseFrame(ws[|ws| - 1])
  }

  lemma {:induction false} ResponseFramesOne(w: Response)
    ensures ResponseFrames([w]) == ResponseFrame(w) && |ResponseFrame(w)| == RESPONSE_SIZE && ResponseFrames([]) == []
  {
    assert [w][..0] == [];
    assert ResponseFrames([]) + ResponseFrame(w) == ResponseFrame(w);
  }

  lemma {:induction false} ResponseFramesNone()
    ensures ResponseFrames([]) == []
  {}

  lemma {:induction false} ResponseFramesConcat(xs: seq<Response>, ys: seq<Response>)
    ensures ResponseFrames(xs + ys) == ResponseFrames(xs) + ResponseFrames(ys)
  {
    hide ResponseFrame;
    if ys == [] {
      assert xs + ys == xs;
    } else {
      assert (xs + ys)[..|xs + ys| - 1] == xs + ys[..|ys| - 1];
      ResponseFramesConcat(xs, ys[..|ys| - 1]);
    }
  }

  // ---- the connection's buffers --------------------------------------------------------------

  class Connection {
    const receive: array<Byte>
    var received: nat
    const transmit: array<Byte>
    var begin: nat
    var end: nat

    ghost predicate Valid()
      reads this
    {
      && receive.Length == RECEIVE_CAPACITY && transmit.Length == TRANSMIT_CAPACITY && receive != transmit
      && received < MAXIMUM_FRAME_SIZE && begin <= end <= TRANSMIT_CAPACITY
    }

    /** Bytes received and not yet consumed. */
    ghost function Pending(): seq<Byte>
      reads this, receive
      requires Valid()
    {
      receive[..received]
    }

    /** Bytes queued and not yet sent. */
    ghost function Outgoing(): seq<Byte>
      reads this, transmit
      requires Valid()
    {
      transmit[begin..end]
    }

    constructor ()
      ensures Valid() && Pending() == [] && Outgoing() == [] && fresh(receive) && fresh(transmit)
      ensures receive.Length == 65_536 && transmit.Length == 262_144
    {
      receive := new Byte[RECEIVE_CAPACITY](_ => 0);
      transmit := new Byte[TRANSMIT_CAPACITY](_ => 0);
      received, begin, end := 0, 0, 0;
    }

    /** Put the received bytes behind the pending ones. */
    method Fill(incoming: seq<Byte>, count: nat)
      requires received + count <= receive.Length && count <= |incoming|
      modifies receive
      ensures receive[..received + count] == old(receive[..received]) + incoming[..count]
    {
      forall k | 0 <= k < count { receive[received + k] := incoming[k]; }
    }

    /** Move the unconsumed bytes to the front. */
    method Compact(consumed: nat, total: nat)
      requires consumed <= total <= receive.Length
      modifies this`received, receive
      ensures received == total - consumed && receive[..received] == old(receive[consumed..total])
    {
      var remaining := total - consumed;
      forall k | 0 <= k < remaining { receive[k] := receive[consumed + k]; }
      received := remaining;
    }

    /**
     Take what fits of the bytes waiting on the socket, decode every whole frame in place, and move
     the remainder to the front. The connection stays open exactly while the stream is well formed:
     the remainder is shorter than a frame, so the buffer is never full.
     */
    method ReadRequests(incoming: seq<Byte>) returns (open: bool, requests: seq<Request>, taken: nat)
      requires Valid()
      modifies this`received, receive
      ensures taken == if |incoming| <= RECEIVE_CAPACITY - old(received) then |incoming|
              else RECEIVE_CAPACITY - old(received)
      ensures Valid()
      ensures var p := Parse(old(Pending()) + incoming[..taken]);
              && requests == p.requests && (open <==> !p.broken)
              && (open ==> Pending() == p.rest)
    {
      hide DecodeRequest, Parse;
      taken := if |incoming| <= RECEIVE_CAPACITY - received then |incoming| else RECEIVE_CAPACITY - received;
      Fill(incoming, taken);
      ghost var input := old(Pending()) + incoming[..taken];
      var total := received + taken;
      var consumed := 0;
      requests := [];
      while consumed < total
        invariant 0 <= consumed <= total && receive[..total] == input && received == old(received)
        invariant Parse(input) == Prepend(requests, Parse(input[consumed..]))
      {
        var window := receive[consumed..total];
        assert window == input[consumed..];
        var decoded := DecodeRequest(window);
        ParseTurn(window);
        if decoded.NeedMoreData? {
          break;
        } else if decoded.Refused? {
          return false, requests, taken;
        } else {
          assert window[decoded.consumed..] == input[consumed + decoded.consumed..];
          PrependTwice(requests, [decoded.value], Parse(input[consumed + decoded.consumed..]));
          requests := requests + [decoded.value];
          consumed := consumed + decoded.consumed;
        }
      }
      EmptyNeedsMore();
      assert consumed == total ==> input[consumed..] == [];
      ParseTurn(input[consumed..]);
      Compact(consumed, total);
      open := received != RECEIVE_CAPACITY;
    }

    /** Move the unsent bytes to the front. */
    method Rewind()
      requires Valid()
      modifies this`begin, this`end, transmit
      ensures Valid() && begin == 0 && Outgoing() == old(Outgoing())
    {
      var remaining := end - begin;
      forall k | 0 <= k < remaining { transmit[k] := transmit[begin + k]; }
      begin, end := 0, remaining;
    }

    /** Queue one response, first moving the unsent bytes to the front if the end has no room. */
    method QueueResponse(r: Response) returns (ok: bool)
      requires Valid()
      modifies this`begin, this`end, transmit
      ensures Valid()
      ensures ok <==> EncodableResponse(r) && |old(Outgoing())| + RESPONSE_SIZE <= TRANSMIT_CAPACITY
      ensures Outgoing() == if ok then old(Outgoing()) + ResponseFrame(r) else old(Outgoing())
    {
      hide ResponseFrame;
      if begin != 0 && TRANSMIT_CAPACITY - end < RESPONSE_SIZE {
        Rewind();
      }
      ghost var before := transmit[..];
      var written: nat;
      ok, written := EncodeResponse(r, transmit, end, TRANSMIT_CAPACITY - end);
      assert ok ==> transmit[..end] == before[..end] && transmit[end..end + written] == ResponseFrame(r);
      end := end + written;
    }

    /** The socket took `count` bytes. */
    method Sent(count: nat)
      requires Valid() && count <= end - begin
      modifies this`begin, this`end
      ensures Valid() && Outgoing() == old(Outgoing())[count..]
    {
      begin := begin + count;
      if begin == end {
        begin, end := 0, 0;
      }
    }
  }

  /** One turn of the decode loop. */
  lemma {:induction false} ParseTurn(input: seq<Byte>)
    ensures var d := DecodeRequest(input);
            && (d.NeedMoreData? ==> Parse(input) == Parsed([], input, false) && |input| < MAXIMUM_FRAME_SIZE)
            && (d.Refused? ==> Parse(input) == Parsed([], input, true))
            && (d.Ok? ==> 0 < d.consumed <= |input| && Parse(input) == Prepend([d.value], Parse(input[d.consumed..])))
  {
    hide DecodeRequest;
    DecodeFacts(input);
  }
}
