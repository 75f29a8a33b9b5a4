/** Every byte of a DME1 frame, by its offset: what the encoders put there and what the decoders take from it. */
module Wire {
  import opened Types
  import opened Codec

  // ---- integers as sums of bytes -------------------------------------------------------------

  /** Four base-256 digits, least significant first. */
  function Quad(a: nat, b: nat, c: nat, d: nat): nat {
    a + 0x100 * b + 0x1_0000 * c + 0x100_0000 * d
  }

  function U16(bs: seq<Byte>, at: nat): nat
    requires at + 2 <= |bs|
  {
    Quad(bs[at], bs[at + 1], 0, 0)
  }

  function U32(bs: seq<Byte>, at: nat): nat
    requires at + 4 <= |bs|
  {
    Quad(bs[at], bs[at + 1], bs[at + 2], bs[at + 3])
  }

  function U64(bs: seq<Byte>, at: nat): nat
    requires at + 8 <= |bs|
  {
    U32(bs, at) + 0x1_0000_0000 * U32(bs, at + 4)
  }

  /** Two's complement: a negative price is the word 2^64 higher. */
  predicate PriceIn(bs: seq<Byte>, at: nat, p: Price)
    requires at + 8 <= |bs|
  {
    U64(bs, at) == if p >= 0 then p else p + 0x1_0000_0000_0000_0000
  }

  lemma {:induction false} NumberCons(x: Byte, bs: seq<Byte>)
    ensures Number([x] + bs) == x + 256 * Number(bs)
  {
    assert ([x] + bs)[1..] == bs;
  }

  lemma {:induction false} NumberFour(a: Byte, b: Byte, c: Byte, d: Byte, rest: seq<Byte>)
    ensures Number([a, b, c, d] + rest)
            == Quad(a, b, c, d) + 0x1_0000_0000 * Number(rest)
  {
    hide Number;
    assert [a, b, c, d] + rest == [a] + ([b] + ([c] + ([d] + rest)));
    NumberCons(d, rest);
    NumberCons(c, [d] + rest);
    NumberCons(b, [c] + ([d] + rest));
    NumberCons(a, [b] + ([c] + ([d] + rest)));
  }

  lemma {:induction false} FieldSum2(bs: seq<Byte>, at: nat)
    requires at + 2 <= |bs|
    ensures Field(bs, at, 2) == U16(bs, at)
  {
    hide Number;
    assert bs[at..at + 2] == [bs[at]] + ([bs[at + 1]] + []);
    NumberCons(bs[at + 1], []);
    NumberCons(bs[at], [bs[at + 1]] + []);
    NumberNothing();
  }

  lemma {:induction false} NumberNothing()
    ensures Number([]) == 0
  {}

  lemma {:induction false} FieldSum4(bs: seq<Byte>, at: nat)
    requires at + 4 <= |bs|
    ensures Field(bs, at, 4) == U32(bs, at)
  {
    hide Number;
    assert bs[at..at + 4] == [bs[at], bs[at + 1], bs[at + 2], bs[at + 3]] + [];
    NumberFour(bs[at], bs[at + 1], bs[at + 2], bs[at + 3], []);
    NumberNothing();
  }

  lemma {:induction false} WordSum(bs: seq<Byte>, at: nat)
    requires at + 8 <= |bs|
    ensures Word(bs, at) == U64(bs, at)
  {
    hide Number;
    var low, high := [bs[at], bs[at + 1], bs[at + 2], bs[at + 3]], [bs[at + 4], bs[at + 5], bs[at + 6], bs[at + 7]];
    assert bs[at..at + 8] == low + (high + []);
    NumberFour(bs[at + 4], bs[at + 5], bs[at + 6], bs[at + 7], []);
    NumberFour(bs[at], bs[at + 1], bs[at + 2], bs[at + 3], high + []);
    NumberNothing();
  }

  // ---- frames --------------------------------------------------------------------------------

  /** Bytes 0 to 23; bytes 12 to 15 are reserved. */
  predicate Opens(bs: seq<Byte>, kind: int, length: int, session: int, sequence: int) {
    && |bs| >= 24 && bs[0] == 0x44 && bs[1] == 0x4d && bs[2] == 0x45 && bs[3] == 0x31 && bs[4] == 1
    && bs[5] == kind && U16(bs, 6) == length && U32(bs, 8) == session && U64(bs, 16) == sequence
  }

  predicate SideIn(x: Byte, s: Side) {
    x == match s case Buy => 0 case Sell => 1
  }

  predicate OrderTypeIn(x: Byte, t: OrderType) {
    x == match t case Limit => 0 case Market => 1 case ImmediateOrCancel => 2 case FillOrKill => 3
  }

  predicate EventIn(x: Byte, k: EventType) {
    x == match k
         case Accepted => 0 case Rejected => 1 case Trade => 2 case Cancelled => 3 case Replaced => 4 case Rested => 5
  }

  predicate ReasonIn(x: Byte, r: RejectReason) {
    x == match r
         case NoReason => 0 case InvalidQuantity => 1 case InvalidPrice => 2 case DuplicateOrderId => 3
         case UnknownOrderId => 4 case BookCapacity => 5 case WouldNotFill => 6 case SequenceGap => 7
         case InvalidSessionSequence => 8 case RiskLimit => 9 case GatewayBackpressure => 10
  }

  /** The bytes start with a frame of the request; what its kind does not transmit is not looked at. */
  predicate Transmits(bs: seq<Byte>, r: Request) {
    var m := r.command;
    match m.kind
    case New =>
      && |bs| >= 52 && Opens(bs, 1, 52, r.session, r.clientSequence)
      && SideIn(bs[24], m.side) && OrderTypeIn(bs[25], m.orderType)
      && U64(bs, 28) == m.orderId && PriceIn(bs, 36, m.price) && U64(bs, 44) == m.quantity
    case Cancel =>
      && |bs| >= 32 && Opens(bs, 2, 32, r.session, r.clientSequence)
      && U64(bs, 24) == m.orderId
    case Replace =>
      && |bs| >= 48 && Opens(bs, 3, 48, r.session, r.clientSequence)
      && U64(bs, 24) == m.orderId && PriceIn(bs, 32, m.price) && U64(bs, 40) == m.quantity
  }

  /** What a decoded command holds where its frame says nothing. */
  predicate Defaulted(m: Command) {
    && m.sequence == 0
    && (m.kind.New? || (m.side == Buy && m.orderType == Limit))
    && (m.kind.Cancel? ==> m.price == 0 && m.quantity == 0)
  }

  predicate TransmitsEvent(bs: seq<Byte>, r: Response) {
    var e := r.event;
    && |bs| >= 68 && Opens(bs, 128, 68, r.session, r.clientSequence)
    && EventIn(bs[24], e.kind) && SideIn(bs[25], e.side) && ReasonIn(bs[26], e.reason)
    && U64(bs, 28) == e.orderId && U64(bs, 36) == e.contra && PriceIn(bs, 44, e.price)
    && U64(bs, 52) == e.quantity && U64(bs, 60) == e.sequence
  }

  lemma {:induction false} MagicBytes(bs: seq<Byte>)
    requires |bs| >= 4
    ensures Field(bs, 0, 4) == MAGIC <==> bs[0] == 0x44 && bs[1] == 0x4d && bs[2] == 0x45 && bs[3] == 0x31
  {
    hide Field;
    FieldSum4(bs, 0);
  }

  /** A header is accepted exactly when it opens a frame that is all there. */
  lemma {:induction false} HeaderOpens(bs: seq<Byte>, kind: Byte, length: nat, session: u32, sequence: u64)
    ensures ValidateHeader(bs) == Ok(Checked(kind, length, session, sequence), length)
            <==> Opens(bs, kind, length, session, sequence) && 24 <= length <= 80 && length <= |bs|
  {
    hide Field, Word, U16, U32, U64;
    if |bs| >= 24 {
      MagicBytes(bs);
      FieldSum2(bs, 6);
      FieldSum4(bs, 8);
      WordSum(bs, 16);
    }
  }

  /** A word of the payload is the word 24 bytes further on in the frame. */
  lemma {:induction false} PayloadWord(bs: seq<Byte>, n: nat, at: nat)
    requires 24 + at + 8 <= n <= |bs|
    ensures Word(bs[24..n], at) == U64(bs, 24 + at)
  {
    hide Word;
    WordSum(bs[24..n], at);
  }

  /** A word is read as a price exactly when it is that price in two's complement. */
  lemma {:induction false} SignedWord(w: u64, p: Price)
    ensures Signed(w) == p <==> w == if p >= 0 then p else p + 0x1_0000_0000_0000_0000
  {}

  lemma {:induction false} PayloadTransmits(bs: seq<Byte>, r: Request)
    requires |bs| >= RequestSize(r.command.kind)
    requires Opens(bs, TypeCode(r.command.kind), RequestSize(r.command.kind), r.session, r.clientSequence)
    ensures DecodePayload(r.command.kind, bs[24..RequestSize(r.command.kind)]) == Some(r.command)
            <==> Transmits(bs, r) && Defaulted(r.command)
  {
    hide Word, U16, U32, U64, Signed, Field;
    var m, n := r.command, RequestSize(r.command.kind);
    match m.kind
    case New =>
      PayloadWord(bs, n, 4);
      PayloadWord(bs, n, 12);
      PayloadWord(bs, n, 20);
      SignedWord(U64(bs, 36), m.price);
    case Cancel =>
      PayloadWord(bs, n, 0);
    case Replace =>
      PayloadWord(bs, n, 0);
      PayloadWord(bs, n, 8);
      PayloadWord(bs, n, 16);
      SignedWord(U64(bs, 32), m.price);
  }

  /**
   The decoder, byte by byte: it yields a request exactly from the bytes that transmit it, with
   nonzero identifiers, and takes exactly the frame.
   */
  lemma {:induction false} DecodedBytes(bs: seq<Byte>, r: Request, n: nat)
    ensures DecodeRequest(bs) == Ok(r, n) <==>
            && Transmits(bs, r) && Defaulted(r.command) && n == U16(bs, 6)
            && r.session != 0 && r.clientSequence != 0 && r.command.orderId != 0
  {
    hide ValidateHeader, DecodePayload, U16, U32, U64;
    var k := r.command.kind;
    HeaderOpens(bs, TypeCode(k), RequestSize(k), r.session, r.clientSequence);
    if Opens(bs, TypeCode(k), RequestSize(k), r.session, r.clientSequence) && RequestSize(k) <= |bs| {
      PayloadTransmits(bs, r);
    }
    if DecodeRequest(bs) == Ok(r, n) { DecodedHeader(bs, r, n); }
  }

  lemma {:induction false} DecodedHeader(bs: seq<Byte>, r: Request, n: nat)
    requires DecodeRequest(bs) == Ok(r, n)
    ensures var k := r.command.kind;
            && n == RequestSize(k)
            && ValidateHeader(bs) == Ok(Checked(TypeCode(k), RequestSize(k), r.session, r.clientSequence), n)
  {
    hide ValidateHeader, Word, Signed, Field;
    HeaderBounds(bs);
  }

  /** Where no request or no response is yielded: the first check that fails. */
  lemma {:induction false} RefusedBytes(bs: seq<Byte>)
    ensures DecodeRequest(bs).Ok? || DecodeRequest(bs) ==
            if |bs| < 24 then NeedMoreData
            else if !(bs[0] == 0x44 && bs[1] == 0x4d && bs[2] == 0x45 && bs[3] == 0x31) then Refused(InvalidMagic)
            else if bs[4] != 1 then Refused(UnsupportedVersion)
            else if U16(bs, 6) < 24 || U16(bs, 6) > 80 then Refused(InvalidLength)
            else if |bs| < U16(bs, 6) then NeedMoreData
            else if bs[5] != 1 && bs[5] != 2 && bs[5] != 3 then Refused(UnknownMessageType)
            else Refused(InvalidField)
    ensures DecodeResponse(bs).Ok? || DecodeResponse(bs) ==
            if |bs| < 24 then NeedMoreData
            else if !(bs[0] == 0x44 && bs[1] == 0x4d && bs[2] == 0x45 && bs[3] == 0x31) then Refused(InvalidMagic)
            else if bs[4] != 1 then Refused(UnsupportedVersion)
            else if U16(bs, 6) < 24 || U16(bs, 6) > 80 then Refused(InvalidLength)
            else if |bs| < U16(bs, 6) then NeedMoreData
            else if bs[5] != 128 then Refused(UnknownMessageType)
            else Refused(InvalidField)
  {
    hide Field, Word, DecodePayload, DecodeResponsePayload, U16;
    if |bs| >= 24 {
      MagicBytes(bs);
      FieldSum2(bs, 6);
    }
  }

  /** The encoder, byte by byte: every frame it writes transmits its request, with zeros in between. */
  lemma {:induction false} EncodedBytes(r: Request)
    ensures var bs := RequestFrame(r);
            && Transmits(bs, r) && |bs| == U16(bs, 6)
            && bs[12] == 0 && bs[13] == 0 && bs[14] == 0 && bs[15] == 0
            && (r.command.kind.New? ==> bs[26] == 0 && bs[27] == 0)
  {
    hide Header, RequestPayload, DecodePayload, U16, U32, U64;
    var m, bs := r.command, RequestFrame(r);
    var k, n := TypeCode(m.kind), RequestSize(m.kind);
    RequestLength(r);
    HeaderLength(k, n, r.session, r.clientSequence);
    HeaderAccepted(k, n, r.session, r.clientSequence, RequestPayload(m));
    HeaderOpens(bs, k, n, r.session, r.clientSequence);
    PayloadReads(m);
    var carried := r.(command := Carried(m));
    assert bs[24..n] == RequestPayload(m);
    PayloadTransmits(bs, carried);
    SpareBytes(k, n, r.session, r.clientSequence, m);
  }

  lemma {:induction false} SpareBytes(k: Byte, n: nat, session: u32, sequence: u64, m: Command)
    ensures var h := Header(k, n, session, sequence);
            |h| == 24 && h[12] == 0 && h[13] == 0 && h[14] == 0 && h[15] == 0
    ensures m.kind.New? ==> RequestPayload(m)[2] == 0 && RequestPayload(m)[3] == 0
  {
    hide Digits;
    DigitsLength(MAGIC, 4);
    DigitsLength(n, 2);
    DigitsLength(session, 4);
    DigitsLength(sequence, 8);
    DigitsZero();
  }

  lemma {:induction false} DigitsZero()
    ensures Digits(0, 4) == [0, 0, 0, 0] && Digits(0, 2) == [0, 0]
  {
    assert Digits(0, 1) == [0] && Digits(0, 3) == [0, 0, 0];
  }

  lemma {:induction false} EventTransmits(bs: seq<Byte>, r: Response)
    requires |bs| >= 68 && Opens(bs, 128, 68, r.session, r.clientSequence)
    ensures DecodeResponsePayload(bs[24..68]) == Some(r.event) <==> TransmitsEvent(bs, r)
  {
    hide Word, U16, U32, U64, Signed, Field;
    PayloadWord(bs, 68, 4);
    PayloadWord(bs, 68, 12);
    PayloadWord(bs, 68, 20);
    PayloadWord(bs, 68, 28);
    PayloadWord(bs, 68, 36);
    SignedWord(U64(bs, 44), r.event.price);
  }

  /** Responses likewise. */
  lemma {:induction false} DecodedEventBytes(bs: seq<Byte>, r: Response, n: nat)
    ensures DecodeResponse(bs) == Ok(r, n) <==>
            TransmitsEvent(bs, r) && n == 68 && r.session != 0 && r.clientSequence != 0
  {
    hide ValidateHeader, DecodeResponsePayload, U16, U32, U64;
    HeaderOpens(bs, 128, 68, r.session, r.clientSequence);
    if |bs| >= 68 && Opens(bs, 128, 68, r.session, r.clientSequence) { EventTransmits(bs, r); }
    HeaderBounds(bs);
  }

  lemma {:induction false} EncodedEventBytes(r: Response)
    ensures var bs := ResponseFrame(r);
            && |bs| == 68 && TransmitsEvent(bs, r)
            && bs[12] == 0 && bs[13] == 0 && bs[14] == 0 && bs[15] == 0 && bs[27] == 0
  {
    hide Header, ResponsePayload, DecodeResponsePayload, U16, U32, U64;
    var bs, payload := ResponseFrame(r), ResponsePayload(r.event);
    ResponseReads(r.event);
    HeaderLength(EXECUTION_EVENT, RESPONSE_SIZE, r.session, r.clientSequence);
    HeaderAccepted(EXECUTION_EVENT, RESPONSE_SIZE, r.session, r.clientSequence, payload);
    HeaderOpens(bs, EXECUTION_EVENT, RESPONSE_SIZE, r.session, r.clientSequence);
    assert bs[24..68] == payload;
    EventTransmits(bs, r);
    SpareBytes(EXECUTION_EVENT, RESPONSE_SIZE, r.session, r.clientSequence, Command(0, Cancel, Buy, Limit, 0, 0, 0));
    SpareByte(r.event);
  }

  lemma {:induction false} SpareByte(e: Event)
    ensures |ResponsePayload(e)| == 44 && ResponsePayload(e)[3] == 0
  {
    hide Digits;
  }
}
