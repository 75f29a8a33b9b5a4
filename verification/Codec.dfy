/** The DME1 wire format: little-endian frames, their encoders and their decoders. */
module Codec {
  import opened Types

  const MAGIC: u32 := 0x31454d44
  const VERSION: Byte := 1
  const HEADER_SIZE: nat := 24
  const MAXIMUM_FRAME_SIZE: nat := 80
  const RESPONSE_SIZE: nat := 68

  // ---- little-endian integers ----------------------------------------------------------------

  function Scale(k: nat): (p: nat)
    ensures p > 0
  {
    if k == 0 then 1 else 256 * Scale(k - 1)
  }

  /** The k low bytes of v, least significant first. */
  function Digits(v: nat, k: nat): (bs: seq<Byte>)
    ensures |bs| == k
  {
    if k == 0 then [] else [v % 256] + Digits(v / 256, k - 1)
  }

  function Number(bs: seq<Byte>): (v: nat)
    ensures v < Scale(|bs|)
  {
    if bs == [] then 0 else bs[0] + 256 * Number(bs[1..])
  }

  lemma {:induction false} DigitsNumber(v: nat, k: nat)
    requires v < Scale(k)
    ensures Number(Digits(v, k)) == v
  {
    if k > 0 {
      DigitsNumber(v / 256, k - 1);
      assert Digits(v, k)[1..] == Digits(v / 256, k - 1);
    }
  }

  lemma {:induction false} NumberDigits(bs: seq<Byte>)
    ensures Digits(Number(bs), |bs|) == bs
  {
    hide Scale;
    if bs != [] {
      NumberDigits(bs[1..]);
      assert Number(bs) % 256 == bs[0] && Number(bs) / 256 == Number(bs[1..]);
    }
  }

  lemma {:induction false} Scales()
    ensures Scale(2) == 0x1_0000 && Scale(4) == 0x1_0000_0000 && Scale(8) == TWO64
  {
    assert Scale(3) == 0x100_0000 && Scale(5) == 0x100_0000_0000 && Scale(6) == 0x1_0000_0000_0000;
    assert Scale(7) == 0x100_0000_0000_0000;
  }

  function Unsigned(p: Price): u64 {
    if p >= 0 then p else p + TWO64
  }

  function Signed(v: u64): (p: Price)
    ensures Unsigned(p) == v
  {
    if v < 0x8000_0000_0000_0000 then v else v - TWO64
  }

  /** A buffer with bs laid over it at offset `at`. */
  function Written(before: seq<Byte>, at: nat, bs: seq<Byte>): (after: seq<Byte>)
    requires at + |bs| <= |before|
    ensures |after| == |before|
  {
    before[..at] + bs + before[at + |bs|..]
  }

  lemma {:induction false} WrittenTwice(before: seq<Byte>, at: nat, x: seq<Byte>, y: seq<Byte>)
    requires at + |x| + |y| <= |before|
    ensures Written(Written(before, at, x), at + |x|, y) == Written(before, at, x + y)
  {}

  /** put_u16, put_u32 and put_u64: the k bytes at `at`, nothing else. */
  method Put(output: array<Byte>, at: nat, k: nat, value: nat)
    requires at + k <= output.Length
    modifies output
    ensures output[..] == Written(old(output[..]), at, Digits(value, k))
  {
    ghost var before := output[..];
    var rest := value;
    for i := 0 to k
      invariant rest >= 0 && output[..at] == before[..at] && output[at + i..] == before[at + i..]
      invariant output[at..at + i] + Digits(rest, k - i) == Digits(value, k)
    {
      ghost var done := output[at..at + i];
      output[at + i] := rest % 256;
      assert output[at..at + i + 1] == done + [rest % 256];
      assert done + Digits(rest, k - i) == (done + [rest % 256]) + Digits(rest / 256, k - i - 1);
      rest := rest / 256;
    }
    assert output[..] == output[..at] + output[at..at + k] + output[at + k..];
  }

  /** get_u16, get_u32 and get_u64; the shifted bytes do not overlap, so or-ing them in adds them. */
  method Get(input: seq<Byte>) returns (value: nat)
    ensures value == Number(input)
  {
    value := 0;
    for i := 0 to |input|
      invariant value == Number(input[..i])
    {
      NumberSnoc(input[..i], input[i]);
      assert input[..i + 1] == input[..i] + [input[i]];
      value := value + Scale(i) * input[i];
    }
    assert input[..|input|] == input;
  }

  lemma {:induction false} NumberSnoc(bs: seq<Byte>, x: Byte)
    ensures Number(bs + [x]) == Number(bs) + Scale(|bs|) * x
  {
    if bs == [] {
      assert [] + [x] == [x] && [x][1..] == [];
    } else {
      var t := bs[1..];
      assert (bs + [x])[1..] == t + [x];
      NumberSnoc(t, x);
      Distribute(Number(t), Scale(|t|), x);
    }
  }

  lemma {:induction false} Distribute(v: nat, p: nat, x: nat)
    ensures 256 * (v + p * x) == 256 * v + (256 * p) * x
  {}

  // ---- enumerations on the wire --------------------------------------------------------------

  function SideCode(s: Side): Byte { if s.Buy? then 0 else 1 }

  function OrderTypeCode(t: OrderType): Byte {
    match t case Limit => 0 case Market => 1 case ImmediateOrCancel => 2 case FillOrKill => 3
  }

  function EventCode(k: EventType): Byte {
    match k
    case Accepted => 0 case Rejected => 1 case Trade => 2 case Cancelled => 3 case Replaced => 4 case Rested => 5
  }

  function ReasonCode(r: RejectReason): Byte {
    match r
    case NoReason => 0 case InvalidQuantity => 1 case InvalidPrice => 2 case DuplicateOrderId => 3
    case UnknownOrderId => 4 case BookCapacity => 5 case WouldNotFill => 6 case SequenceGap => 7
    case InvalidSessionSequence => 8 case RiskLimit => 9 case GatewayBackpressure => 10
  }

  function SideOf(x: Byte): (r: Option<Side>)
    ensures forall s :: r == Some(s) <==> x == SideCode(s)
  {
    match x case 0 => Some(Buy) case 1 => Some(Sell) case _ => None
  }

  function OrderTypeOf(x: Byte): (r: Option<OrderType>)
    ensures forall t :: r == Some(t) <==> x == OrderTypeCode(t)
  {
    match x
    case 0 => Some(Limit) case 1 => Some(Market) case 2 => Some(ImmediateOrCancel) case 3 => Some(FillOrKill)
    case _ => None
  }

  function EventOf(x: Byte): (r: Option<EventType>)
    ensures forall k :: r == Some(k) <==> x == EventCode(k)
  {
    match x
    case 0 => Some(Accepted) case 1 => Some(Rejected) case 2 => Some(Trade)
    case 3 => Some(Cancelled) case 4 => Some(Replaced) case 5 => Some(Rested)
    case _ => None
  }

  function ReasonOf(x: Byte): (r: Option<RejectReason>)
    ensures forall k :: r == Some(k) <==> x == ReasonCode(k)
  {
    match x
    case 0 => Some(NoReason) case 1 => Some(InvalidQuantity) case 2 => Some(InvalidPrice)
    case 3 => Some(DuplicateOrderId) case 4 => Some(UnknownOrderId) case 5 => Some(BookCapacity)
    case 6 => Some(WouldNotFill) case 7 => Some(SequenceGap)
    case 8 => Some(InvalidSessionSequence) case 9 => Some(RiskLimit) case 10 => Some(GatewayBackpressure)
    case _ => None
  }

  function TypeCode(k: CommandType): Byte {
    match k case New => 1 case Cancel => 2 case Replace => 3
  }

  function TypeOf(x: Byte): (r: Option<CommandType>)
    ensures forall k :: r == Some(k) <==> x == TypeCode(k)
  {
    match x case 1 => Some(New) case 2 => Some(Cancel) case 3 => Some(Replace) case _ => None
  }

  const EXECUTION_EVENT: Byte := 128

  function RequestSize(k: CommandType): nat {
    match k case New => 52 case Cancel => 32 case Replace => 48
  }

  // ---- frames --------------------------------------------------------------------------------

  function Header(kind: Byte, length: nat, session: u32, sequence: u64): (bs: seq<Byte>)
    ensures |bs| == HEADER_SIZE
  {
    Digits(MAGIC, 4) + [VERSION, kind] + Digits(length, 2) + Digits(session, 4) + Digits(0, 4) + Digits(sequence, 8)
  }

  function RequestPayload(m: Command): (bs: seq<Byte>)
    ensures |bs| == RequestSize(m.kind) - HEADER_SIZE
  {
    match m.kind
    case New =>
      [SideCode(m.side), OrderTypeCode(m.orderType)] + Digits(0, 2)
      + Digits(m.orderId, 8) + Digits(Unsigned(m.price), 8) + Digits(m.quantity, 8)
    case Cancel => Digits(m.orderId, 8)
    case Replace => Digits(m.orderId, 8) + Digits(Unsigned(m.price), 8) + Digits(m.quantity, 8)
  }

  function RequestFrame(r: Request): (bs: seq<Byte>)
    ensures |bs| == RequestSize(r.command.kind)
  {
    Header(TypeCode(r.command.kind), RequestSize(r.command.kind), r.session, r.clientSequence)
    + RequestPayload(r.command)
  }

  function ResponsePayload(e: Event): (bs: seq<Byte>)
    ensures |bs| == RESPONSE_SIZE - HEADER_SIZE
  {
    [EventCode(e.kind), SideCode(e.side), ReasonCode(e.reason), 0]
    + Digits(e.orderId, 8) + Digits(e.contra, 8) + Digits(Unsigned(e.price), 8)
    + Digits(e.quantity, 8) + Digits(e.sequence, 8)
  }

  function ResponseFrame(r: Response): (bs: seq<Byte>)
    ensures |bs| == RESPONSE_SIZE
  {
    Header(EXECUTION_EVENT, RESPONSE_SIZE, r.session, r.clientSequence) + ResponsePayload(r.event)
  }

  predicate Encodable(r: Request) {
    r.session != 0 && r.clientSequence != 0 && r.command.orderId != 0
  }

  predicate EncodableResponse(r: Response) {
    r.session != 0 && r.clientSequence != 0
  }

  // ---- decoding ------------------------------------------------------------------------------

  datatype Status = InvalidMagic | UnsupportedVersion | InvalidLength | UnknownMessageType | InvalidField
  datatype Decoded<T> = NeedMoreData | Refused(status: Status) | Ok(value: T, consumed: nat)
  datatype Checked = Checked(kind: Byte, length: nat, session: u32, sequence: u64)

  /** The k-byte integer at offset `at`. */
  function Field(input: seq<Byte>, at: nat, k: nat): (v: nat)
    requires at + k <= |input|
    ensures v < Scale(k)
  {
    Number(input[at..at + k])
  }

  function Word(input: seq<Byte>, at: nat): u64
    requires at + 8 <= |input|
  {
    Scales();
    Field(input, at, 8)
  }

  function ValidateHeader(input: seq<Byte>): (d: Decoded<Checked>)
    ensures d.Ok? ==> HEADER_SIZE <= d.value.length == d.consumed <= |input| && d.consumed <= MAXIMUM_FRAME_SIZE
  {
    Scales();
    if |input| < HEADER_SIZE then NeedMoreData
    else if Field(input, 0, 4) != MAGIC then Refused(InvalidMagic)
    else if input[4] != VERSION then Refused(UnsupportedVersion)
    else
      var length := Field(input, 6, 2);
      if length < HEADER_SIZE || length > MAXIMUM_FRAME_SIZE then Refused(InvalidLength)
      else if |input| < length then NeedMoreData
      else Ok(Checked(input[5], length, Field(input, 8, 4), Word(input, 16)), length)
  }

  /** The command of a whole frame; fields the frame omits keep their defaults. */
  function DecodePayload(k: CommandType, payload: seq<Byte>): Option<Command>
    requires |payload| == RequestSize(k) - HEADER_SIZE
  {
    match k
    case New =>
      var side, orderType := SideOf(payload[0]), OrderTypeOf(payload[1]);
      if side.None? || orderType.None? then None
      else Some(Command(0, New, side.value, orderType.value,
                        Word(payload, 4), Signed(Word(payload, 12)), Word(payload, 20)))
    case Cancel => Some(Command(0, Cancel, Buy, Limit, Word(payload, 0), 0, 0))
    case Replace => Some(Command(0, Replace, Buy, Limit, Word(payload, 0), Signed(Word(payload, 8)), Word(payload, 16)))
  }

  function DecodeRequest(input: seq<Byte>): (d: Decoded<Request>)
    ensures d.Ok? ==> HEADER_SIZE <= d.consumed <= |input|
  {
    var h := ValidateHeader(input);
    if h.NeedMoreData? then NeedMoreData
    else if h.Refused? then Refused(h.status)
    else
      var kind := TypeOf(h.value.kind);
      if kind.None? then Refused(UnknownMessageType)
      else if h.value.length != RequestSize(kind.value) || h.value.session == 0
        || h.value.sequence == 0 then Refused(InvalidField)
      else
        var m := DecodePayload(kind.value, input[HEADER_SIZE..h.value.length]);
        if m.None? || m.value.orderId == 0 then Refused(InvalidField)
        else Ok(Request(h.value.session, h.value.sequence, m.value), h.value.length)
  }

  function DecodeResponsePayload(payload: seq<Byte>): Option<Event>
    requires |payload| == RESPONSE_SIZE - HEADER_SIZE
  {
    var kind, side, reason := EventOf(payload[0]), SideOf(payload[1]), ReasonOf(payload[2]);
    if kind.None? || side.None? || reason.None? then None
    else Some(Event(Word(payload, 36), kind.value, side.value, reason.value,
                    Word(payload, 4), Word(payload, 12), Signed(Word(payload, 20)), Word(payload, 28)))
  }

  function DecodeResponse(input: seq<Byte>): (d: Decoded<Response>)
    ensures d.Ok? ==> HEADER_SIZE <= d.consumed <= |input|
  {
    var h := ValidateHeader(input);
    if h.NeedMoreData? then NeedMoreData
    else if h.Refused? then Refused(h.status)
    else if h.value.kind != EXECUTION_EVENT then Refused(UnknownMessageType)
    else if h.value.length != RESPONSE_SIZE || h.value.session == 0 || h.value.sequence == 0 then Refused(InvalidField)
    else
      var e := DecodeResponsePayload(input[HEADER_SIZE..RESPONSE_SIZE]);
      if e.None? then Refused(InvalidField) else Ok(Response(h.value.session, h.value.sequence, e.value), RESPONSE_SIZE)
  }

  // ---- round trips ---------------------------------------------------------------------------

  /** The bytes at `at` are the digits of v. */
  lemma {:induction false} FieldIs(input: seq<Byte>, at: nat, k: nat, v: nat)
    requires at + k <= |input| && input[at..at + k] == Digits(v, k) && v < Scale(k)
    ensures Field(input, at, k) == v
  {
    DigitsNumber(v, k);
  }

  lemma {:induction false} HeaderReads(kind: Byte, length: nat, session: u32, sequence: u64, tail: seq<Byte>)
    requires length < 0x1_0000
    ensures var bs := Header(kind, length, session, sequence) + tail;
            && |bs| == HEADER_SIZE + |tail| && bs[HEADER_SIZE..] == tail
            && Field(bs, 0, 4) == MAGIC && bs[4] == VERSION && bs[5] == kind
            && Field(bs, 6, 2) == length && Field(bs, 8, 4) == session && Word(bs, 16) == sequence
  {
    hide Digits, Field, Scale;
    DigitsLength(MAGIC, 4);
    DigitsLength(length, 2);
    DigitsLength(session, 4);
    DigitsLength(0, 4);
    DigitsLength(sequence, 8);
    Scales();
    var bs := Header(kind, length, session, sequence) + tail;
    assert bs[0..4] == Digits(MAGIC, 4) && bs[6..8] == Digits(length, 2);
    assert bs[8..12] == Digits(session, 4) && bs[16..24] == Digits(sequence, 8);
    FieldIs(bs, 0, 4, MAGIC);
    FieldIs(bs, 6, 2, length);
    FieldIs(bs, 8, 4, session);
    FieldIs(bs, 16, 8, sequence);
  }

  lemma {:induction false} HeaderAccepted(kind: Byte, length: nat, session: u32, sequence: u64, tail: seq<Byte>)
    requires HEADER_SIZE <= length <= MAXIMUM_FRAME_SIZE && length <= HEADER_SIZE + |tail|
    ensures ValidateHeader(Header(kind, length, session, sequence) + tail)
            == Ok(Checked(kind, length, session, sequence), length)
  {
    hide Header, Field, Word, Scale;
    HeaderReads(kind, length, session, sequence, tail);
  }

  /** What a request frame carries: the rest of the command falls back to its defaults. */
  function Carried(m: Command): Command {
    match m.kind
    case New => m.(sequence := 0)
    case Cancel => Command(0, Cancel, Buy, Limit, m.orderId, 0, 0)
    case Replace => Command(0, Replace, Buy, Limit, m.orderId, m.price, m.quantity)
  }

  lemma {:induction false} PayloadReads(m: Command)
    ensures DecodePayload(m.kind, RequestPayload(m)) == Some(Carried(m))
  {
    hide Digits, Field, Scale;
    var id, price, quantity := Digits(m.orderId, 8), Digits(Unsigned(m.price), 8), Digits(m.quantity, 8);
    DigitsLength(m.orderId, 8);
    DigitsLength(Unsigned(m.price), 8);
    DigitsLength(m.quantity, 8);
    DigitsLength(0, 2);
    Scales();
    var bs, at := RequestPayload(m), if m.kind.New? then 4 else 0;
    assert bs[at..at + 8] == id;
    FieldIs(bs, at, 8, m.orderId);
    if !m.kind.Cancel? {
      assert bs[at + 8..at + 16] == price && bs[at + 16..at + 24] == quantity;
      FieldIs(bs, at + 8, 8, Unsigned(m.price));
      FieldIs(bs, at + 16, 8, m.quantity);
    }
  }

  /** An encoded request decodes to what its frame carries, whatever bytes follow. */
  lemma {:induction false} RequestRoundTrip(r: Request, tail: seq<Byte>)
    requires Encodable(r)
    ensures DecodeRequest(RequestFrame(r) + tail) == Ok(r.(command := Carried(r.command)), |RequestFrame(r)|)
  {
    hide Header, ValidateHeader, RequestPayload, DecodePayload;
    var m := r.command;
    var kind, length, payload := TypeCode(m.kind), RequestSize(m.kind), RequestPayload(m);
    RequestLength(r);
    HeaderAccepted(kind, length, r.session, r.clientSequence, payload + tail);
    HeaderLength(kind, length, r.session, r.clientSequence);
    var bs := RequestFrame(r) + tail;
    assert bs == Header(kind, length, r.session, r.clientSequence) + (payload + tail);
    assert bs[HEADER_SIZE..length] == payload;
    PayloadReads(m);
  }

  lemma {:induction false} RequestLength(r: Request)
    ensures |RequestPayload(r.command)| == RequestSize(r.command.kind) - HEADER_SIZE
    ensures |RequestFrame(r)| == RequestSize(r.command.kind)
  {}

  lemma {:induction false} HeaderLength(kind: Byte, length: nat, session: u32, sequence: u64)
    ensures |Header(kind, length, session, sequence)| == HEADER_SIZE
  {}

  lemma {:induction false} ResponseReads(e: Event)
    ensures |ResponsePayload(e)| == RESPONSE_SIZE - HEADER_SIZE
    ensures DecodeResponsePayload(ResponsePayload(e)) == Some(e)
  {
    hide Digits, Field, Scale;
    DigitsLength(e.orderId, 8);
    DigitsLength(e.contra, 8);
    DigitsLength(Unsigned(e.price), 8);
    DigitsLength(e.quantity, 8);
    DigitsLength(e.sequence, 8);
    Scales();
    var bs := ResponsePayload(e);
    assert bs[4..12] == Digits(e.orderId, 8) && bs[12..20] == Digits(e.contra, 8);
    assert bs[20..28] == Digits(Unsigned(e.price), 8) && bs[28..36] == Digits(e.quantity, 8)
           && bs[36..44] == Digits(e.sequence, 8);
    FieldIs(bs, 4, 8, e.orderId);
    FieldIs(bs, 12, 8, e.contra);
    FieldIs(bs, 20, 8, Unsigned(e.price));
    FieldIs(bs, 28, 8, e.quantity);
    FieldIs(bs, 36, 8, e.sequence);
  }

  /** Responses survive whole. */
  lemma {:induction false} ResponseRoundTrip(r: Response, tail: seq<Byte>)
    requires EncodableResponse(r)
    ensures DecodeResponse(ResponseFrame(r) + tail) == Ok(r, RESPONSE_SIZE)
  {
    hide Header, ValidateHeader, ResponsePayload, DecodeResponsePayload;
    ResponseReads(r.event);
    var payload := ResponsePayload(r.event);
    HeaderAccepted(EXECUTION_EVENT, RESPONSE_SIZE, r.session, r.clientSequence, payload + tail);
    HeaderLength(EXECUTION_EVENT, RESPONSE_SIZE, r.session, r.clientSequence);
    var bs := ResponseFrame(r) + tail;
    assert bs == Header(EXECUTION_EVENT, RESPONSE_SIZE, r.session, r.clientSequence) + (payload + tail);
    assert bs[HEADER_SIZE..RESPONSE_SIZE] == payload;
  }

  lemma {:induction false} DigitsLength(v: nat, k: nat)
    ensures |Digits(v, k)| == k
  {}

  // ---- frames delimit themselves -------------------------------------------------------------

  lemma {:induction false} FieldPrefix(input: seq<Byte>, more: seq<Byte>, at: nat, k: nat)
    requires at + k <= |input|
    ensures Field(input + more, at, k) == Field(input, at, k)
  {
    assert (input + more)[at..at + k] == input[at..at + k];
  }

  /** Once the header has been judged, later bytes do not change the judgement. */
  lemma {:induction false} HeaderStable(input: seq<Byte>, more: seq<Byte>)
    requires !ValidateHeader(input).NeedMoreData?
    ensures ValidateHeader(input + more) == ValidateHeader(input)
  {
    hide Field;
    FieldPrefix(input, more, 0, 4);
    FieldPrefix(input, more, 6, 2);
    FieldPrefix(input, more, 8, 4);
    FieldPrefix(input, more, 16, 8);
  }

  /** Any answer but NeedMoreData is final. */
  lemma {:induction false} DecodeStable(input: seq<Byte>, more: seq<Byte>)
    ensures !DecodeRequest(input).NeedMoreData? ==> DecodeRequest(input + more) == DecodeRequest(input)
    ensures !DecodeResponse(input).NeedMoreData? ==> DecodeResponse(input + more) == DecodeResponse(input)
  {
    hide ValidateHeader, DecodePayload, DecodeResponsePayload;
    HeaderBounds(input);
    if !ValidateHeader(input).NeedMoreData? {
      HeaderStable(input, more);
      var h := ValidateHeader(input);
      if h.Ok? { assert (input + more)[HEADER_SIZE..h.value.length] == input[HEADER_SIZE..h.value.length]; }
    }
  }

  /** Asking for more means holding less than one maximal frame. */
  lemma {:induction false} HeaderBounds(input: seq<Byte>)
    ensures var h := ValidateHeader(input);
            && (h.NeedMoreData? ==> |input| < MAXIMUM_FRAME_SIZE)
            && (h.Ok? ==> HEADER_SIZE <= h.value.length <= |input| && h.consumed == h.value.length)
  {
    hide Field;
  }

  lemma {:induction false} NeedMoreIsShort(input: seq<Byte>)
    requires DecodeRequest(input).NeedMoreData?
    ensures |input| < MAXIMUM_FRAME_SIZE
  {
    hide ValidateHeader;
    HeaderBounds(input);
  }

  /** Every strict prefix of a frame asks for more. */
  lemma {:induction false} HeaderPrefix(kind: Byte, length: nat, session: u32, sequence: u64, rest: seq<Byte>)
    requires HEADER_SIZE + |rest| < length <= MAXIMUM_FRAME_SIZE
    ensures ValidateHeader(Header(kind, length, session, sequence) + rest).NeedMoreData?
  {
    hide Header, Field;
    HeaderReads(kind, length, session, sequence, rest);
  }

  lemma {:induction false} PrefixesNeedMore(r: Request, e: Response, n: nat)
    ensures n < |RequestFrame(r)| ==> DecodeRequest(RequestFrame(r)[..n]).NeedMoreData?
    ensures n < |ResponseFrame(e)| ==> DecodeResponse(ResponseFrame(e)[..n]).NeedMoreData?
  {
    hide Header, ValidateHeader, RequestPayload, ResponsePayload;
    if n < |RequestFrame(r)| {
      var kind, length, payload := TypeCode(r.command.kind), RequestSize(r.command.kind), RequestPayload(r.command);
      FramePrefix(kind, length, r.session, r.clientSequence, payload, n);
    }
    if n < |ResponseFrame(e)| {
      ResponseReads(e.event);
      FramePrefix(EXECUTION_EVENT, RESPONSE_SIZE, e.session, e.clientSequence, ResponsePayload(e.event), n);
    }
  }

  lemma {:induction false} FramePrefix(kind: Byte, length: nat, session: u32, sequence: u64, payload: seq<Byte>, n: nat)
    requires n < HEADER_SIZE + |payload| == length <= MAXIMUM_FRAME_SIZE
    ensures n < |Header(kind, length, session, sequence) + payload|
    ensures ValidateHeader((Header(kind, length, session, sequence) + payload)[..n]).NeedMoreData?
  {
    hide Header;
    HeaderLength(kind, length, session, sequence);
    var header := Header(kind, length, session, sequence);
    if n >= HEADER_SIZE {
      assert (header + payload)[..n] == header + payload[..n - HEADER_SIZE];
      HeaderPrefix(kind, length, session, sequence, payload[..n - HEADER_SIZE]);
    }
  }

  // ---- exactly what is accepted --------------------------------------------------------------

  lemma {:induction false} FieldExact(input: seq<Byte>, at: nat, k: nat, v: nat)
    requires at + k <= |input| && v < Scale(k)
    ensures Field(input, at, k) == v <==> input[at..at + k] == Digits(v, k)
  {
    DigitsNumber(v, k);
    NumberDigits(input[at..at + k]);
  }

  /** The bytes agree outside the reserved stretch lo..hi. */
  predicate Agrees(input: seq<Byte>, frame: seq<Byte>, lo: nat, hi: nat) {
    |frame| <= |input| && forall k | 0 <= k < |frame| && !(lo <= k < hi) :: input[k] == frame[k]
  }

  lemma {:induction false} HeaderExact(input: seq<Byte>, kind: Byte, length: nat, session: u32, sequence: u64)
    requires |input| >= HEADER_SIZE && length < 0x1_0000
    ensures Agrees(input, Header(kind, length, session, sequence), 12, 16) <==>
            && Field(input, 0, 4) == MAGIC && input[4] == VERSION && input[5] == kind
            && Field(input, 6, 2) == length && Field(input, 8, 4) == session && Word(input, 16) == sequence
  {
    hide Digits, Field, Scale;
    DigitsLength(MAGIC, 4);
    DigitsLength(length, 2);
    DigitsLength(session, 4);
    DigitsLength(0, 4);
    DigitsLength(sequence, 8);
    Scales();
    FieldExact(input, 0, 4, MAGIC);
    FieldExact(input, 6, 2, length);
    FieldExact(input, 8, 4, session);
    FieldExact(input, 16, 8, sequence);
    var h := Header(kind, length, session, sequence);
    assert h[0..4] == Digits(MAGIC, 4) && h[4] == VERSION && h[5] == kind && h[6..8] == Digits(length, 2);
    assert h[8..12] == Digits(session, 4) && h[16..24] == Digits(sequence, 8);
    SliceExact(input, h, 0, 4);
    SliceExact(input, h, 6, 8);
    SliceExact(input, h, 8, 12);
    SliceExact(input, h, 16, 24);
  }

  lemma {:induction false} SliceExact(x: seq<Byte>, y: seq<Byte>, lo: nat, hi: nat)
    requires lo <= hi <= |x| && hi <= |y|
    ensures x[lo..hi] == y[lo..hi] <==> forall k | lo <= k < hi :: x[k] == y[k]
  {
    if x[lo..hi] == y[lo..hi] {
      forall k | lo <= k < hi ensures x[k] == y[k] { assert x[k] == x[lo..hi][k - lo]; }
    }
  }

  /** The payload's reserved bytes: two in a new order, none elsewhere. */
  function Spare(k: CommandType): nat {
    if k.New? then 4 else 2
  }

  lemma {:induction false} PayloadExact(k: CommandType, payload: seq<Byte>, m: Command)
    requires |payload| == RequestSize(k) - HEADER_SIZE
    ensures DecodePayload(k, payload) == Some(m) <==>
            m.kind == k && Carried(m) == m && Agrees(payload, RequestPayload(m), 2, Spare(k))
  {
    hide Digits, Field, Scale;
    DigitsLength(m.orderId, 8);
    DigitsLength(Unsigned(m.price), 8);
    DigitsLength(m.quantity, 8);
    DigitsLength(0, 2);
    Scales();
    if m.kind == k {
      var bs, at := RequestPayload(m), if k.New? then 4 else 0;
      FieldExact(payload, at, 8, m.orderId);
      assert bs[at..at + 8] == Digits(m.orderId, 8);
      SliceExact(payload, bs, at, at + 8);
      if !k.Cancel? {
        FieldExact(payload, at + 8, 8, Unsigned(m.price));
        FieldExact(payload, at + 16, 8, m.quantity);
        assert bs[at + 8..at + 16] == Digits(Unsigned(m.price), 8) && bs[at + 16..at + 24] == Digits(m.quantity, 8);
        SliceExact(payload, bs, at + 8, at + 16);
        SliceExact(payload, bs, at + 16, at + 24);
      }
    }
  }

  /** The bytes stand for the request: its frame, whatever the reserved bytes hold. */
  predicate Denotes(input: seq<Byte>, r: Request) {
    var n := RequestSize(r.command.kind);
    && n <= |input|
    && Agrees(input, Header(TypeCode(r.command.kind), n, r.session, r.clientSequence), 12, 16)
    && Agrees(input[HEADER_SIZE..n], RequestPayload(r.command), 2, Spare(r.command.kind))
  }

  /**
   The decoder accepts exactly the frames of encodable requests, reserved bytes apart, and consumes
   exactly the frame.
   */
  lemma {:induction false} DecodeExact(input: seq<Byte>, r: Request, n: nat)
    ensures DecodeRequest(input) == Ok(r, n) <==>
            && Denotes(input, r) && Encodable(r) && Carried(r.command) == r.command && n == RequestSize(r.command.kind)
  {
    hide Header, Field, Word, DecodePayload, RequestPayload, Agrees, Scale;
    HeaderKinds(input);
    var size := RequestSize(r.command.kind);
    if size <= |input| {
      HeaderExact(input, TypeCode(r.command.kind), size, r.session, r.clientSequence);
      PayloadExact(r.command.kind, input[HEADER_SIZE..size], r.command);
    }
    if DecodeRequest(input) == Ok(r, n) {
      var kind := TypeOf(input[5]).value;
      PayloadExact(kind, input[HEADER_SIZE..RequestSize(kind)], r.command);
    }
  }

  /** The header's verdict, field by field. */
  lemma {:induction false} HeaderKinds(input: seq<Byte>)
    ensures var h := ValidateHeader(input);
            h.Ok? <==>
            && |input| >= HEADER_SIZE && Field(input, 0, 4) == MAGIC && input[4] == VERSION
            && HEADER_SIZE <= Field(input, 6, 2) <= MAXIMUM_FRAME_SIZE && Field(input, 6, 2) <= |input|
  {
    hide Field, Word;
  }

  lemma {:induction false} ResponsePayloadExact(payload: seq<Byte>, e: Event)
    requires |payload| == RESPONSE_SIZE - HEADER_SIZE
    ensures DecodeResponsePayload(payload) == Some(e) <==> Agrees(payload, ResponsePayload(e), 3, 4)
  {
    hide Digits, Field, Scale;
    DigitsLength(e.orderId, 8);
    DigitsLength(e.contra, 8);
    DigitsLength(Unsigned(e.price), 8);
    DigitsLength(e.quantity, 8);
    DigitsLength(e.sequence, 8);
    Scales();
    var bs := ResponsePayload(e);
    assert bs[4..12] == Digits(e.orderId, 8) && bs[12..20] == Digits(e.contra, 8);
    assert bs[20..28] == Digits(Unsigned(e.price), 8) && bs[28..36] == Digits(e.quantity, 8)
           && bs[36..44] == Digits(e.sequence, 8);
    FieldExact(payload, 4, 8, e.orderId);
    FieldExact(payload, 12, 8, e.contra);
    FieldExact(payload, 20, 8, Unsigned(e.price));
    FieldExact(payload, 28, 8, e.quantity);
    FieldExact(payload, 36, 8, e.sequence);
    SliceExact(payload, bs, 4, 12);
    SliceExact(payload, bs, 12, 20);
    SliceExact(payload, bs, 20, 28);
    SliceExact(payload, bs, 28, 36);
    SliceExact(payload, bs, 36, 44);
  }

  /** The same for responses. */
  lemma {:induction false} DecodeResponseExact(input: seq<Byte>, r: Response, n: nat)
    ensures DecodeResponse(input) == Ok(r, n) <==>
            && n == RESPONSE_SIZE <= |input| && EncodableResponse(r)
            && Agrees(input, Header(EXECUTION_EVENT, RESPONSE_SIZE, r.session, r.clientSequence), 12, 16)
            && Agrees(input[HEADER_SIZE..RESPONSE_SIZE], ResponsePayload(r.event), 3, 4)
  {
    hide Header, Field, Word, DecodeResponsePayload, ResponsePayload, Agrees, Scale;
    HeaderKinds(input);
    if RESPONSE_SIZE <= |input| {
      HeaderExact(input, EXECUTION_EVENT, RESPONSE_SIZE, r.session, r.clientSequence);
      ResponsePayloadExact(input[HEADER_SIZE..RESPONSE_SIZE], r.event);
    }
  }

  /** Whatever decodes re-encodes to a frame of the same length that decodes to the same request. */
  lemma {:induction false} DecodedIsCanonical(input: seq<Byte>)
    requires DecodeRequest(input).Ok?
    ensures var d := DecodeRequest(input);
            d.consumed == |RequestFrame(d.value)| <= MAXIMUM_FRAME_SIZE && DecodeRequest(RequestFrame(d.value)) == d
  {
    hide DecodeRequest, RequestFrame, Denotes;
    var d := DecodeRequest(input);
    DecodeExact(input, d.value, d.consumed);
    RequestLength(d.value);
    assert RequestFrame(d.value) + [] == RequestFrame(d.value);
    RequestRoundTrip(d.value, []);
  }

  // ---- the encoders, writing into a buffer ---------------------------------------------------

  method PutByte(output: array<Byte>, at: nat, x: Byte)
    requires at < output.Length
    modifies output
    ensures output[..] == Written(old(output[..]), at, [x])
  {
    output[at] := x;
  }

  method PutHeader(output: array<Byte>, at: nat, kind: Byte, length: nat, session: u32, sequence: u64)
    requires at + HEADER_SIZE <= output.Length
    modifies output
    ensures output[..] == Written(old(output[..]), at, Header(kind, length, session, sequence))
  {
    hide Digits, Written;
    DigitsLength(MAGIC, 4);
    DigitsLength(length, 2);
    DigitsLength(session, 4);
    DigitsLength(0, 4);
    DigitsLength(sequence, 8);
    ghost var was, bs := output[..], Digits(MAGIC, 4);
    Put(output, at, 4, MAGIC);
    PutByte(output, at + 4, VERSION);
    WrittenTwice(was, at, bs, [VERSION]);
    PutByte(output, at + 5, kind);
    WrittenTwice(was, at, bs + [VERSION], [kind]);
    bs := bs + [VERSION, kind];
    assert Digits(MAGIC, 4) + [VERSION] + [kind] == bs;
    Put(output, at + 6, 2, length);
    WrittenTwice(was, at, bs, Digits(length, 2));
    bs := bs + Digits(length, 2);
    Put(output, at + 8, 4, session);
    WrittenTwice(was, at, bs, Digits(session, 4));
    bs := bs + Digits(session, 4);
    Put(output, at + 12, 4, 0);
    WrittenTwice(was, at, bs, Digits(0, 4));
    bs := bs + Digits(0, 4);
    Put(output, at + 16, 8, sequence);
    WrittenTwice(was, at, bs, Digits(sequence, 8));
  }

  /** Three consecutive 64-bit words. */
  method PutWords(output: array<Byte>, at: nat, x: u64, y: u64, z: u64)
    requires at + 24 <= output.Length
    modifies output
    ensures output[..] == Written(old(output[..]), at, Digits(x, 8) + Digits(y, 8) + Digits(z, 8))
  {
    hide Digits, Written;
    DigitsLength(x, 8);
    DigitsLength(y, 8);
    DigitsLength(z, 8);
    ghost var was := output[..];
    Put(output, at, 8, x);
    Put(output, at + 8, 8, y);
    WrittenTwice(was, at, Digits(x, 8), Digits(y, 8));
    Put(output, at + 16, 8, z);
    WrittenTwice(was, at, Digits(x, 8) + Digits(y, 8), Digits(z, 8));
  }

  method PutRequestPayload(output: array<Byte>, at: nat, m: Command)
    requires at + RequestSize(m.kind) - HEADER_SIZE <= output.Length
    modifies output
    ensures output[..] == Written(old(output[..]), at, RequestPayload(m))
  {
    hide Digits, Written;
    ghost var was := output[..];
    match m.kind
    case New =>
      DigitsLength(0, 2);
      PutByte(output, at, SideCode(m.side));
      PutByte(output, at + 1, OrderTypeCode(m.orderType));
      ghost var bs := [SideCode(m.side)] + [OrderTypeCode(m.orderType)];
      WrittenTwice(was, at, [SideCode(m.side)], [OrderTypeCode(m.orderType)]);
      Put(output, at + 2, 2, 0);
      WrittenTwice(was, at, bs, Digits(0, 2));
      bs := bs + Digits(0, 2);
      PutWords(output, at + 4, m.orderId, Unsigned(m.price), m.quantity);
      ghost var words := Digits(m.orderId, 8) + Digits(Unsigned(m.price), 8) + Digits(m.quantity, 8);
      WordsLength(m.orderId, Unsigned(m.price), m.quantity);
      WrittenTwice(was, at, bs, words);
      assert bs + words == RequestPayload(m);
    case Cancel => Put(output, at, 8, m.orderId);
    case Replace => PutWords(output, at, m.orderId, Unsigned(m.price), m.quantity);
  }

  lemma {:induction false} WordsLength(x: u64, y: u64, z: u64)
    ensures |Digits(x, 8) + Digits(y, 8) + Digits(z, 8)| == 24
  {}

  /**
   encode_request into the window of `room` bytes at `at`: refused exactly when the window is too
   small or an identifier is zero, and then the buffer is untouched.
   */
  method EncodeRequest(r: Request, output: array<Byte>, at: nat, room: nat) returns (ok: bool, written: nat)
    requires at + room <= output.Length
    modifies output
    ensures ok <==> RequestSize(r.command.kind) <= room && Encodable(r)
    ensures ok ==> written == |RequestFrame(r)| && output[..] == Written(old(output[..]), at, RequestFrame(r))
    ensures !ok ==> written == 0 && output[..] == old(output[..])
  {
    hide Header, RequestPayload, Written;
    var length := RequestSize(r.command.kind);
    if room < length || r.session == 0 || r.clientSequence == 0 || r.command.orderId == 0 {
      return false, 0;
    }
    ghost var was := output[..];
    ghost var header := Header(TypeCode(r.command.kind), length, r.session, r.clientSequence);
    HeaderLength(TypeCode(r.command.kind), length, r.session, r.clientSequence);
    RequestLength(r);
    PutHeader(output, at, TypeCode(r.command.kind), length, r.session, r.clientSequence);
    PutRequestPayload(output, at + HEADER_SIZE, r.command);
    WrittenTwice(was, at, header, RequestPayload(r.command));
    return true, length;
  }

  method PutResponsePayload(output: array<Byte>, at: nat, e: Event)
    requires at + RESPONSE_SIZE - HEADER_SIZE <= output.Length
    modifies output
    ensures output[..] == Written(old(output[..]), at, ResponsePayload(e))
  {
    hide Digits, Written;
    ghost var was := output[..];
    DigitsLength(e.quantity, 8);
    DigitsLength(e.sequence, 8);
    WordsLength(e.orderId, e.contra, Unsigned(e.price));
    PutByte(output, at, EventCode(e.kind));
    PutByte(output, at + 1, SideCode(e.side));
    WrittenTwice(was, at, [EventCode(e.kind)], [SideCode(e.side)]);
    ghost var bs := [EventCode(e.kind)] + [SideCode(e.side)];
    PutByte(output, at + 2, ReasonCode(e.reason));
    WrittenTwice(was, at, bs, [ReasonCode(e.reason)]);
    bs := bs + [ReasonCode(e.reason)];
    PutByte(output, at + 3, 0);
    WrittenTwice(was, at, bs, [0]);
    bs := bs + [0];
    ghost var words := Digits(e.orderId, 8) + Digits(e.contra, 8) + Digits(Unsigned(e.price), 8);
    PutWords(output, at + 4, e.orderId, e.contra, Unsigned(e.price));
    WrittenTwice(was, at, bs, words);
    bs := bs + words;
    Put(output, at + 28, 8, e.quantity);
    WrittenTwice(was, at, bs, Digits(e.quantity, 8));
    bs := bs + Digits(e.quantity, 8);
    Put(output, at + 36, 8, e.sequence);
    WrittenTwice(was, at, bs, Digits(e.sequence, 8));
    assert bs + Digits(e.sequence, 8) == ResponsePayload(e);
  }

  method EncodeResponse(r: Response, output: array<Byte>, at: nat, room: nat) returns (ok: bool, written: nat)
    requires at + room <= output.Length
    modifies output
    ensures ok <==> RESPONSE_SIZE <= room && EncodableResponse(r)
    ensures ok ==> written == |ResponseFrame(r)| && output[..] == Written(old(output[..]), at, ResponseFrame(r))
    ensures !ok ==> written == 0 && output[..] == old(output[..])
  {
    hide Header, ResponsePayload, Written;
    if room < RESPONSE_SIZE || r.session == 0 || r.clientSequence == 0 {
      return false, 0;
    }
    ghost var was := output[..];
    HeaderLength(EXECUTION_EVENT, RESPONSE_SIZE, r.session, r.clientSequence);
    ResponseReads(r.event);
    PutHeader(output, at, EXECUTION_EVENT, RESPONSE_SIZE, r.session, r.clientSequence);
    PutResponsePayload(output, at + HEADER_SIZE, r.event);
    WrittenTwice(was, at, Header(EXECUTION_EVENT, RESPONSE_SIZE, r.session, r.clientSequence),
      ResponsePayload(r.event));
    return true, RESPONSE_SIZE;
  }
}
