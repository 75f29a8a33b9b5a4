/**
 The formats the journal and the snapshots assume, made concrete: the structs' own field order,
 little-endian, with their padding zero. Every assumption about a format holds of these.
 */
module Layout {
  import opened Types
  import opened Codec
  import opened Wire
  import Journal
  import Snapshot

  // ---- the journal ---------------------------------------------------------------------------

  function KindCode(k: CommandType): Byte {
    match k case New => 0 case Cancel => 1 case Replace => 2
  }

  function KindOf(x: Byte): CommandType {
    if x == 0 then New else if x == 1 then Cancel else Replace
  }

  function OrDefault<T>(r: Option<T>, x: T): T {
    if r.Some? then r.value else x
  }

  function CommandBytes(m: Command): (bs: seq<Byte>)
    ensures |bs| == 40
  {
    Digits(m.sequence, 8) + [KindCode(m.kind), SideCode(m.side), OrderTypeCode(m.orderType), 0] + Digits(0, 4)
    + Digits(m.orderId, 8) + Digits(Unsigned(m.price), 8) + Digits(m.quantity, 8)
  }

  function CommandOf(bs: seq<Byte>): Command {
    if |bs| != 40 then Command(0, New, Buy, Limit, 0, 0, 0)
    else Command(Word(bs, 0), KindOf(bs[8]), OrDefault(SideOf(bs[9]), Buy), OrDefault(OrderTypeOf(bs[10]), Limit),
                 Word(bs, 16), Signed(Word(bs, 24)), Word(bs, 32))
  }

  lemma {:induction false} WordIs(bs: seq<Byte>, at: nat, v: u64)
    requires at + 8 <= |bs| && bs[at..at + 8] == Digits(v, 8)
    ensures Word(bs, at) == v
  {
    hide Digits, Field;
    Scales();
    FieldIs(bs, at, 8, v);
  }

  lemma {:induction false} CommandLayout(m: Command)
    ensures |CommandBytes(m)| == 40 && CommandOf(CommandBytes(m)) == m
  {
    hide Digits, Word;
    DigitsLength(m.sequence, 8);
    DigitsLength(0, 4);
    DigitsLength(m.orderId, 8);
    DigitsLength(Unsigned(m.price), 8);
    DigitsLength(m.quantity, 8);
    var bs := CommandBytes(m);
    assert bs[0..8] == Digits(m.sequence, 8) && bs[16..24] == Digits(m.orderId, 8);
    assert bs[24..32] == Digits(Unsigned(m.price), 8) && bs[32..40] == Digits(m.quantity, 8);
    WordIs(bs, 0, m.sequence);
    WordIs(bs, 16, m.orderId);
    WordIs(bs, 24, Unsigned(m.price));
    WordIs(bs, 32, m.quantity);
  }

  function WordBytes(w: u64): seq<Byte> {
    Digits(w, 8)
  }

  function WordOf(bs: seq<Byte>): u64 {
    if |bs| == 8 then Word(bs, 0) else 0
  }

  lemma {:induction false} WordLayout(w: u64)
    ensures |WordBytes(w)| == 8 && WordOf(WordBytes(w)) == w
  {
    hide Digits, Word;
    DigitsLength(w, 8);
    assert Digits(w, 8)[0..8] == Digits(w, 8);
    WordIs(Digits(w, 8), 0, w);
  }

  lemma {:induction false} WordUnique(bs: seq<Byte>)
    requires |bs| == 8
    ensures WordBytes(WordOf(bs)) == bs
  {
    hide Digits, Number;
    NumberDigits(bs);
    assert bs[0..8] == bs;
  }

  /** Magic, version 1 and the record size. */
  function FileHeader(magic: seq<Byte>, recordSize: nat): seq<Byte> {
    magic + Digits(1, 4) + Digits(recordSize, 4)
  }

  const JOURNAL_MAGIC: seq<Byte> := [0x44, 0x4d, 0x45, 0x4a, 0x4e, 0x4c, 0x31, 0]
  const JOURNAL := Journal.Format(40, CommandBytes, CommandOf, WordBytes, WordOf, FileHeader(JOURNAL_MAGIC, 48))

  /** The concrete journal format is faithful. */
  lemma {:induction false} JournalLayout()
    ensures Journal.Faithful(JOURNAL)
  {
    hide CommandBytes, CommandOf, WordBytes, WordOf;
    HeaderBytes(JOURNAL_MAGIC, 48);
    forall m ensures |CommandBytes(m)| == 40 && CommandOf(CommandBytes(m)) == m { CommandLayout(m); }
    forall w ensures |WordBytes(w)| == 8 && WordOf(WordBytes(w)) == w { WordLayout(w); }
    forall bs: seq<Byte> | |bs| == 8 ensures WordBytes(WordOf(bs)) == bs { WordUnique(bs); }
  }

  lemma {:induction false} HeaderBytes(magic: seq<Byte>, recordSize: nat)
    ensures |FileHeader(magic, recordSize)| == |magic| + 8
  {}

  /**
   Reopening without truncating does lose commands: a journal one byte short of any last record, and
   a next command whose append no replay will ever deliver, nor anything after it.
   */
  lemma {:induction false} TornAppendLost(ms: seq<Command>, m: Command, more: seq<Command>) returns (next: Command)
    ensures Journal.Faithful(JOURNAL) && |Journal.File(JOURNAL, ms + [m])| > Journal.HEADER_SIZE
    ensures var file := Journal.File(JOURNAL, ms + [m]);
            var r := Journal.Replay(JOURNAL, file[..|file| - 1] + Journal.Log(JOURNAL, [next] + more));
            r.Some? && r.value.commands == ms && !r.value.clean
  {
    hide Journal.Replay, Journal.Log, Journal.File, Journal.Checksum, Journal.Extent, Digits, Journal.Faithful;
    JournalLayout();
    Journal.RecordLength(JOURNAL, [m]);
    var lost := Journal.Record(JOURNAL, [m][0])[47];
    next := Command(if lost == 0 then 1 else 0, Cancel, Buy, Limit, 1, 0, 0);
    FirstByte(next);
    Journal.AppendLost(JOURNAL, ms, m, next, more);
  }

  lemma {:induction false} FirstByte(m: Command)
    ensures |Journal.Record(JOURNAL, m)| > 0 && Journal.Record(JOURNAL, m)[0] == m.sequence % 256
  {
    hide Journal.Checksum;
    assert CommandBytes(m)[0] == Digits(m.sequence, 8)[0];
  }

  lemma {:induction false} DigitsAt(bs: seq<Byte>, at: nat, w: u64)
    requires at + 8 <= |bs| && bs[at..at + 8] == Digits(w, 8)
    ensures U64(bs, at) == w
  {
    hide Digits, Word, U64;
    WordIs(bs, at, w);
    WordSum(bs, at);
  }

  /** A record of the journal, byte by byte: 40 of the command, then its checksum. */
  lemma {:induction false} RecordLaidOut(m: Command)
    ensures var bs := Journal.Record(JOURNAL, m);
            && |bs| == 48 && U64(bs, 0) == m.sequence
            && bs[8] == (match m.kind case New => 0 case Cancel => 1 case Replace => 2)
            && SideIn(bs[9], m.side) && OrderTypeIn(bs[10], m.orderType) && bs[11..16] == [0, 0, 0, 0, 0]
            && U64(bs, 16) == m.orderId && PriceIn(bs, 24, m.price) && U64(bs, 32) == m.quantity
            && U64(bs, 40) == Journal.Checksum(bs[..40])
  {
    hide Digits, U64, Journal.Checksum;
    DigitsLength(m.sequence, 8);
    DigitsZero();
    DigitsLength(m.orderId, 8);
    DigitsLength(Unsigned(m.price), 8);
    DigitsLength(m.quantity, 8);
    var command := CommandBytes(m);
    var sum := Journal.Checksum(command);
    DigitsLength(sum, 8);
    var bs := Journal.Record(JOURNAL, m);
    assert bs == command + Digits(sum, 8) && bs[..40] == command;
    assert bs[0..8] == Digits(m.sequence, 8) && bs[16..24] == Digits(m.orderId, 8);
    assert bs[24..32] == Digits(Unsigned(m.price), 8) && bs[32..40] == Digits(m.quantity, 8);
    assert bs[40..48] == Digits(sum, 8);
    DigitsAt(bs, 0, m.sequence);
    DigitsAt(bs, 16, m.orderId);
    DigitsAt(bs, 24, Unsigned(m.price));
    DigitsAt(bs, 32, m.quantity);
    DigitsAt(bs, 40, sum);
  }

  /** The journal's first 16 bytes. */
  lemma {:induction false} JournalOpens()
    ensures JOURNAL.header == [0x44, 0x4d, 0x45, 0x4a, 0x4e, 0x4c, 0x31, 0, 1, 0, 0, 0, 48, 0, 0, 0]
  {
    SmallDigits(1);
    SmallDigits(48);
  }

  lemma {:induction false} SmallDigits(x: Byte)
    ensures Digits(x, 4) == [x, 0, 0, 0]
  {
    assert Digits(0, 1) == [0] && Digits(0, 2) == [0, 0] && Digits(0, 3) == [0, 0, 0];
  }

  // ---- snapshots -----------------------------------------------------------------------------

  function OrderBytes(o: RestingOrder): (bs: seq<Byte>)
    ensures |bs| == 40
  {
    Digits(o.orderId, 8) + [SideCode(o.side)] + Digits(0, 7)
    + Digits(Unsigned(o.price), 8) + Digits(o.quantity, 8) + Digits(o.priority, 8)
  }

  function OrderOf(bs: seq<Byte>): RestingOrder {
    if |bs| != 40 then RestingOrder(0, Buy, 0, 0, 0)
    else RestingOrder(Word(bs, 0), OrDefault(SideOf(bs[8]), Buy), Signed(Word(bs, 16)), Word(bs, 24), Word(bs, 32))
  }

  lemma {:induction false} OrderLayout(o: RestingOrder)
    ensures |OrderBytes(o)| == 40 && OrderOf(OrderBytes(o)) == o
  {
    hide Digits, Word;
    DigitsLength(o.orderId, 8);
    DigitsLength(0, 7);
    DigitsLength(Unsigned(o.price), 8);
    DigitsLength(o.quantity, 8);
    DigitsLength(o.priority, 8);
    var bs := OrderBytes(o);
    assert bs[0..8] == Digits(o.orderId, 8) && bs[16..24] == Digits(Unsigned(o.price), 8);
    assert bs[24..32] == Digits(o.quantity, 8) && bs[32..40] == Digits(o.priority, 8);
    WordIs(bs, 0, o.orderId);
    WordIs(bs, 16, Unsigned(o.price));
    WordIs(bs, 24, o.quantity);
    WordIs(bs, 32, o.priority);
  }

  const SNAPSHOT_MAGIC: seq<Byte> := [0x44, 0x4d, 0x45, 0x53, 0x4e, 0x50, 0x31, 0]

  function ConfigBytes(c: Config): (bs: seq<Byte>)
    ensures |bs| == 32
  {
    Digits(Unsigned(c.minimumPrice), 8) + Digits(Unsigned(c.maximumPrice), 8)
    + Digits(Unsigned(c.tickSize), 8) + Digits(c.maximumOrders, 8)
  }

  function ConfigOf(bs: seq<Byte>): Config
    requires |bs| == 32
  {
    Config(Signed(Word(bs, 0)), Signed(Word(bs, 8)), Signed(Word(bs, 16)), Word(bs, 24))
  }

  lemma {:induction false} ConfigLayout(c: Config)
    ensures |ConfigBytes(c)| == 32 && ConfigOf(ConfigBytes(c)) == c
  {
    hide Digits, Word;
    DigitsLength(Unsigned(c.minimumPrice), 8);
    DigitsLength(Unsigned(c.maximumPrice), 8);
    DigitsLength(Unsigned(c.tickSize), 8);
    DigitsLength(c.maximumOrders, 8);
    var bs := ConfigBytes(c);
    assert bs[0..8] == Digits(Unsigned(c.minimumPrice), 8) && bs[8..16] == Digits(Unsigned(c.maximumPrice), 8);
    assert bs[16..24] == Digits(Unsigned(c.tickSize), 8) && bs[24..32] == Digits(c.maximumOrders, 8);
    WordIs(bs, 0, Unsigned(c.minimumPrice));
    WordIs(bs, 8, Unsigned(c.maximumPrice));
    WordIs(bs, 16, Unsigned(c.tickSize));
    WordIs(bs, 24, c.maximumOrders);
  }

  function SnapshotHeaderBytes(h: Snapshot.SnapshotHeader): seq<Byte> {
    FileHeader(SNAPSHOT_MAGIC, 40) + ConfigBytes(h.config) + Digits(h.last, 8) + Digits(h.count, 8)
      + Digits(h.checksum, 8)
  }

  function SnapshotHeaderOf(bs: seq<Byte>): Option<Snapshot.SnapshotHeader> {
    if |bs| != 72 || bs[..16] != FileHeader(SNAPSHOT_MAGIC, 40) then None
    else Some(Snapshot.SnapshotHeader(ConfigOf(bs[16..48]), Word(bs, 48), Word(bs, 56), Word(bs, 64)))
  }

  lemma {:induction false} SnapshotHeaderLayout(h: Snapshot.SnapshotHeader)
    ensures |SnapshotHeaderBytes(h)| == 72 && SnapshotHeaderOf(SnapshotHeaderBytes(h)) == Some(h)
  {
    hide Digits, Word, ConfigBytes, ConfigOf, FileHeader;
    HeaderBytes(SNAPSHOT_MAGIC, 40);
    ConfigLayout(h.config);
    DigitsLength(h.last, 8);
    DigitsLength(h.count, 8);
    DigitsLength(h.checksum, 8);
    var bs := SnapshotHeaderBytes(h);
    assert bs[..16] == FileHeader(SNAPSHOT_MAGIC, 40) && bs[16..48] == ConfigBytes(h.config);
    assert bs[48..56] == Digits(h.last, 8) && bs[56..64] == Digits(h.count, 8) && bs[64..72] == Digits(h.checksum, 8);
    WordIs(bs, 48, h.last);
    WordIs(bs, 56, h.count);
    WordIs(bs, 64, h.checksum);
  }

  /** A snapshot's 72-byte header, byte by byte. */
  lemma {:induction false} HeaderLaidOut(h: Snapshot.SnapshotHeader)
    ensures var bs := SnapshotHeaderBytes(h);
            && |bs| == 72
            && bs[..16] == [0x44, 0x4d, 0x45, 0x53, 0x4e, 0x50, 0x31, 0, 1, 0, 0, 0, 40, 0, 0, 0]
            && PriceIn(bs, 16, h.config.minimumPrice) && PriceIn(bs, 24, h.config.maximumPrice)
            && PriceIn(bs, 32, h.config.tickSize) && U64(bs, 40) == h.config.maximumOrders
            && U64(bs, 48) == h.last && U64(bs, 56) == h.count && U64(bs, 64) == h.checksum
  {
    hide Digits, U64;
    SmallDigits(1);
    SmallDigits(40);
    var c, bs := h.config, SnapshotHeaderBytes(h);
    DigitsLength(Unsigned(c.minimumPrice), 8);
    DigitsLength(Unsigned(c.maximumPrice), 8);
    DigitsLength(Unsigned(c.tickSize), 8);
    DigitsLength(c.maximumOrders, 8);
    DigitsLength(h.last, 8);
    DigitsLength(h.count, 8);
    DigitsLength(h.checksum, 8);
    assert bs[16..24] == Digits(Unsigned(c.minimumPrice), 8) && bs[24..32] == Digits(Unsigned(c.maximumPrice), 8);
    assert bs[32..40] == Digits(Unsigned(c.tickSize), 8) && bs[40..48] == Digits(c.maximumOrders, 8);
    assert bs[48..56] == Digits(h.last, 8) && bs[56..64] == Digits(h.count, 8) && bs[64..72] == Digits(h.checksum, 8);
    DigitsAt(bs, 16, Unsigned(c.minimumPrice));
    DigitsAt(bs, 24, Unsigned(c.maximumPrice));
    DigitsAt(bs, 32, Unsigned(c.tickSize));
    DigitsAt(bs, 40, c.maximumOrders);
    DigitsAt(bs, 48, h.last);
    DigitsAt(bs, 56, h.count);
    DigitsAt(bs, 64, h.checksum);
  }

  /** A resting order in a snapshot, byte by byte. */
  lemma {:induction false} OrderLaidOut(o: RestingOrder)
    ensures var bs := OrderBytes(o);
            && |bs| == 40 && U64(bs, 0) == o.orderId && SideIn(bs[8], o.side)
            && bs[9..16] == [0, 0, 0, 0, 0, 0, 0]
            && PriceIn(bs, 16, o.price) && U64(bs, 24) == o.quantity && U64(bs, 32) == o.priority
  {
    hide Digits, U64;
    DigitsLength(o.orderId, 8);
    SevenZeros();
    DigitsLength(Unsigned(o.price), 8);
    DigitsLength(o.quantity, 8);
    DigitsLength(o.priority, 8);
    var bs := OrderBytes(o);
    assert bs[0..8] == Digits(o.orderId, 8) && bs[16..24] == Digits(Unsigned(o.price), 8);
    assert bs[24..32] == Digits(o.quantity, 8) && bs[32..40] == Digits(o.priority, 8);
    DigitsAt(bs, 0, o.orderId);
    DigitsAt(bs, 16, Unsigned(o.price));
    DigitsAt(bs, 24, o.quantity);
    DigitsAt(bs, 32, o.priority);
  }

  lemma {:induction false} SevenZeros()
    ensures Digits(0, 7) == [0, 0, 0, 0, 0, 0, 0]
  {
    assert Digits(0, 1) == [0] && Digits(0, 2) == [0, 0] && Digits(0, 3) == [0, 0, 0];
    assert Digits(0, 4) == [0, 0, 0, 0] && Digits(0, 5) == [0, 0, 0, 0, 0] && Digits(0, 6) == [0, 0, 0, 0, 0, 0];
  }

  const SNAPSHOT := Snapshot.SnapshotFormat(72, SnapshotHeaderBytes, SnapshotHeaderOf, 40, OrderBytes, OrderOf)

  /** The concrete snapshot format is faithful. */
  lemma {:induction false} SnapshotLayout()
    ensures Snapshot.FaithfulSnapshot(SNAPSHOT)
  {
    hide SnapshotHeaderBytes, SnapshotHeaderOf, OrderBytes, OrderOf;
    forall h ensures |SnapshotHeaderBytes(h)| == 72 && SnapshotHeaderOf(SnapshotHeaderBytes(h)) == Some(h) {
      SnapshotHeaderLayout(h);
    }
    forall o ensures |OrderBytes(o)| == 40 && OrderOf(OrderBytes(o)) == o { OrderLayout(o); }
  }
}
