/** Snapshot files: writing a live book's image and rebuilding a book from one. */
module Snapshot {
  import opened Types
  import opened Ladder
  import opened Invariants
  import opened Recovery
  import opened Journal
  import opened FixedIndex
  import opened Rep
  import opened RepOps
  import opened Engine

  datatype SnapshotHeader = SnapshotHeader(config: Config, last: u64, count: u64, checksum: u64)

  /** How headers and resting orders lie in the file; decodeHeader refuses a foreign magic, version or record size. */
  datatype SnapshotFormat = SnapshotFormat(
    headerSize: nat, encodeHeader: SnapshotHeader -> seq<Byte>, decodeHeader: seq<Byte> -> Option<SnapshotHeader>,
    orderSize: nat, encodeOrder: RestingOrder -> seq<Byte>, decodeOrder: seq<Byte> -> RestingOrder)

  ghost predicate FaithfulSnapshot(f: SnapshotFormat) {
    && f.orderSize > 0
    && (forall h :: |f.encodeHeader(h)| == f.headerSize && f.decodeHeader(f.encodeHeader(h)) == Some(h))
    && (forall o :: |f.encodeOrder(o)| == f.orderSize && f.decodeOrder(f.encodeOrder(o)) == o)
  }

  /** The orders' memory, one record after the other. */
  function Area(f: SnapshotFormat, os: seq<RestingOrder>): seq<Byte> {
    if os == [] then [] else f.encodeOrder(os[0]) + Area(f, os[1..])
  }

  /** The first n records of an area. */
  function ReadArea(f: SnapshotFormat, bytes: seq<Byte>, n: nat): (os: seq<RestingOrder>)
    requires |bytes| == Extent(n, f.orderSize)
    ensures |os| == n
  {
    if n == 0 then []
    else
      ExtentNext(n - 1, f.orderSize);
      [f.decodeOrder(bytes[..f.orderSize])] + ReadArea(f, bytes[f.orderSize..], n - 1)
  }

  function Encoded(f: SnapshotFormat, c: Config, last: u64, os: seq<RestingOrder>): seq<Byte>
    requires |os| < TWO64
  {
    f.encodeHeader(SnapshotHeader(c, last, |os|, Checksum(Area(f, os)))) + Area(f, os)
  }

  /** The orders a file holds, with its header, or None where reading throws before restoring. */
  function Decoded(f: SnapshotFormat, bytes: seq<Byte>): (r: Option<(SnapshotHeader, seq<RestingOrder>)>)
    ensures r.Some? ==> |r.value.1| == r.value.0.count
  {
    if |bytes| < f.headerSize then None
    else
      var d := f.decodeHeader(bytes[..f.headerSize]);
      if d.None? || d.value.count > d.value.config.maximumOrders then None
      else
        var h, rest := d.value, bytes[f.headerSize..];
        var extent := Extent(h.count, f.orderSize);
        if |rest| < extent || Checksum(rest[..extent]) != h.checksum then None
        else Some((h, ReadArea(f, rest[..extent], h.count)))
  }

  /** read_snapshot: the configuration and book, or None where it throws. */
  ghost function Read(f: SnapshotFormat, bytes: seq<Byte>): Option<(Config, Book)> {
    var d := Decoded(f, bytes);
    if d.None? || !ValidConfig(d.value.0.config) then None
    else
      var r := Recovery.Restore(d.value.0.config, d.value.0.last, d.value.1);
      if r.ok then Some((d.value.0.config, r.book)) else None
  }

  // ---- the two operations --------------------------------------------------------------------

  method WriteSnapshot(f: SnapshotFormat, book: OrderBook) returns (bytes: seq<Byte>)
    requires book.Valid()
    ensures ValidConfig(book.config) && |RestingList(book.config, book.Value())| < TWO64
    ensures bytes == Encoded(f, book.config, book.lastSequence, RestingList(book.config, book.Value()))
  {
    hide RestingList, Checksum, Area, RepOk, Abstract, Resting;
    Sizes(book.config, book.Repr());
    FreeIsRoom(book.config, book.Repr(), book.lastSequence);
    ListingRoundTrip(book.config, book.Value());
    var orders := book.RestingOrders();
    var area := Area(f, orders);
    var checksum := ChecksumBytes(area);
    bytes := f.encodeHeader(SnapshotHeader(book.config, book.lastSequence, |orders|, checksum)) + area;
  }

  method ReadSnapshot(f: SnapshotFormat, bytes: seq<Byte>, hash: Hash) returns (r: Option<OrderBook>)
    ensures r.Some? <==> Read(f, bytes).Some?
    ensures r.Some? ==> && r.value.Valid() && fresh(r.value.Footprint())
                        && Read(f, bytes) == Some((r.value.config, r.value.Value()))
  {
    hide Decoded, RepOk, Abstract, Recovery.Restore, Empty;
    DecodedCount(f, bytes);
    var d := Decoded(f, bytes);
    if d.None? {
      return None;
    }
    var made := Open(d.value.0.config, hash);
    if made.None? {
      return None;
    }
    var book := made.value;
    var ok := book.Restore(d.value.0.last, d.value.1);
    if !ok {
      return None;
    }
    return Some(book);
  }

  lemma {:induction false} DecodedCount(f: SnapshotFormat, bytes: seq<Byte>)
    ensures var d := Decoded(f, bytes); d.Some? ==> |d.value.1| <= d.value.0.config.maximumOrders
  {
    hide Checksum, ReadArea;
  }

  // ---- round trip, truncation, corruption ----------------------------------------------------

  lemma {:induction false} AreaLength(f: SnapshotFormat, os: seq<RestingOrder>)
    requires FaithfulSnapshot(f)
    ensures |Area(f, os)| == Extent(|os|, f.orderSize)
  {
    hide Extent;
    ExtentNext(if os == [] then 0 else |os| - 1, f.orderSize);
    if os != [] { AreaLength(f, os[1..]); }
  }

  lemma {:induction false} AreaRoundTrip(f: SnapshotFormat, os: seq<RestingOrder>)
    requires FaithfulSnapshot(f)
    ensures |Area(f, os)| == Extent(|os|, f.orderSize) && ReadArea(f, Area(f, os), |os|) == os
  {
    hide Extent;
    AreaLength(f, os);
    if os != [] {
      var bytes := Area(f, os);
      assert bytes[..f.orderSize] == f.encodeOrder(os[0]) && bytes[f.orderSize..] == Area(f, os[1..]);
      AreaRoundTrip(f, os[1..]);
    }
  }

  /** A written file decodes to what was written, whatever follows it, unless it holds too many orders. */
  lemma {:induction false} FileRoundTrip(f: SnapshotFormat, c: Config, last: u64, os: seq<RestingOrder>,
                                         tail: seq<Byte>)
    requires FaithfulSnapshot(f) && |os| < TWO64
    ensures Decoded(f, Encoded(f, c, last, os) + tail)
            == if |os| <= c.maximumOrders then Some((SnapshotHeader(c, last, |os|, Checksum(Area(f, os))), os))
              else None
  {
    hide Checksum, Extent, Area, ReadArea;
    AreaRoundTrip(f, os);
    var bytes, area := Encoded(f, c, last, os) + tail, Area(f, os);
    var h := SnapshotHeader(c, last, |os|, Checksum(area));
    assert bytes[..f.headerSize] == f.encodeHeader(h);
    assert bytes[f.headerSize..] == area + tail && (area + tail)[..|area|] == area;
  }

  /**
   Snapshot and restore: a book's image reads back as that very book if and only if the book is
   sound and dated.
   */
  lemma {:induction false} ImageRoundTrip(f: SnapshotFormat, c: Config, b: Book, tail: seq<Byte>)
    requires FaithfulSnapshot(f) && ValidConfig(c) && Sized(c, b) && |RestingList(c, b)| < TWO64
    ensures Read(f, Encoded(f, c, b.last, RestingList(c, b)) + tail) == Some((c, b)) <==> Sound(c, b) && Dated(b)
  {
    hide Decoded, Encoded, RestingList, Recovery.Restore, Dated, Positive, UniqueIds, Resting;
    ListingRoundTrip(c, b);
    FileRoundTrip(f, c, b.last, RestingList(c, b), tail);
    SnapshotRoundTrip(c, b);
  }

  /** A file cut short anywhere is refused. */
  lemma {:induction false} TruncationRefused(f: SnapshotFormat, c: Config, last: u64, os: seq<RestingOrder>, n: nat)
    requires FaithfulSnapshot(f) && |os| <= c.maximumOrders && n < |Encoded(f, c, last, os)|
    ensures Decoded(f, Encoded(f, c, last, os)[..n]) == None
  {
    hide Checksum, Extent, Area, ReadArea;
    AreaLength(f, os);
    var bytes := Encoded(f, c, last, os)[..n];
    if n >= f.headerSize {
      assert bytes[..f.headerSize] == f.encodeHeader(SnapshotHeader(c, last, |os|, Checksum(Area(f, os))));
    }
  }

  /** Any one byte of the orders changed: the file is refused. */
  lemma {:induction false} CorruptionRefused(f: SnapshotFormat, c: Config, last: u64, os: seq<RestingOrder>, at: nat,
                                             x: Byte)
    requires FaithfulSnapshot(f) && |os| <= c.maximumOrders
    requires f.headerSize <= at < |Encoded(f, c, last, os)| && x != Encoded(f, c, last, os)[at]
    ensures Decoded(f, Encoded(f, c, last, os)[at := x]) == None
  {
    hide Checksum, Extent, Area, ReadArea;
    AreaLength(f, os);
    var bytes, area := Encoded(f, c, last, os)[at := x], Area(f, os);
    assert bytes[..f.headerSize] == f.encodeHeader(SnapshotHeader(c, last, |os|, Checksum(area)));
    assert bytes[f.headerSize..] == area[at - f.headerSize := x];
    assert bytes[f.headerSize..][..|area|] == area[at - f.headerSize := x];
    ChecksumDetects(area, at - f.headerSize, x);
  }

  /** There is a book, and it holds this ladder. */
  ghost predicate Same(copy: Option<OrderBook>, b: Book)
    reads if copy.Some? then copy.value.Footprint() else {}
  {
    copy.Some? && copy.value.Valid() && copy.value.Value() == b
  }

  /** Save a live book and load it back: the copy holds the same ladder exactly when that is sound and dated. */
  method Reload(f: SnapshotFormat, book: OrderBook, hash: Hash) returns (copy: Option<OrderBook>)
    requires book.Valid() && FaithfulSnapshot(f)
    ensures book.Valid()
    ensures copy.Some? ==> && copy.value.Valid() && fresh(copy.value.Footprint())
                           && copy.value.config == book.config
    ensures Same(copy, book.Value()) <==> Sound(book.config, book.Value()) && Dated(book.Value())
  {
    hide RepOk, SidesOk, Sound, Dated, Read, Encoded, RestingList, Views, Resting;
    var bytes := WriteSnapshot(f, book);
    FreeIsRoom(book.config, book.Repr(), book.lastSequence);
    ImageRoundTrip(f, book.config, book.Value(), []);
    assert bytes + [] == bytes;
    copy := ReadSnapshot(f, bytes, hash);
    ListingRoundTrip(book.config, book.Value());
    ReadConfig(f, book.config, book.lastSequence, RestingList(book.config, book.Value()));
  }

  /**
   A live book and its reloaded copy, both fed the same commands: the same answers and the same
   ladder, though node numbers, hash layout and counters differ.
   */
  method ReloadAndCompare(f: SnapshotFormat, book: OrderBook, hash: Hash, ms: seq<Command>)
    returns (live: seq<Event>, copy: Option<OrderBook>, replayed: seq<Event>)
    requires book.Valid() && FaithfulSnapshot(f)
    modifies book, book.bids, book.asks, book.bidBits, book.askBits, book.nodes, book.index.entries, book.index`slotOf
    ensures book.Valid() && live == Run(book.config, old(book.Value()), ms).events
    ensures Sound(book.config, old(book.Value())) && Dated(old(book.Value())) ==>
              Same(copy, book.Value()) && live == replayed
  {
    hide RepOk, Abstract, Sound, Dated, Run, Uncrossed, Indexed, Chained, Contents, Advance;
    copy := Reload(f, book, hash);
    replayed := [];
    if copy.Some? {
      replayed := copy.value.ProcessAll(ms);
    }
    live := book.ProcessAll(ms);
  }

  /** A written file, if it reads back at all, reads back with its configuration. */
  lemma {:induction false} ReadConfig(f: SnapshotFormat, c: Config, last: u64, os: seq<RestingOrder>)
    requires FaithfulSnapshot(f) && |os| <= c.maximumOrders
    ensures Read(f, Encoded(f, c, last, os)).Some? ==> Read(f, Encoded(f, c, last, os)).value.0 == c
  {
    hide Decoded, Encoded, Recovery.Restore;
    FileRoundTrip(f, c, last, os, []);
    assert Encoded(f, c, last, os) + [] == Encoded(f, c, last, os);
  }
}
