/**
 The command journal, byte by byte: fixed-size records, each sealed by a running checksum. The
 native struct layout is a parameter, any injective fixed-size encoding.
 */
module Journal {
  import opened Types
  import opened Ladder
  import opened Invariants
  import opened Recovery
  import opened Bitmap

  // ---- the checksum --------------------------------------------------------------------------

  const SEED: u64 := 1469598103934665603
  const MULTIPLIER: u64 := 1099511628211

  /** Exclusive or, over the k low bits. */
  function Xor(x: nat, y: nat, k: nat): (z: nat)
    ensures z < Pow2(k)
  {
    if k == 0 then 0 else (x % 2 + y % 2) % 2 + 2 * Xor(x / 2, y / 2, k - 1)
  }

  function Scramble(z: u64): u64 {
    Wrap(z * MULTIPLIER)
  }

  /** One byte of the checksum loop. */
  function Mix(hash: u64, x: Byte): u64 {
    WordSize();
    Scramble(Xor(hash, x, 64))
  }

  function Checksum(bytes: seq<Byte>): u64 {
    if bytes == [] then SEED else Mix(Checksum(bytes[..|bytes| - 1]), bytes[|bytes| - 1])
  }

  /** The constants and the order of a step: exclusive or first, then the multiplication modulo 2^64. */
  lemma {:induction false} ChecksumSteps(bytes: seq<Byte>, x: Byte)
    ensures Checksum([]) == 1469598103934665603
    ensures Checksum(bytes + [x]) == Xor(Checksum(bytes), x, 64) * 1099511628211 % 0x1_0000_0000_0000_0000
  {
    hide Xor;
    assert (bytes + [x])[..|bytes|] == bytes;
  }

  method ChecksumBytes(bytes: seq<Byte>) returns (hash: u64)
    ensures hash == Checksum(bytes)
  {
    hide Xor, Scramble;
    hash := SEED;
    WordSize();
    for i := 0 to |bytes|
      invariant hash == Checksum(bytes[..i])
    {
      assert bytes[..i + 1][..i] == bytes[..i];
      XorRange(hash, bytes[i]);
      hash := Xor(hash, bytes[i], 64);
      hash := Scramble(hash);
    }
    assert bytes[..|bytes|] == bytes;
  }

  lemma {:induction false} XorRange(x: nat, y: nat)
    ensures Xor(x, y, 64) < TWO64
  {
    WordSize();
  }

  lemma {:induction false} XorDigits(x: nat, y: nat, k: nat)
    requires k > 0
    ensures Xor(x, y, k) / 2 == Xor(x / 2, y / 2, k - 1)
    ensures Xor(x, y, k) % 2 == 0 <==> x % 2 == y % 2
  {}

  lemma {:induction false} XorCommutes(x: nat, y: nat, k: nat)
    ensures Xor(x, y, k) == Xor(y, x, k)
  {
    if k > 0 { XorCommutes(x / 2, y / 2, k - 1); }
  }

  lemma {:induction false} XorInjective(x: nat, y: nat, z: nat, k: nat)
    requires x < Pow2(k) && y < Pow2(k) && Xor(x, z, k) == Xor(y, z, k)
    ensures x == y
  {
    hide Xor;
    if k > 0 {
      XorDigits(x, z, k);
      XorDigits(y, z, k);
      XorInjective(x / 2, y / 2, z / 2, k - 1);
    }
  }

  /** The multiplier is odd: it has an inverse modulo 2^64, so scrambling loses nothing. */
  lemma {:induction false} ScrambleInjective(y: u64, z: u64)
    requires Scramble(y) == Scramble(z)
    ensures y == z
  {
    var d := y * MULTIPLIER / TWO64 - z * MULTIPLIER / TWO64;
    assert (y - z) * MULTIPLIER == d * TWO64;
    assert MULTIPLIER * 14886173955864302971 == 1 + INVERSE_CARRY * TWO64;
    assert (y - z) == TWO64 * (d * 14886173955864302971 - INVERSE_CARRY * (y - z));
  }

  const INVERSE_CARRY := 887285111055

  /** A step is injective in the state and in the byte. */
  lemma {:induction false} MixInjective(g: u64, h: u64, x: Byte, y: Byte)
    ensures Mix(g, x) == Mix(h, x) ==> g == h
    ensures Mix(g, x) == Mix(g, y) ==> x == y
  {
    hide Xor, Scramble;
    WordSize();
    XorRange(g, x);
    XorRange(h, x);
    XorRange(g, y);
    if Mix(g, x) == Mix(h, x) {
      ScrambleInjective(Xor(g, x, 64), Xor(h, x, 64));
      XorInjective(g, h, x, 64);
    }
    if Mix(g, x) == Mix(g, y) {
      ScrambleInjective(Xor(g, x, 64), Xor(g, y, 64));
      XorCommutes(g, x, 64);
      XorCommutes(g, y, 64);
      XorInjective(x, y, g, 64);
    }
  }

  /** Any one changed byte changes the checksum. */
  lemma {:induction false} ChecksumDetects(bytes: seq<Byte>, k: nat, x: Byte)
    requires k < |bytes| && x != bytes[k]
    ensures Checksum(bytes[k := x]) != Checksum(bytes)
  {
    hide Mix;
    var n := |bytes| - 1;
    if k == n {
      assert bytes[k := x][..n] == bytes[..n];
      MixInjective(Checksum(bytes[..n]), Checksum(bytes[..n]), bytes[n], x);
    } else {
      assert bytes[k := x][..n] == bytes[..n][k := x];
      ChecksumDetects(bytes[..n], k, x);
      MixInjective(Checksum(bytes[..n]), Checksum(bytes[..n][k := x]), bytes[n], bytes[n]);
    }
  }

  // ---- records -------------------------------------------------------------------------------

  const HEADER_SIZE: nat := 16

  /** How commands, checksums and the 16-byte file header lie in the file. */
  datatype Format = Format(size: nat, encode: Command -> seq<Byte>, decode: seq<Byte> -> Command,
                           encodeWord: u64 -> seq<Byte>, decodeWord: seq<Byte> -> u64, header: seq<Byte>)

  ghost predicate Faithful(f: Format) {
    && |f.header| == HEADER_SIZE
    && (forall m :: |f.encode(m)| == f.size && f.decode(f.encode(m)) == m)
    && (forall w :: |f.encodeWord(w)| == 8 && f.decodeWord(f.encodeWord(w)) == w)
    && (forall bytes | |bytes| == 8 :: f.encodeWord(f.decodeWord(bytes)) == bytes)
  }

  function RecordSize(f: Format): nat {
    f.size + 8
  }

  /** The bytes of k records. */
  function Extent(k: nat, size: nat): nat {
    k * size
  }

  function Record(f: Format, m: Command): seq<Byte> {
    f.encode(m) + f.encodeWord(Checksum(f.encode(m)))
  }

  function Log(f: Format, ms: seq<Command>): seq<Byte> {
    if ms == [] then [] else Record(f, ms[0]) + Log(f, ms[1..])
  }

  /** A journal holding ms. */
  function File(f: Format, ms: seq<Command>): seq<Byte> {
    f.header + Log(f, ms)
  }

  // ---- writing -------------------------------------------------------------------------------

  class JournalWriter {
    const format: Format
    var file: seq<Byte>

    /** Open for appending a file that is new or compatible. */
    constructor (format: Format, existing: seq<Byte>)
      ensures this.format == format && file == if existing == [] then format.header else existing
    {
      this.format := format;
      file := if existing == [] then format.header else existing;
    }

    method Append(m: Command)
      modifies this
      ensures file == old(file) + Record(format, m)
    {
      var bytes := format.encode(m);
      var checksum := ChecksumBytes(bytes);
      file := file + (bytes + format.encodeWord(checksum));
    }
  }

  /** A new file gets a header, a compatible one is continued, any other is refused. */
  method OpenJournal(f: Format, existing: seq<Byte>) returns (r: Option<JournalWriter>)
    ensures r.Some? <==> existing == [] || f.header <= existing
    ensures r.Some? ==> && fresh(r.value) && r.value.format == f
                        && r.value.file == if existing == [] then f.header else existing
  {
    if existing != [] && !(f.header <= existing) {
      return None;
    }
    var w := new JournalWriter(f, existing);
    return Some(w);
  }

  /** A session of the writer adds the commands' log to whatever the file held. */
  method AppendAll(w: JournalWriter, ms: seq<Command>)
    modifies w
    ensures w.file == old(w.file) + Log(w.format, ms)
  {
    hide Log, Record;
    LogNothing(w.format);
    ghost var before := w.file;
    for i := 0 to |ms|
      invariant w.file == before + Log(w.format, ms[..i])
    {
      LogAppend(w.format, ms[..i], ms[i]);
      assert ms[..i + 1] == ms[..i] + [ms[i]];
      w.Append(ms[i]);
    }
    assert ms[..|ms|] == ms;
  }

  lemma {:induction false} LogNothing(f: Format)
    ensures Log(f, []) == []
  {}

  /** So a journal of commands stays one. */
  lemma {:induction false} FileGrows(f: Format, before: seq<Command>, ms: seq<Command>)
    ensures File(f, before) + Log(f, ms) == File(f, before + ms)
  {
    LogConcat(f, before, ms);
  }

  lemma {:induction false} LogAppend(f: Format, ms: seq<Command>, m: Command)
    ensures Log(f, ms + [m]) == Log(f, ms) + Record(f, m)
  {
    LogConcat(f, ms, [m]);
    assert Log(f, [m]) == Record(f, m) by { assert [m][1..] == []; }
  }

  lemma {:induction false} LogConcat(f: Format, xs: seq<Command>, ys: seq<Command>)
    ensures Log(f, xs + ys) == Log(f, xs) + Log(f, ys)
  {
    hide Record;
    if xs == [] {
      assert xs + ys == ys;
    } else {
      assert (xs + ys)[1..] == xs[1..] + ys;
      LogConcat(f, xs[1..], ys);
    }
  }

  // ---- replay --------------------------------------------------------------------------------

  datatype Scanned = Scanned(commands: seq<Command>, clean: bool)
  datatype ReplayResult = ReplayResult(commands: seq<Command>, validBytes: nat, clean: bool)

  /** A whole record stands at the front of the bytes, and its checksum is right. */
  predicate Sealed(f: Format, bytes: seq<Byte>) {
    |bytes| >= RecordSize(f) && f.decodeWord(bytes[f.size..f.size + 8]) == Checksum(bytes[..f.size])
  }

  /** What replay delivers from the bytes after the header. */
  function Scan(f: Format, bytes: seq<Byte>): Scanned {
    if bytes == [] then Scanned([], true)
    else if !Sealed(f, bytes) then Scanned([], false)
    else
      var rest := Scan(f, bytes[RecordSize(f)..]);
      Scanned([f.decode(bytes[..f.size])] + rest.commands, rest.clean)
  }

  function Replay(f: Format, bytes: seq<Byte>): Option<ReplayResult> {
    if !(f.header <= bytes) then None
    else
      var x := Scan(f, bytes[|f.header|..]);
      Some(ReplayResult(x.commands, |f.header| + Extent(|x.commands|, RecordSize(f)), x.clean))
  }

  /** replay_journal; the consumer's calls are the commands returned. */
  method ReplayJournal(f: Format, bytes: seq<Byte>) returns (r: Option<ReplayResult>)
    ensures r == Replay(f, bytes)
  {
    hide Checksum, Extent, Scan;
    if !(f.header <= bytes) {
      return None;
    }
    var at, commands, valid := |f.header|, [], |f.header|;
    ExtentNext(0, RecordSize(f));
    ghost var whole := Scan(f, bytes[|f.header|..]);
    while at < |bytes|
      invariant |f.header| <= at <= |bytes| && valid == at == |f.header| + Extent(|commands|, RecordSize(f))
      invariant whole == Onto(commands, Scan(f, bytes[at..]))
    {
      var record := bytes[at..];
      ScanOne(f, record);
      if |record| < RecordSize(f) {
        return Some(ReplayResult(commands, valid, false));
      }
      var checksum := ChecksumBytes(record[..f.size]);
      if f.decodeWord(record[f.size..f.size + 8]) != checksum {
        return Some(ReplayResult(commands, valid, false));
      }
      ExtentNext(|commands|, RecordSize(f));
      assert record[RecordSize(f)..] == bytes[at + RecordSize(f)..];
      commands := commands + [f.decode(record[..f.size])];
      at, valid := at + RecordSize(f), valid + RecordSize(f);
    }
    ScanOne(f, bytes[at..]);
    return Some(ReplayResult(commands, valid, true));
  }

  function Onto(ms: seq<Command>, x: Scanned): (y: Scanned)
    ensures x.commands == [] ==> y == Scanned(ms, x.clean)
  {
    Scanned(ms + x.commands, x.clean)
  }

  /** One turn of the replay loop. */
  lemma {:induction false} ScanOne(f: Format, bytes: seq<Byte>)
    ensures bytes == [] ==> Scan(f, bytes) == Scanned([], true)
    ensures bytes != [] && !Sealed(f, bytes) ==> Scan(f, bytes) == Scanned([], false)
    ensures Sealed(f, bytes) ==>
              Scan(f, bytes) == Onto([f.decode(bytes[..f.size])], Scan(f, bytes[RecordSize(f)..]))
  {
    hide Checksum;
  }

  // ---- what replay delivers ------------------------------------------------------------------

  /** Whole records in n bytes, and the bytes left over. */
  function Wholes(n: nat, size: nat): nat
    requires size > 0
  {
    if n < size then 0 else Wholes(n - size, size) + 1
  }

  function Torn(n: nat, size: nat): nat
    requires size > 0
  {
    if n < size then n else Torn(n - size, size)
  }

  lemma {:induction false} WholesIsQuotient(n: nat, size: nat)
    requires size > 0
    ensures Wholes(n, size) == n / size && Torn(n, size) == n % size
    ensures n == Extent(Wholes(n, size), size) + Torn(n, size) && Torn(n, size) < size
  {
    if n >= size {
      WholesIsQuotient(n - size, size);
      Divide(n, size, (n - size) / size);
    }
  }

  lemma {:induction false} Divide(n: nat, size: nat, q: nat)
    requires 0 < size <= n && q == (n - size) / size
    ensures n / size == q + 1 && n % size == (n - size) % size && n == (q + 1) * size + n % size
  {
    var r := (n - size) % size;
    assert n - size == q * size + r;
    DivideUnique(n, size, q + 1, r);
  }

  lemma {:induction false} DivideUnique(n: int, size: nat, q: int, r: nat)
    requires r < size && n == q * size + r
    ensures n / size == q && n % size == r
  {
    var p := n / size;
    assert n == p * size + n % size;
    assert (q - p) * size == n % size - r;
    if q > p { MulMono(1, q - p, size); }
    if q < p { MulMono(q - p, -1, size); }
  }

  lemma {:induction false} ExtentNext(k: nat, size: nat)
    ensures Extent(k + 1, size) == Extent(k, size) + size && Extent(0, size) == 0
  {}

  lemma {:induction false} LogLength(f: Format, ms: seq<Command>)
    requires Faithful(f)
    ensures |Log(f, ms)| == Extent(|ms|, RecordSize(f))
  {
    hide Extent;
    ExtentNext(if ms == [] then 0 else |ms| - 1, RecordSize(f));
    if ms != [] { LogLength(f, ms[1..]); }
  }

  /** A record written is a record read, whatever follows it. */
  lemma {:induction false} ScanRecord(f: Format, m: Command, tail: seq<Byte>)
    requires Faithful(f)
    ensures var rest := Scan(f, tail);
            Scan(f, Record(f, m) + tail) == Scanned([m] + rest.commands, rest.clean)
  {
    hide Checksum;
    var bytes := Record(f, m) + tail;
    assert bytes[..f.size] == f.encode(m) && bytes[f.size..f.size + 8] == f.encodeWord(Checksum(f.encode(m)));
    assert bytes[RecordSize(f)..] == tail;
  }

  /** Cut the log anywhere: exactly the whole records before the cut. */
  lemma {:induction false} ScanCut(f: Format, ms: seq<Command>, n: nat)
    requires Faithful(f) && n <= |Log(f, ms)|
    ensures Wholes(n, RecordSize(f)) <= |ms|
    ensures Scan(f, Log(f, ms)[..n]) == Scanned(ms[..Wholes(n, RecordSize(f))], Torn(n, RecordSize(f)) == 0)
  {
    hide Checksum, Scan;
    var size := RecordSize(f);
    if n < size {
      ScanTorn(f, Log(f, ms)[..n]);
    } else {
      var tail := Log(f, ms[1..]);
      ScanCut(f, ms[1..], n - size);
      assert Log(f, ms)[..n] == Record(f, ms[0]) + tail[..n - size];
      ScanRecord(f, ms[0], tail[..n - size]);
      var k := Wholes(n - size, size);
      assert [ms[0]] + ms[1..][..k] == ms[..k + 1];
    }
  }

  lemma {:induction false} ScanTorn(f: Format, bytes: seq<Byte>)
    requires |bytes| < RecordSize(f)
    ensures Scan(f, bytes) == Scanned([], bytes == [])
  {}

  /**
   A journal cut at any byte past the header replays exactly its whole records, reports their
   exact extent, and ends clean exactly at a record boundary.
   */
  lemma {:induction false} CutAnywhere(f: Format, ms: seq<Command>, n: nat)
    requires Faithful(f) && n <= |File(f, ms)|
    ensures n < HEADER_SIZE ==> Replay(f, File(f, ms)[..n]) == None
    ensures n >= HEADER_SIZE ==>
              var k := Wholes(n - HEADER_SIZE, RecordSize(f));
              && k <= |ms|
              && Replay(f, File(f, ms)[..n])
                 == Some(ReplayResult(ms[..k], HEADER_SIZE + Extent(k, RecordSize(f)),
                   Torn(n - HEADER_SIZE, RecordSize(f)) == 0))
  {
    hide Scan, Log;
    var cut := File(f, ms)[..n];
    if n >= HEADER_SIZE {
      assert cut[HEADER_SIZE..] == Log(f, ms)[..n - HEADER_SIZE] && f.header <= cut;
      ScanCut(f, ms, n - HEADER_SIZE);
      WholesIsQuotient(n - HEADER_SIZE, RecordSize(f));
    }
  }

  /** Truncating to valid_bytes and appending continues the journal as if the tear had not been. */
  lemma {:induction false} TruncateThenAppend(f: Format, ms: seq<Command>, n: nat, more: seq<Command>)
    requires Faithful(f) && HEADER_SIZE <= n <= |File(f, ms)|
    ensures var r := Replay(f, File(f, ms)[..n]);
            && r.Some? && r.value.validBytes <= n && r.value.commands <= ms
            && File(f, ms)[..r.value.validBytes] + Log(f, more) == File(f, r.value.commands + more)
            && Replay(f, File(f, r.value.commands + more))
               == Some(ReplayResult(r.value.commands + more, |File(f, r.value.commands + more)|, true))
  {
    hide Scan, Log, Replay;
    CutAnywhere(f, ms, n);
    var k := Wholes(n - HEADER_SIZE, RecordSize(f));
    WholeRecords(f, ms, k);
    assert File(f, ms)[..HEADER_SIZE + Extent(k, RecordSize(f))] == File(f, ms[..k]);
    LogConcat(f, ms[..k], more);
    assert File(f, ms[..k]) + Log(f, more) == File(f, ms[..k] + more);
    WholeReplay(f, ms[..k] + more);
    WholesIsQuotient(n - HEADER_SIZE, RecordSize(f));
  }

  lemma {:induction false} ScanLog(f: Format, ms: seq<Command>, tail: seq<Byte>)
    requires Faithful(f)
    ensures Scan(f, Log(f, ms) + tail) == Onto(ms, Scan(f, tail))
  {
    hide Scan, Record;
    if ms == [] {
      assert Log(f, ms) + tail == tail;
    } else {
      ScanLog(f, ms[1..], tail);
      assert Log(f, ms) + tail == Record(f, ms[0]) + (Log(f, ms[1..]) + tail);
      ScanRecord(f, ms[0], Log(f, ms[1..]) + tail);
      assert [ms[0]] + (ms[1..] + Scan(f, tail).commands) == ms + Scan(f, tail).commands;
    }
  }

  /** The bytes of the torn record a cut at n leaves behind. */
  function TornTail(f: Format, ms: seq<Command>, n: nat): seq<Byte>
    requires HEADER_SIZE <= n <= |File(f, ms)|
    requires HEADER_SIZE + Extent(Wholes(n - HEADER_SIZE, RecordSize(f)), RecordSize(f)) <= n
  {
    File(f, ms)[HEADER_SIZE + Extent(Wholes(n - HEADER_SIZE, RecordSize(f)), RecordSize(f))..n]
  }

  /**
   Reopening without truncating: the writer appends after the torn record, and replay meets the
   torn bytes and the new records as one misaligned stretch. Nothing after the survivors is
   delivered exactly when that stretch does not happen to start with a sealed record, and the end
   is unclean either way; without a tear the new commands follow the old, clean.
   */
  lemma {:induction false} TornTailContinued(f: Format, ms: seq<Command>, n: nat, more: seq<Command>)
    requires Faithful(f) && HEADER_SIZE <= n <= |File(f, ms)|
    ensures var k := Wholes(n - HEADER_SIZE, RecordSize(f));
            && k <= |ms| && HEADER_SIZE + Extent(k, RecordSize(f)) <= n
            && var torn := TornTail(f, ms, n);
               var r := Replay(f, File(f, ms)[..n] + Log(f, more));
               && r.Some?
               && (r.value.clean <==> torn == [])
               && (torn == [] ==> r.value.commands == ms[..k] + more)
               && (torn != [] ==> (r.value.commands == ms[..k] <==> !Sealed(f, torn + Log(f, more))))
  {
    hide Scan, Log, Extent, Sealed;
    var k := Wholes(n - HEADER_SIZE, RecordSize(f));
    CutAnywhere(f, ms, n);
    WholesIsQuotient(n - HEADER_SIZE, RecordSize(f));
    WholeRecords(f, ms, k);
    var torn, log := TornTail(f, ms, n), Log(f, more);
    var bytes := File(f, ms)[..n] + log;
    assert bytes[HEADER_SIZE..] == Log(f, ms[..k]) + (torn + log) && f.header <= bytes;
    ScanLog(f, ms[..k], torn + log);
    ScanOne(f, torn + log);
    if torn == [] {
      assert torn + log == log + [];
      ScanLog(f, more, []);
      ScanOne(f, []);
    } else {
      LogLength(f, more);
      TornAdds(|torn|, |more|, RecordSize(f));
      CleanIsWhole(f, torn + log);
    }
  }

  /** Only whole records end clean. */
  lemma {:induction false} CleanIsWhole(f: Format, bytes: seq<Byte>)
    ensures Scan(f, bytes).clean ==> Torn(|bytes|, RecordSize(f)) == 0
  {
    hide Checksum;
    if Sealed(f, bytes) { CleanIsWhole(f, bytes[RecordSize(f)..]); }
  }

  lemma {:induction false} TornAdds(n: nat, k: nat, size: nat)
    requires size > 0
    ensures Torn(n + Extent(k, size), size) == Torn(n, size)
  {
    hide Extent;
    ExtentNext(if k == 0 then 0 else k - 1, size);
    if k > 0 { TornAdds(n, k - 1, size); }
  }

  /** One byte short, and the next record does not begin with the lost byte: all that is appended is lost. */
  lemma {:induction false} AppendLost(f: Format, ms: seq<Command>, m: Command, next: Command, more: seq<Command>)
    requires Faithful(f) && Record(f, next)[0] != Record(f, m)[RecordSize(f) - 1]
    ensures |File(f, ms + [m])| > HEADER_SIZE
    ensures var file := File(f, ms + [m]);
            Replay(f, file[..|file| - 1] + Log(f, [next] + more))
            == Some(ReplayResult(ms, HEADER_SIZE + Extent(|ms|, RecordSize(f)), false))
  {
    hide Scan, Extent, Sealed, Checksum, Record;
    RecordLength(f, [m, next]);
    assert [m, next][0] == m && [m, next][1] == next;
    LogAppend(f, ms, m);
    var size, short := RecordSize(f), Record(f, m)[..RecordSize(f) - 1];
    var log := Log(f, [next] + more);
    assert ([next] + more)[1..] == more;
    assert log[0] == Record(f, next)[0] && short + log == (Record(f, m) + log[1..])[size - 1 := log[0]];
    SealBreaks(f, m, log[1..], size - 1, log[0]);
    var file := File(f, ms + [m]);
    var bytes := file[..|file| - 1] + log;
    assert bytes[HEADER_SIZE..] == Log(f, ms) + (short + log) && f.header <= bytes;
    ScanLog(f, ms, short + log);
    ScanOne(f, short + log);
  }

  lemma {:induction false} WholeRecords(f: Format, ms: seq<Command>, k: nat)
    requires Faithful(f) && k <= |ms|
    ensures Extent(k, RecordSize(f)) <= |Log(f, ms)| && Log(f, ms)[..Extent(k, RecordSize(f))] == Log(f, ms[..k])
  {
    hide Extent, Log;
    LogConcat(f, ms[..k], ms[k..]);
    assert ms[..k] + ms[k..] == ms;
    LogLength(f, ms[..k]);
  }

  lemma {:induction false} WholeReplay(f: Format, ms: seq<Command>)
    requires Faithful(f)
    ensures Replay(f, File(f, ms)) == Some(ReplayResult(ms, |File(f, ms)|, true))
  {
    hide Scan, Log, Replay;
    var n, size := |File(f, ms)|, RecordSize(f);
    CutAnywhere(f, ms, n);
    LogLength(f, ms);
    WholesIsQuotient(|ms| * size, size);
    DivMulExact(|ms|, size);
    assert Extent(|ms|, size) == |ms| * size;
    assert File(f, ms)[..n] == File(f, ms) && ms[..|ms|] == ms;
  }

  // ---- corruption ----------------------------------------------------------------------------

  /** One changed byte breaks the seal of the record it falls in. */
  lemma {:induction false} SealBreaks(f: Format, m: Command, tail: seq<Byte>, at: nat, x: Byte)
    requires Faithful(f) && at < RecordSize(f) && x != (Record(f, m) + tail)[at]
    ensures !Sealed(f, (Record(f, m) + tail)[at := x])
  {
    hide Checksum;
    var bytes, code := (Record(f, m) + tail)[at := x], f.encode(m);
    var word := f.encodeWord(Checksum(code));
    if at < f.size {
      assert bytes[..f.size] == code[at := x] && bytes[f.size..f.size + 8] == word;
      ChecksumDetects(code, at, x);
    } else {
      assert bytes[..f.size] == code && bytes[f.size..f.size + 8] == word[at - f.size := x];
      assert word[at - f.size := x][at - f.size] != word[at - f.size];
      assert f.encodeWord(f.decodeWord(word[at - f.size := x])) == word[at - f.size := x];
    }
  }

  lemma {:induction false} RecordLength(f: Format, ms: seq<Command>)
    requires Faithful(f)
    ensures forall k | 0 <= k < |ms| :: |Record(f, ms[k])| == RecordSize(f)
  {}

  lemma {:induction false} ScanCorrupt(f: Format, ms: seq<Command>, at: nat, x: Byte)
    requires Faithful(f) && at < |Log(f, ms)| && x != Log(f, ms)[at]
    ensures Wholes(at, RecordSize(f)) < |ms|
    ensures Scan(f, Log(f, ms)[at := x]) == Scanned(ms[..Wholes(at, RecordSize(f))], false)
  {
    hide Checksum, Sealed, Scan, Record;
    RecordLength(f, ms);
    var size, tail := RecordSize(f), Log(f, ms[1..]);
    if at < size {
      SealBreaks(f, ms[0], tail, at, x);
      ScanOne(f, Log(f, ms)[at := x]);
    } else {
      ScanCorrupt(f, ms[1..], at - size, x);
      assert Log(f, ms)[at := x] == Record(f, ms[0]) + tail[at - size := x];
      ScanRecord(f, ms[0], tail[at - size := x]);
      var k := Wholes(at - size, size);
      assert [ms[0]] + ms[1..][..k] == ms[..k + 1];
    }
  }

  /** Any one byte of record i changed: replay delivers exactly the i records before it, unclean. */
  lemma {:induction false} CorruptionStopsReplay(f: Format, ms: seq<Command>, at: nat, x: Byte)
    requires Faithful(f) && HEADER_SIZE <= at < |File(f, ms)| && x != File(f, ms)[at]
    ensures var i := Wholes(at - HEADER_SIZE, RecordSize(f));
            && i < |ms|
            && Replay(f, File(f, ms)[at := x])
               == Some(ReplayResult(ms[..i], HEADER_SIZE + Extent(i, RecordSize(f)), false))
  {
    hide Scan, Log;
    var bytes := File(f, ms)[at := x];
    assert f.header <= bytes && bytes[HEADER_SIZE..] == Log(f, ms)[at - HEADER_SIZE := x];
    ScanCorrupt(f, ms, at - HEADER_SIZE, x);
    WholesIsQuotient(at - HEADER_SIZE, RecordSize(f));
  }

  // ---- recovery after a crash ----------------------------------------------------------------

  /**
   Crash at any byte of the journal of a runner started on any sound, dated book, with a snapshot of
   any later moment: replaying what survives onto the restored snapshot gives the book as of the
   last whole record, and so does replaying it onto the book the runner started from.
   */
  lemma {:induction false} CrashRecovery(f: Format, c: Config, b: Book, ms: seq<Command>, n: nat, k: nat)
    requires Faithful(f) && Sound(c, b) && ValidConfig(c) && Sized(c, b) && Dated(b) && Consecutive(ms, b.last)
    requires HEADER_SIZE <= n <= |File(f, ms)| && k <= Wholes(n - HEADER_SIZE, RecordSize(f))
    ensures Wholes(n - HEADER_SIZE, RecordSize(f)) <= |ms|
    ensures var survived := ms[..Wholes(n - HEADER_SIZE, RecordSize(f))];
            var snapshot := Run(c, b, ms[..k]).book;
            && Replay(f, File(f, ms)[..n]).Some?
            && Replay(f, File(f, ms)[..n]).value.commands == survived
            && Restore(c, snapshot.last, RestingList(c, snapshot)) == Restored(snapshot, true)
            && Run(c, snapshot, survived).book == Run(c, b, survived).book
  {
    hide Replay, File, Log, Run, Restore, RestingList, Sound, Dated;
    CutAnywhere(f, ms, n);
    var survived := ms[..Wholes(n - HEADER_SIZE, RecordSize(f))];
    assert survived[..k] == ms[..k];
    RecoveryTheorem(c, b, survived, k);
  }
}
