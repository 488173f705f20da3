/**
 * The firmware download (src/akb_pcr20x.c:88-203): a length-prefixed record parser whose effect is
 * a sequence of control writes into the memory of the FX2.
 */
module ImageLoader {
  import opened Bytes
  import opened Errno
  import opened Issuing

  const HEADER: nat := 8
  const MIN_IMAGE: nat := 13
  const FX2_REG_CPU_RESET: word := 0xe600

  /** One vendor request FX2_REQ_FIRMWARE_DOWNLOAD. */
  datatype Write = Write(addr: word, data: seq<byte>)

  const CPU_STOP: Write := Write(FX2_REG_CPU_RESET, [1])
  const CPU_RUN: Write := Write(FX2_REG_CPU_RESET, [0])

  // ---------- the file format ----------

  datatype Record = Record(write: Write, last: bool)

  /** How the records of a file end. */
  datatype End =
    | Ended       // fewer than four bytes are left
    | Terminal    // after a record with the top bit of its length set
    | Truncated   // inside a record

  datatype Parsed = Parsed(records: seq<Record>, end: End)

  /** The record at the front of `b`, if there is one. */
  datatype Front = Nothing | Cut | Found(record: Record, size: nat)

  function ParseOne(b: seq<byte>): (front: Front)
    ensures front.Found? ==> 4 <= front.size <= |b|
    ensures front.Nothing? <==> |b| < 4
  {
    if |b| < 4 then Nothing
    else
      var len := MakeWord(b[0], b[1]);
      var size := len % 0x8000;
      if |b| < 4 + size then Cut
      else Found(Record(Write(MakeWord(b[2], b[3]), b[4..4 + size]), len >= 0x8000), 4 + size)
  }

  function Parse(b: seq<byte>): Parsed
    decreases |b|
  {
    match ParseOne(b)
    case Nothing => Parsed([], Ended)
    case Cut => Parsed([], Truncated)
    case Found(record, size) =>
      if record.last then Parsed([record], Terminal)
      else
        var rest := Parse(b[size..]);
        Parsed([record] + rest.records, rest.end)
  }

  predicate Storable(r: Record) {
    |r.write.data| < 0x8000
  }

  function Store(r: Record): seq<byte>
    requires Storable(r)
  {
    var len: word := |r.write.data| + (if r.last then 0x8000 else 0);
    [Msb(len), Lsb(len), Msb(r.write.addr), Lsb(r.write.addr)] + r.write.data
  }

  function StoreAll(records: seq<Record>): seq<byte>
    requires forall r :: r in records ==> Storable(r)
  {
    if records == [] then [] else Store(records[0]) + StoreAll(records[1..])
  }

  /** Only the last record may be flagged. */
  predicate FlaggedAtMostLast(records: seq<Record>) {
    forall i :: 0 <= i < |records| - 1 ==> !records[i].last
  }

  predicate EndsFlagged(records: seq<Record>) {
    records != [] && records[|records| - 1].last
  }

  /** A stored image; what follows the records is ignored. */
  predicate Complete(records: seq<Record>, tail: seq<byte>) {
    && (forall r :: r in records ==> Storable(r))
    && FlaggedAtMostLast(records) && (EndsFlagged(records) || |tail| < 4)
  }

  /** The head of a record: fifteen bits of length behind the flag, then the address, high bytes first. */
  lemma RecordHead(b: seq<byte>)
    ensures |b| < 4 <==> ParseOne(b).Nothing?
    ensures |b| >= 4 ==>
      var size := (256 * (b[0] as int) + b[1] as int) % 32768;
      match ParseOne(b)
      case Nothing => false
      case Cut => |b| < 4 + size
      case Found(r, n) =>
        && n == 4 + size <= |b| && r.last == (b[0] >= 128)
        && r.write.addr == 256 * (b[2] as int) + b[3] as int && r.write.data == b[4..4 + size]
  {
  }

  /**
   * Parsing undoes storing, whatever follows a flagged record, and whatever shorter than a record
   * header follows the others.
   */
  lemma {:induction false} StoredIsParsed(records: seq<Record>, tail: seq<byte>)
    requires forall r :: r in records ==> Storable(r)
    requires FlaggedAtMostLast(records)
    requires EndsFlagged(records) || |tail| < 4
    ensures Parse(StoreAll(records) + tail) == Parsed(records, if EndsFlagged(records) then Terminal else Ended)
  {
    if records == [] {
      assert StoreAll(records) + tail == tail;
    } else {
      var r := records[0];
      var more := StoreAll(records[1..]) + tail;
      ParseFront(r, more);
      assert StoreAll(records) + tail == Store(r) + more;
      assert (Store(r) + more)[|Store(r)|..] == more;
      hide ParseOne, Store;
      if r.last {
        assert records == [r];
      } else {
        StoredIsParsed(records[1..], tail);
        assert [r] + records[1..] == records;
      }
    }
  }

  lemma ParseFront(r: Record, more: seq<byte>)
    requires Storable(r)
    ensures ParseOne(Store(r) + more) == Found(r, |Store(r)|)
  {
    hide Msb, Lsb, MakeWord;
    var b := Store(r) + more;
    var len: word := |r.write.data| + (if r.last then 0x8000 else 0);
    WordSplits(len);
    WordSplits(r.write.addr);
    LengthWord(|r.write.data|, r.last);
    assert b[..4] == [Msb(len), Lsb(len), Msb(r.write.addr), Lsb(r.write.addr)];
    assert b[0] == b[..4][0] && b[1] == b[..4][1] && b[2] == b[..4][2] && b[3] == b[..4][3];
    assert b[4..4 + |r.write.data|] == r.write.data;
  }

  lemma LengthWord(size: nat, last: bool)
    requires size < 0x8000
    ensures (size + (if last then 0x8000 else 0)) % 0x8000 == size
  {
  }

  /**
   * Storing undoes parsing: the records account for the file from its first byte on.  All of it,
   * up to a rest too short for a record, unless the file is truncated or goes on behind a flagged
   * record.
   */
  lemma {:induction false} ParsedIsStored(b: seq<byte>)
    ensures var p := Parse(b);
      && (forall r :: r in p.records ==> Storable(r))
      && FlaggedAtMostLast(p.records)
      && (p.end == Terminal <==> EndsFlagged(p.records))
      && StoreAll(p.records) <= b
      && (p.end == Ended ==> |b| < |StoreAll(p.records)| + 4)
      && (p.end == Truncated ==> |b| >= |StoreAll(p.records)| + 4)
    decreases |b|
  {
    if ParseOne(b).Found? {
      FrontIsStored(b);
      var r, size := ParseOne(b).record, ParseOne(b).size;
      assert b == b[..size] + b[size..];
      hide ParseOne, Store;
      if r.last {
        assert StoreAll([r]) == Store(r) + [];
      } else {
        var rest := Parse(b[size..]);
        ParsedIsStored(b[size..]);
        assert Parse(b).records[1..] == rest.records;
        assert StoreAll(Parse(b).records) == Store(r) + StoreAll(rest.records);
      }
    }
  }

  lemma FrontIsStored(b: seq<byte>)
    requires ParseOne(b).Found?
    ensures Storable(ParseOne(b).record) && Store(ParseOne(b).record) == b[..ParseOne(b).size]
  {
    hide Msb, Lsb, MakeWord;
    var r, size := ParseOne(b).record, ParseOne(b).size;
    var len := MakeWord(b[0], b[1]);
    BytesOfWord(b[0], b[1]);
    BytesOfWord(b[2], b[3]);
    assert len == |r.write.data| + (if r.last then 0x8000 else 0);
    assert Store(r) == [b[0], b[1], b[2], b[3]] + b[4..size];
  }

  // ---------- the download ----------

  function Writes(records: seq<Record>): seq<Write> {
    seq(|records|, i requires 0 <= i < |records| => records[i].write)
  }

  predicate StartsCpu(p: Parsed) {
    p.end == Terminal && p.records != [] && p.records[|p.records| - 1].write == CPU_RUN
  }

  function PlannedFor(p: Parsed): seq<Write> {
    [CPU_STOP] + Writes(p.records) + (if p.end == Truncated || StartsCpu(p) then [] else [CPU_RUN])
  }

  /** The control writes a download makes as long as USB works, and its result. */
  function Planned(image: seq<byte>): seq<Write> {
    if |image| < MIN_IMAGE then [] else PlannedFor(Parse(image[HEADER..]))
  }

  function PlannedResult(image: seq<byte>): int {
    if |image| < MIN_IMAGE || Parse(image[HEADER..]).end == Truncated then EINVAL else 0
  }

  /** A successful download stops the CPU first and starts it last, whether or not the file says so. */
  lemma ResetDiscipline(image: seq<byte>)
    requires PlannedResult(image) == 0
    ensures |Planned(image)| >= 2
    ensures Planned(image)[0] == Write(0xe600, [1]) && Planned(image)[|Planned(image)| - 1] == Write(0xe600, [0])
  {
    var p := Parse(image[HEADER..]);
    hide Parse, StoreAll;
    if StartsCpu(p) {
      assert Writes(p.records)[|p.records| - 1] == CPU_RUN;
    }
  }

  /**
   * Too short a file writes nothing; any other begins with the stop, then come the records behind
   * its first eight bytes; the driver starts the CPU unless the file did, or is truncated.
   */
  lemma PlanIs(image: seq<byte>)
    ensures |image| < 13 ==> Planned(image) == [] && PlannedResult(image) == -22
    ensures |image| >= 13 ==>
      var p := Parse(image[8..]);
      var n := |p.records|;
      var plan := Planned(image);
      var started := p.end == Terminal && n > 0 && p.records[n - 1].write == Write(0xe600, [0]);
      && PlannedResult(image) == (if p.end == Truncated then -22 else 0)
      && |plan| == (if p.end == Truncated || started then n + 1 else n + 2)
      && plan[0] == Write(0xe600, [1])
      && (forall k :: 0 <= k < n ==> plan[k + 1] == p.records[k].write)
      && (|plan| == n + 2 ==> plan[n + 1] == Write(0xe600, [0]))
  {
    hide Parse;
  }

  /** Downloading a stored image makes exactly its writes, between stopping and starting the CPU. */
  lemma DownloadRoundTrip(header: seq<byte>, records: seq<Record>, tail: seq<byte>)
    requires |header| == HEADER && Complete(records, tail)
    requires |header + StoreAll(records) + tail| >= MIN_IMAGE
    ensures var image := header + StoreAll(records) + tail;
      && PlannedResult(image) == 0
      && Planned(image) == [CPU_STOP] + Writes(records)
           + (if EndsFlagged(records) && records[|records| - 1].write == CPU_RUN then [] else [CPU_RUN])
  {
    hide Parse, StoreAll, Writes;
    StoredIsParsed(records, tail);
    assert (header + StoreAll(records) + tail)[HEADER..] == StoreAll(records) + tail;
  }

  class Usb {
    const result: nat -> int     // what each control transfer returns: negative is an error
    ghost var log: seq<Write>    // the control writes issued so far
    var count: nat

    constructor (result: nat -> int)
      ensures this.result == result && log == [] && count == 0
    {
      this.result, log, count := result, [], 0;
    }

    /** akb_pcr20x_usb_control_write. */
    method ControlWrite(addr: word, data: seq<byte>) returns (ret: int)
      modifies this
      ensures log == old(log) + [Write(addr, data)] && count == old(count) + 1
      ensures ret == if At(result, old(count)) < 0 then At(result, old(count)) else 0
    {
      ret := if At(result, count) < 0 then At(result, count) else 0;
      log, count := log + [Write(addr, data)], count + 1;
    }

    /** Everything of `plan` was issued up to the first transfer that failed; without one the result is `planned`. */
    twostate predicate Followed(plan: seq<Write>, planned: int, ret: int)
      reads this
    {
      var o := Issue(result, old(count), plan);
      && o.done <= |plan|
      && log == old(log) + plan[..o.done]
      && count == old(count) + o.done
      && ret == if o.code < 0 then o.code else planned
    }

    /** The loop over the records. */
    method DownloadRecords(image: seq<byte>) returns (ret: int, cpuRun: bool)
      requires |image| >= MIN_IMAGE
      modifies this
      ensures var all := Parse(image[HEADER..]);
        && Followed(Writes(all.records), if all.end == Truncated then EINVAL else 0, ret)
        && (ret == 0 ==> cpuRun == StartsCpu(all))
    {
      hide Parse, ParseOne, Writes, MakeWord, Issue, At, Remains, StartsCpu;
      NothingDone(result, count, image);
      ret, cpuRun := 0, false;
      var p := HEADER;
      var remain := |image| - p;
      ghost var done: seq<Record> := [];
      ghost var all := Parse(image[HEADER..]);

      while remain >= 4
        invariant HEADER <= p <= |image| && remain == |image| - p
        invariant Remains(image, done, p) && ret == 0 && !cpuRun
        invariant count == old(count) + |done| && log == old(log) + Writes(done)
        invariant Issue(result, old(count), Writes(done)) == Outcome(|done|, 0) && |Writes(done)| == |done|
        decreases remain
      {
        NextRecord(image, done, p);
        FrontAt(image, p);
        assert Writes(done)[..|done|] == Writes(done);
        var len := MakeWord(image[p], image[p + 1]);
        var value := MakeWord(image[p + 2], image[p + 3]);
        var size := len % 0x8000;
        if remain < 4 + size {
          return EINVAL, false;
        }
        p := p + 4;
        ghost var r := Record(Write(value, image[p..p + size]), len >= 0x8000);
        IssueRecord(result, old(count), done, r, all.records);
        ret := ControlWrite(value, image[p..p + size]);
        done := done + [r];
        if ret < 0 {
          return ret, false;
        }
        if len >= 0x8000 {
          cpuRun := size == 1 && value == FX2_REG_CPU_RESET && image[p] == 0;
          StartsIfLast(done, all);
          assert Writes(done)[..|done|] == Writes(done);
          assert cpuRun <==> r.write.addr == FX2_REG_CPU_RESET && r.write.data == [0];
          return 0, cpuRun;
        }
        p := p + size;
        remain := |image| - p;
      }
      assert Writes(done)[..|done|] == Writes(done);
      NextRecord(image, done, p);
      ParseOneNothing(image[p..]);
      StartsIfLast(done, all);
    }

    /**
     * akb_pcr20x_download_firmware.  For any bytes and any behaviour of USB the parser stays
     * inside the file and ends, and the writes issued are the planned ones up to the first error.
     */
    method Download(image: seq<byte>, gotMemory: bool) returns (ret: int)
      modifies this
      ensures |image| >= 13 && !gotMemory ==> ret == -12 && log == old(log)
      ensures |image| < MIN_IMAGE || gotMemory ==> Followed(Planned(image), PlannedResult(image), ret)
    {
      hide Parse, ParseOne, Writes, StartsCpu, Issue, At, PlannedFor;
      IssueNone<Write>(result, count);
      if |image| < MIN_IMAGE {
        return EINVAL;
      }
      if !gotMemory {
        return ENOMEM;
      }
      ghost var all := Parse(image[HEADER..]);
      IssuePlan(result, count, all);
      PlanBegins(all, 0);
      ret := ControlWrite(FX2_REG_CPU_RESET, [1]);
      if ret < 0 {
        return;
      }
      var cpuRun;
      ret, cpuRun := DownloadRecords(image);
      WholePlan(all);
      ghost var n := count - old(count);
      PlanBegins(all, n - 1);
      if ret == 0 && !cpuRun {
        ret := ControlWrite(FX2_REG_CPU_RESET, [0]);
      }
    }
  }

  // ---------- the loop ----------

  lemma IssueRecord(result: nat -> int, at: nat, done: seq<Record>, r: Record, records: seq<Record>)
    requires done + [r] <= records
    requires Issue(result, at, Writes(done)) == Outcome(|done|, 0)
    ensures Writes(done + [r]) == Writes(done) + [r.write] && |Writes(done + [r])| == |done| + 1
    ensures |done| < |Writes(records)| && Writes(done + [r]) == Writes(records)[..|done| + 1]
    ensures At(result, at + |done|) >= 0 ==> Issue(result, at, Writes(done + [r])) == Outcome(|done| + 1, 0)
    ensures At(result, at + |done|) < 0 ==>
      Issue(result, at, Writes(records)) == Outcome(|done| + 1, At(result, at + |done|))
  {
    hide Issue;
    var front := done + [r];
    assert Writes(front) == Writes(done) + [r.write];
    assert Writes(records) == Writes(front) + Writes(records[|front|..]);
    IssueConcat(result, at, Writes(done), [r.write]);
    IssueOne(result, at + |done|, r.write);
    IssueConcat(result, at, Writes(front), Writes(records[|front|..]));
  }

  /** The plan in its three parts: stop, records, run. */
  lemma IssuePlan(result: nat -> int, at: nat, p: Parsed)
    ensures var records := Issue(result, at + 1, Writes(p.records));
      && records.code <= 0 && records.done <= |p.records| && (records.code == 0 ==> records.done == |p.records|)
      && Issue(result, at, PlannedFor(p)) ==
        if At(result, at) < 0 then Outcome(1, At(result, at))
        else if records.code != 0 || p.end == Truncated || StartsCpu(p) then Outcome(1 + records.done, records.code)
        else Outcome(2 + |p.records|,
             if At(result, at + 1 + |p.records|) < 0 then At(result, at + 1 + |p.records|) else 0)
  {
    hide Issue, StartsCpu;
    var w := Writes(p.records);
    assert |w| == |p.records|;
    assert [CPU_STOP] + w + [] == [CPU_STOP] + w;
    IssueOne(result, at, CPU_STOP);
    IssueOne(result, at + 1 + |w|, CPU_RUN);
    IssueConcat(result, at, [CPU_STOP], w);
    IssueConcat(result, at + 1, w, [CPU_RUN]);
    IssueConcat(result, at, [CPU_STOP] + w, [CPU_RUN]);
  }

  /** The planned writes begin with the stop, the records come next. */
  lemma PlanBegins(p: Parsed, n: nat)
    requires n <= |p.records|
    ensures |PlannedFor(p)| > n && PlannedFor(p)[..1 + n] == [CPU_STOP] + Writes(p.records)[..n]
    ensures PlannedFor(p)[0] == CPU_STOP
  {
    hide StartsCpu;
  }

  lemma WholePlan(p: Parsed)
    ensures |Writes(p.records)| == |p.records|
    ensures var n, plan := |p.records|, PlannedFor(p);
      && |plan| == (if p.end == Truncated || StartsCpu(p) then 1 + n else 2 + n)
      && (|plan| == 2 + n ==> plan[..2 + n] == plan[..1 + n] + [CPU_RUN])
  {
    hide StartsCpu;
  }

  /** The loop has handled `done` and stands at p. */
  ghost predicate Remains(image: seq<byte>, done: seq<Record>, p: nat)
    requires HEADER <= p <= |image|
  {
    var all, rest := Parse(image[HEADER..]), Parse(image[p..]);
    all.records == done + rest.records && all.end == rest.end
  }

  /** What the record at p, or its absence, means for the whole file. */
  lemma NextRecord(image: seq<byte>, done: seq<Record>, p: nat)
    requires HEADER <= p <= |image| && Remains(image, done, p)
    ensures var all := Parse(image[HEADER..]);
      match ParseOne(image[p..])
      case Nothing => all == Parsed(done, Ended)
      case Cut => all == Parsed(done, Truncated)
      case Found(r, size) =>
        && done + [r] <= all.records
        && (if r.last then all == Parsed(done + [r], Terminal) else Remains(image, done + [r], p + size))
  {
    hide ParseOne;
    match ParseOne(image[p..])
    case Nothing =>
    case Cut =>
    case Found(r, size) =>
      assert image[p..][size..] == image[p + size..];
  }

  lemma FrontAt(image: seq<byte>, p: nat)
    requires p + 4 <= |image|
    ensures var len := MakeWord(image[p], image[p + 1]);
      var size := len % 0x8000;
      ParseOne(image[p..]) ==
        if |image| - p < 4 + size then Cut
        else Found(Record(Write(MakeWord(image[p + 2], image[p + 3]),
                   image[p + 4..p + 4 + size]), len >= 0x8000), 4 + size)
  {
    var b := image[p..];
    assert b[0] == image[p] && b[1] == image[p + 1] && b[2] == image[p + 2] && b[3] == image[p + 3];
    var size := MakeWord(image[p], image[p + 1]) % 0x8000;
    if |image| - p >= 4 + size {
      assert b[4..4 + size] == image[p + 4..p + 4 + size];
    }
  }

  lemma NothingDone(result: nat -> int, at: nat, image: seq<byte>)
    requires |image| >= MIN_IMAGE
    ensures Writes([]) == [] && Issue(result, at, Writes([])) == Outcome(0, 0) && Remains(image, [], HEADER)
  {
  }

  lemma StartsIfLast(done: seq<Record>, p: Parsed)
    requires done == p.records
    ensures StartsCpu(p) <==> p.end == Terminal && done != [] && done[|done| - 1].write == CPU_RUN
  {
  }

  lemma ParseOneNothing(b: seq<byte>)
    ensures |b| < 4 ==> ParseOne(b) == Nothing
  {
  }

  // ---------- the memory image ----------

  /** How far address a lies behind the start of a write; addresses have sixteen bits and wrap around. */
  function Offset(w: Write, a: word): nat {
    (a - w.addr) % WORD_LIMIT
  }

  predicate Hits(w: Write, a: word) {
    Offset(w, a) < |w.data|
  }

  /** The byte at address a after some writes into a memory that held `m` before. */
  function Cell(m: word -> byte, writes: seq<Write>, a: word): byte {
    if writes == [] then m(a)
    else
      var last := writes[|writes| - 1];
      if Hits(last, a) then last.data[Offset(last, a)] else Cell(m, writes[..|writes| - 1], a)
  }

  lemma {:induction false} CellConcat(m: word -> byte, first: seq<Write>, second: seq<Write>, a: word)
    ensures Cell(m, first + second, a) == Cell((x: word) => Cell(m, first, x), second, a)
  {
    if second == [] {
      assert first + second == first;
    } else {
      CellConcat(m, first, second[..|second| - 1], a);
      assert (first + second)[..|first + second| - 1] == first + second[..|second| - 1];
    }
  }

  /** The same bytes in one write or in two at consecutive addresses. */
  lemma SplitWrite(m: word -> byte, addr: word, low: seq<byte>, high: seq<byte>, a: word)
    requires |low| + |high| <= WORD_LIMIT
    ensures Cell(m, [Write(addr, low), Write(Wrap16(addr + |low|), high)], a) == Cell(m, [Write(addr, low + high)], a)
  {
  }

  /** What was written before does not matter where later writes agree. */
  lemma {:induction false} SameAbove(m: word -> byte, n: word -> byte, writes: seq<Write>, a: word)
    requires m(a) == n(a)
    ensures Cell(m, writes, a) == Cell(n, writes, a)
  {
    if writes != [] {
      SameAbove(m, n, writes[..|writes| - 1], a);
    }
  }

  /** Splitting a record at consecutive addresses leaves the memory image of a download unchanged. */
  lemma SplittingKeepsImage(m: word -> byte, before: seq<Write>, addr: word, low: seq<byte>, high: seq<byte>,
                            after: seq<Write>, a: word)
    requires |low| + |high| <= WORD_LIMIT
    ensures Cell(m, before + [Write(addr, low), Write(Wrap16(addr + |low|), high)] + after, a)
      == Cell(m, before + [Write(addr, low + high)] + after, a)
  {
    var two := [Write(addr, low), Write(Wrap16(addr + |low|), high)];
    var one := [Write(addr, low + high)];
    hide Cell;
    SplitWrite((x: word) => Cell(m, before, x), addr, low, high, a);
    CellConcat(m, before, two, a);
    CellConcat(m, before, one, a);
    CellConcat(m, before + two, after, a);
    CellConcat(m, before + one, after, a);
    SameAbove((x: word) => Cell(m, before + two, x), (x: word) => Cell(m, before + one, x), after, a);
  }

  /** Starting the CPU twice is starting it once. */
  lemma StartedEitherWay(m: word -> byte, p: Parsed, a: word)
    requires p.end != Truncated
    ensures Cell(m, PlannedFor(p), a) == Cell(m, [CPU_STOP] + Writes(p.records) + [CPU_RUN], a)
  {
    var w := [CPU_STOP] + Writes(p.records);
    if StartsCpu(p) {
      var n := |p.records|;
      assert |w| == n + 1 && w[n] == p.records[n - 1].write == CPU_RUN;
      assert w + [] == w;
      CellConcat(m, w, [CPU_RUN], a);
      CellConcat(m, w[..n], [CPU_RUN], a);
      assert w == w[..n] + [CPU_RUN];
    }
  }

  /** The memory after downloading a complete image is that of its records. */
  lemma DownloadedImage(m: word -> byte, header: seq<byte>, records: seq<Record>, tail: seq<byte>, a: word)
    requires |header| == HEADER && Complete(records, tail)
    requires |header + StoreAll(records) + tail| >= MIN_IMAGE
    ensures Cell(m, Planned(header + StoreAll(records) + tail), a)
         == Cell(m, [CPU_STOP] + Writes(records) + [CPU_RUN], a)
  {
    hide Parse, StoreAll, Writes, Cell, PlannedFor;
    StoredIsParsed(records, tail);
    assert (header + StoreAll(records) + tail)[HEADER..] == StoreAll(records) + tail;
    StartedEitherWay(m, Parse(StoreAll(records) + tail), a);
  }

  function FirstPart(r: Record, n: nat): Record
    requires n <= |r.write.data|
  {
    Record(Write(r.write.addr, r.write.data[..n]), false)
  }

  function SecondPart(r: Record, n: nat): Record
    requires n <= |r.write.data|
  {
    Record(Write(Wrap16(r.write.addr + n), r.write.data[n..]), r.last)
  }

  /**
   * Two files that differ in how one record is cut into pieces load the same memory, even where
   * the cut decides whether the driver itself starts the CPU.
   */
  lemma SplitDownload(m: word -> byte, header: seq<byte>, before: seq<Record>, r: Record, n: nat, after: seq<Record>,
                      tail: seq<byte>, a: word)
    requires n <= |r.write.data|
    requires |header| == HEADER && Complete(before + [r] + after, tail)
    requires |header + StoreAll(before + [r] + after) + tail| >= MIN_IMAGE
    ensures var split := before + [FirstPart(r, n), SecondPart(r, n)] + after;
      && Complete(split, tail) && |header + StoreAll(split) + tail| >= MIN_IMAGE
      && Cell(m, Planned(header + StoreAll(split) + tail), a)
         == Cell(m, Planned(header + StoreAll(before + [r] + after) + tail), a)
  {
    hide Cell, Planned;
    var whole, split := before + [r] + after, before + [FirstPart(r, n), SecondPart(r, n)] + after;
    SplitIsComplete(before, r, n, after, tail);
    SplitIsLonger(before, r, n, after);
    hide StoreAll, Complete;
    DownloadedImage(m, header, whole, tail, a);
    DownloadedImage(m, header, split, tail, a);
    var first, second := FirstPart(r, n).write, SecondPart(r, n).write;
    assert first.data + second.data == r.write.data;
    assert [CPU_STOP] + Writes(whole) + [CPU_RUN]
        == ([CPU_STOP] + Writes(before)) + [r.write] + (Writes(after) + [CPU_RUN]);
    assert [CPU_STOP] + Writes(split) + [CPU_RUN]
        == ([CPU_STOP] + Writes(before)) + [first, second] + (Writes(after) + [CPU_RUN]);
    SplittingKeepsImage(m, [CPU_STOP] + Writes(before), r.write.addr, first.data, second.data,
                        Writes(after) + [CPU_RUN], a);
  }

  lemma SplitIsComplete(before: seq<Record>, r: Record, n: nat, after: seq<Record>, tail: seq<byte>)
    requires n <= |r.write.data|
    requires Complete(before + [r] + after, tail)
    ensures Complete(before + [FirstPart(r, n), SecondPart(r, n)] + after, tail)
    ensures Storable(r)
  {
    hide StoreAll;
    var whole, split := before + [r] + after, before + [FirstPart(r, n), SecondPart(r, n)] + after;
    var k := |before|;
    assert whole[k] == r && r in whole;
    forall i | 0 <= i < |split| - 1 ensures !split[i].last {
      assert i < k ==> split[i] == whole[i];
      assert i == k + 1 ==> split[i].last == whole[k].last;
      assert i > k + 1 ==> split[i] == whole[i - 1];
    }
    forall q | q in split ensures Storable(q) {
      var i :| 0 <= i < |split| && split[i] == q;
      assert i < k ==> split[i] == whole[i];
      assert i > k + 1 ==> split[i] == whole[i - 1];
    }
  }

  lemma {:induction false} SplitIsLonger(before: seq<Record>, r: Record, n: nat, after: seq<Record>)
    requires n <= |r.write.data|
    requires forall q :: q in before + [r] + after ==> Storable(q)
    requires forall q :: q in before + [FirstPart(r, n), SecondPart(r, n)] + after ==> Storable(q)
    ensures |StoreAll(before + [FirstPart(r, n), SecondPart(r, n)] + after)| == |StoreAll(before + [r] + after)| + 4
  {
    var whole, split := before + [r] + after, before + [FirstPart(r, n), SecondPart(r, n)] + after;
    if before == [] {
      assert whole[0] == r && whole[1..] == after;
      assert split[0] == FirstPart(r, n) && split[1..][0] == SecondPart(r, n) && split[1..][1..] == after;
    } else {
      assert whole[1..] == before[1..] + [r] + after;
      assert split[1..] == before[1..] + [FirstPart(r, n), SecondPart(r, n)] + after;
      SplitIsLonger(before[1..], r, n, after);
    }
  }
}
