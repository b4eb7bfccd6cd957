/** Ptable::ChangeGpt on the bytes of a table: it edits the list of entries as GptEdit says, and
    changes no other byte. */
module GptChange {
  import opened Bits
  import opened Device
  import opened LittleEndian
  import opened GptHeaders
  import opened GptEdit

  function EntryOf(d: seq<byte>, at: nat): (e: Entry)
    requires at + PARTITION_ENTRY_SIZE <= |d|
  {
    Entry(NameFrom(d[at + NAME_OFFSET..at + NAME_OFFSET + MAX_GPT_NAME_SIZE], 0),
          Get(d, at + FIRST_LBA_OFFSET, 8), Get(d, at + LAST_LBA_OFFSET, 8))
  }

  /** From `at` on there are only whole slots of `es` bytes. */
  predicate Fits(d: seq<byte>, at: nat, size: nat, es: nat) {
    size <= |d| && PARTITION_ENTRY_SIZE <= es && (at < size ==> (size - at) % es == 0)
  }

  lemma FitsNext(d: seq<byte>, at: nat, size: nat, es: nat)
    requires Fits(d, at, size, es) && at < size
    ensures at + es <= size && Fits(d, at + es, size, es)
  {
    var n, q := size - at, (size - at) / es;
    assert n == es * q;
    if q >= 1 {
      MulAtLeast(es, q);
      assert n - es == es * (q - 1);
      ModUnique(n - es, es, q - 1, 0);
    }
  }

  /** The entries from `at` on, up to the first without a name. */
  function Entries(d: seq<byte>, at: nat, size: nat, es: nat): (t: seq<Entry>)
    requires Fits(d, at, size, es)
    ensures AreLbas(t)
    decreases size - at
  {
    if at >= size then []
    else
      FitsNext(d, at, size, es);
      var e := EntryOf(d, at);
      if e.name == [] then []
      else
        LbasFit(d, at);
        [e] + Entries(d, at + es, size, es)
  }

  lemma LbasFit(d: seq<byte>, at: nat)
    requires at + PARTITION_ENTRY_SIZE <= |d|
    ensures EntryOf(d, at).first < U64 && EntryOf(d, at).last < U64
  {
    hide Number;
    NumberBelow(d[at + FIRST_LBA_OFFSET..at + FIRST_LBA_OFFSET + 8]);
    NumberBelow(d[at + LAST_LBA_OFFSET..at + LAST_LBA_OFFSET + 8]);
    Widths();
  }

  /** Where the walk over the entries ends. */
  function EndOf(d: seq<byte>, at: nat, size: nat, es: nat): (end: nat)
    requires Fits(d, at, size, es)
    ensures at <= end
    decreases size - at
  {
    if at >= size then at
    else
      FitsNext(d, at, size, es);
      if EntryOf(d, at).name == [] then at else EndOf(d, at + es, size, es)
  }

  // ---------------------------------------------------------------- the loop

  /** `done` lists the entries between `start` and `at`. */
  predicate Passed(d: seq<byte>, start: nat, at: nat, es: nat, done: seq<Entry>)
    decreases |done|
  {
    if done == [] then at == start
    else
      var n := |done| - 1;
      && PARTITION_ENTRY_SIZE <= es && start + es <= at <= |d| && done[n].name != []
      && EntryOf(d, at - es) == done[n] && Passed(d, start, at - es, es, done[..n])
  }

  lemma {:induction false} PassedFrame(d: seq<byte>, d': seq<byte>, start: nat, at: nat, es: nat, done: seq<Entry>)
    requires Passed(d, start, at, es, done) && |d| == |d'| && forall k :: 0 <= k < at && k < |d| ==> d[k] == d'[k]
    ensures Passed(d', start, at, es, done)
    decreases |done|
  {
    if done != [] {
      EntrySame(d, d', at - es);
      PassedFrame(d, d', start, at - es, es, done[..|done| - 1]);
    }
  }

  lemma EntrySame(d: seq<byte>, d': seq<byte>, at: nat)
    requires |d| == |d'| && at + PARTITION_ENTRY_SIZE <= |d|
    requires forall k :: at <= k < at + PARTITION_ENTRY_SIZE ==> d[k] == d'[k]
    ensures EntryOf(d, at) == EntryOf(d', at)
  {
    hide Number, NameFrom;
    assert d[at + NAME_OFFSET..at + NAME_OFFSET + MAX_GPT_NAME_SIZE]
        == d'[at + NAME_OFFSET..at + NAME_OFFSET + MAX_GPT_NAME_SIZE];
    assert d[at + FIRST_LBA_OFFSET..at + FIRST_LBA_OFFSET + 8] == d'[at + FIRST_LBA_OFFSET..at + FIRST_LBA_OFFSET + 8];
    assert d[at + LAST_LBA_OFFSET..at + LAST_LBA_OFFSET + 8] == d'[at + LAST_LBA_OFFSET..at + LAST_LBA_OFFSET + 8];
  }

  lemma {:induction false} EntriesSame(d: seq<byte>, d': seq<byte>, at: nat, size: nat, es: nat)
    requires Fits(d, at, size, es) && |d| == |d'| && forall k :: at <= k < |d| ==> d[k] == d'[k]
    ensures Entries(d, at, size, es) == Entries(d', at, size, es)
    decreases size - at
  {
    hide EntryOf, Fits;
    if at < size {
      FitsNext(d, at, size, es);
      FitsNext(d', at, size, es) by { FitsSame(d, d', at, size, es); }
      EntrySame(d, d', at) by { assert PARTITION_ENTRY_SIZE <= es by { FitsSame(d, d', at, size, es); } }
      EntriesSame(d, d', at + es, size, es);
    }
  }

  lemma FitsSame(d: seq<byte>, d': seq<byte>, at: nat, size: nat, es: nat)
    requires Fits(d, at, size, es) && |d| == |d'|
    ensures Fits(d', at, size, es) && PARTITION_ENTRY_SIZE <= es && size <= |d|
  {
  }

  lemma {:induction false} PassedEntries(d: seq<byte>, start: nat, at: nat, size: nat, es: nat, done: seq<Entry>)
    requires Passed(d, start, at, es, done) && Fits(d, start, size, es) && Fits(d, at, size, es)
    requires (done != [] ==> at <= size)
    ensures Entries(d, start, size, es) == done + Entries(d, at, size, es)
    decreases |done|
  {
    hide EntryOf;
    if done != [] {
      var n, last := |done| - 1, at - es;
      FitsBack(d, at, size, es);
      PassedEntries(d, start, last, size, es, done[..n]);
      assert Entries(d, last, size, es) == [done[n]] + Entries(d, at, size, es);
      assert done == done[..n] + [done[n]];
    }
  }

  lemma FitsBack(d: seq<byte>, at: nat, size: nat, es: nat)
    requires Fits(d, at, size, es) && es <= at <= size
    ensures Fits(d, at - es, size, es)
  {
    var n, q := size - at, (size - at) / es;
    assert n % es == 0;
    assert n == es * q;
    assert n + es == es * (q + 1);
    ModUnique(n + es, es, q + 1, 0);
  }

  /** The two LBA fields of the entry at `at`. */
  function WithLbas(d: seq<byte>, at: nat, first: nat, last: nat): (r: seq<byte>)
    requires at + PARTITION_ENTRY_SIZE <= |d|
    ensures |r| == |d|
  {
    Put(Put(d, at + FIRST_LBA_OFFSET, first, 8), at + LAST_LBA_OFFSET, last, 8)
  }

  lemma LbasSet(d: seq<byte>, at: nat, first: nat, last: nat)
    requires at + PARTITION_ENTRY_SIZE <= |d| && first < U64 && last < U64
    ensures var r := WithLbas(d, at, first, last);
      && EntryOf(r, at) == Entry(EntryOf(d, at).name, first, last)
      && forall k :: 0 <= k < |d| && !(at + FIRST_LBA_OFFSET <= k < at + LAST_LBA_OFFSET + 8) ==> r[k] == d[k]
  {
    hide Number, NameFrom, Bytes;
    Widths();
    var e, r := Put(d, at + FIRST_LBA_OFFSET, first, 8), WithLbas(d, at, first, last);
    GetPut(d, at + FIRST_LBA_OFFSET, first, 8);
    GetElsewhere(e, at + LAST_LBA_OFFSET, last, 8, at + FIRST_LBA_OFFSET, 8);
    GetPut(e, at + LAST_LBA_OFFSET, last, 8);
    SliceElsewhere(d, at + FIRST_LBA_OFFSET, first, 8, at + NAME_OFFSET, MAX_GPT_NAME_SIZE);
    SliceElsewhere(e, at + LAST_LBA_OFFSET, last, 8, at + NAME_OFFSET, MAX_GPT_NAME_SIZE);
  }

  method SetLbas(buf: array<byte>, at: nat, first: nat, last: nat)
    requires at + PARTITION_ENTRY_SIZE <= buf.Length
    modifies buf
    ensures buf[..] == WithLbas(old(buf[..]), at, first, last)
  {
    PutLongLong(buf, at + FIRST_LBA_OFFSET, first);
    PutLongLong(buf, at + LAST_LBA_OFFSET, last);
  }

  /** Ptable::AdjustGpt, on the entry at `at`; `bufSize` bytes of the table are left. */
  method AdjustGpt(buf: array<byte>, at: nat, bufSize: nat, name: seq<byte>, preLastLBA: nat, lastPtnLastLBA: nat)
    returns (ok: bool)
    requires at + PARTITION_ENTRY_SIZE <= buf.Length
    modifies buf
    ensures ok <==> bufSize != 0 && name != [] && !(IsUserData(name) && lastPtnLastLBA < Next(preLastLBA))
    ensures var e := EntryOf(old(buf[..]), at);
      var m := Moved(Entry(name, e.first, e.last), preLastLBA, lastPtnLastLBA);
      buf[..] == if ok then WithLbas(old(buf[..]), at, m.first, m.last) else old(buf[..])
  {
    hide Number, Bytes, Or, Shl, NameFrom, WithLbas;
    if bufSize == 0 || name == [] {
      return false;
    }
    var d := buf[..];
    LbasFit(d, at);
    LlwordIsNumber(d, at + FIRST_LBA_OFFSET);
    LlwordIsNumber(d, at + LAST_LBA_OFFSET);
    var firstLBA := GetLlword(d, at + FIRST_LBA_OFFSET);
    var lastLBA := GetLlword(d, at + LAST_LBA_OFFSET);
    if !IsUserData(name) {
      lastLBA := (U64 + lastLBA - firstLBA + preLastLBA + 1) % U64;
      firstLBA := (preLastLBA + 1) % U64;
      SetLbas(buf, at, firstLBA, lastLBA);
    } else {
      firstLBA := (preLastLBA + 1) % U64;
      if lastPtnLastLBA < firstLBA {
        return false;
      }
      SetLbas(buf, at, firstLBA, lastPtnLastLBA);
    }
    ok := true;
  }

  // ---------------------------------------------------------------- the walk

  /** What is still to become of the entries from here on: nothing is found yet, or they are to be
      placed behind `pre`. */
  predicate RestSucceeds(rest: seq<Entry>, found: bool, req: Request, pre: nat, end: nat)
    requires AreLbas(rest)
  {
    if found then StopsAt(rest, pre, end) == |rest| else Succeeds(rest, req, end)
  }

  function RestChanged(rest: seq<Entry>, found: bool, req: Request, pre: nat, end: nat): (r: seq<Entry>)
    requires AreLbas(rest)
    ensures |r| == |rest|
  {
    if found then Partly(rest, pre, end) else Changed(rest, req, end)
  }

  lemma PassBy(t: seq<Entry>, req: Request, pre: nat, end: nat)
    requires AreLbas(t) && t != [] && t[0].name != req.name
    ensures AreLbas(t[1..])
    ensures RestSucceeds(t, false, req, pre, end) <==> RestSucceeds(t[1..], false, req, pre, end)
    ensures RestChanged(t, false, req, pre, end) == [t[0]] + RestChanged(t[1..], false, req, pre, end)
  {
    hide StopsAt, Placed, Partly, Find;
    var k := Find(t[1..], req.name);
    FoundLater(t, req.name);
    if k + 1 < |t| {
      assert t[k + 2..] == t[1..][k + 1..];
      assert t[..k + 1] == [t[0]] + t[1..][..k];
    }
  }

  lemma FoundLater(t: seq<Entry>, name: seq<byte>)
    requires t != [] && t[0].name != name
    ensures Find(t, name) == Find(t[1..], name) + 1
  {
  }

  lemma FoundHere(t: seq<Entry>, req: Request, pre: nat, end: nat)
    requires AreLbas(t) && t != [] && t[0].name == req.name && StartsRight(req, end)
    ensures AreLbas(t[1..])
    ensures RestSucceeds(t, false, req, pre, end) <==> RestSucceeds(t[1..], true, req, req.last, end)
    ensures RestChanged(t, false, req, pre, end) ==
              [Entry(req.name, req.first, req.last)] + RestChanged(t[1..], true, req, req.last, end)
  {
    hide StopsAt, Placed;
    assert Find(t, req.name) == 0;
  }

  lemma PlaceHere(t: seq<Entry>, req: Request, pre: nat, end: nat)
    requires AreLbas(t) && t != [] && !(IsUserData(t[0].name) && end < Next(pre))
    ensures AreLbas(t[1..])
    ensures var m := Moved(t[0], pre, end);
      && (RestSucceeds(t, true, req, pre, end) <==> RestSucceeds(t[1..], true, req, m.last, end))
      && RestChanged(t, true, req, pre, end) == [m] + RestChanged(t[1..], true, req, m.last, end)
  {
    hide Moved, Placed, StopsAt;
    var m := Moved(t[0], pre, end);
    OnePlaced(t, pre, end);
    Shifted(Placed(t[1..], m.last, end), t, m, StopsAt(t[1..], m.last, end));
  }

  lemma OnePlaced(t: seq<Entry>, pre: nat, end: nat)
    requires AreLbas(t) && t != [] && !(IsUserData(t[0].name) && end < Next(pre))
    ensures AreLbas(t[1..])
    ensures var m := Moved(t[0], pre, end);
      && StopsAt(t, pre, end) == 1 + StopsAt(t[1..], m.last, end)
      && Placed(t, pre, end) == [m] + Placed(t[1..], m.last, end)
  {
    hide Moved;
  }

  lemma Shifted(p: seq<Entry>, t: seq<Entry>, m: Entry, n: nat)
    requires n <= |p| && |t| == |p| + 1
    ensures ([m] + p)[..n + 1] + t[n + 1..] == [m] + (p[..n] + t[1..][n..])
  {
    assert ([m] + p)[..n + 1] == [m] + p[..n];
    assert t[n + 1..] == t[1..][n..];
  }

  lemma StopHere(t: seq<Entry>, found: bool, req: Request, pre: nat, end: nat)
    requires AreLbas(t) && t != []
    requires if found then IsUserData(t[0].name) && end < Next(pre) else t[0].name == req.name && !StartsRight(req, end)
    ensures !RestSucceeds(t, found, req, pre, end) && RestChanged(t, found, req, pre, end) == t
  {
  }

  /** The walk has come to `at`, with `found` and `pre` in hand and `done` behind it. */
  ghost predicate Walking(was: seq<byte>, d: seq<byte>, start: nat, at: nat, size: nat, es: nat,
                          req: Request, end: nat, found: bool, pre: nat, done: seq<Entry>)
  {
    && |d| == |was| && Fits(was, start, size, es) && Fits(was, at, size, es) && (done != [] ==> at <= size)
    && Passed(d, start, at, es, done)
    && (forall k :: at <= k < |d| ==> d[k] == was[k])
    && (forall k :: 0 <= k < |d| && !InLbas(k, start, es) ==> d[k] == was[k])
    && start <= at && (at - start) % es == 0
    && EndOf(was, at, size, es) == EndOf(was, start, size, es)
    && var t, rest := Entries(was, start, size, es), Entries(was, at, size, es);
    && (Succeeds(t, req, end) <==> RestSucceeds(rest, found, req, pre, end))
    && Changed(t, req, end) == done + RestChanged(rest, found, req, pre, end)
  }

  /** Byte `k` belongs to the LBA fields of some slot. */
  predicate InLbas(k: int, start: nat, es: nat)
    requires 0 < es
  {
    start <= k && FIRST_LBA_OFFSET <= (k - start) % es < LAST_LBA_OFFSET + 8
  }

  lemma LbasOf(start: nat, at: nat, es: nat, k: nat)
    requires PARTITION_ENTRY_SIZE <= es && start <= at && (at - start) % es == 0
    requires at + FIRST_LBA_OFFSET <= k < at + LAST_LBA_OFFSET + 8
    ensures InLbas(k, start, es)
  {
    var q := (at - start) / es;
    assert at - start == es * q;
    ModUnique(k - start, es, q, k - at);
  }

  /** One entry further: it has become `e`. */
  lemma WalkOn(was: seq<byte>, d: seq<byte>, d': seq<byte>, start: nat, at: nat, size: nat, es: nat, req: Request,
               end: nat, found: bool, pre: nat, done: seq<Entry>, e: Entry, found': bool, pre': nat)
    requires Walking(was, d, start, at, size, es, req, end, found, pre, done) && at < size
    requires at + PARTITION_ENTRY_SIZE <= |d| && EntryOf(was, at).name != []
    requires |d'| == |d| && EntryOf(d', at) == e && e.name == EntryOf(was, at).name
    requires forall k :: 0 <= k < |d| && !(at + FIRST_LBA_OFFSET <= k < at + LAST_LBA_OFFSET + 8) ==> d'[k] == d[k]
    requires var rest := Entries(was, at, size, es);
      && rest != [] && AreLbas(rest[1..])
      && (RestSucceeds(rest, found, req, pre, end) <==> RestSucceeds(rest[1..], found', req, pre', end))
      && RestChanged(rest, found, req, pre, end) == [e] + RestChanged(rest[1..], found', req, pre', end)
    ensures Walking(was, d', start, at + es, size, es, req, end, found', pre', done + [e])
  {
    hide EntryOf, RestSucceeds, RestChanged, Succeeds, Changed, InLbas, Passed;
    FitsNext(was, at, size, es);
    PassedFrame(d, d', start, at, es, done);
    PassedOne(d', start, at, es, done, e);
    StepMod(start, at, es);
    assert Entries(was, at, size, es)[1..] == Entries(was, at + es, size, es);
    forall k | 0 <= k < |d| && !InLbas(k, start, es) ensures d'[k] == was[k] {
      if at + FIRST_LBA_OFFSET <= k < at + LAST_LBA_OFFSET + 8 {
        LbasOf(start, at, es, k);
      }
    }
  }

  lemma PassedOne(d: seq<byte>, start: nat, at: nat, es: nat, done: seq<Entry>, e: Entry)
    requires PARTITION_ENTRY_SIZE <= es && at + es <= |d| && Passed(d, start, at, es, done) && start <= at
    requires EntryOf(d, at) == e && e.name != []
    ensures Passed(d, start, at + es, es, done + [e])
  {
    assert (done + [e])[..|done|] == done;
  }

  lemma StepMod(start: nat, at: nat, es: nat)
    requires 0 < es && start <= at && (at - start) % es == 0
    ensures (at + es - start) % es == 0
  {
    var q := (at - start) / es;
    assert at - start == es * q;
    assert es * (q + 1) == es * q + es;
    ModUnique(at + es - start, es, q + 1, 0);
  }

  /** The walk is over: the table lists what is behind and what is ahead. */
  lemma WalkOver(was: seq<byte>, d: seq<byte>, start: nat, at: nat, size: nat, es: nat, req: Request, end: nat,
                 found: bool, pre: nat, done: seq<Entry>)
    requires Walking(was, d, start, at, size, es, req, end, found, pre, done)
    ensures Fits(d, start, size, es)
    ensures Entries(d, start, size, es) == done + Entries(was, at, size, es)
    ensures at <= EndOf(was, start, size, es)
  {
    hide EntryOf, RestSucceeds, RestChanged, Succeeds, Changed, InLbas, Passed;
    PassedEntries(d, start, at, size, es, done);
    EntriesSame(was, d, at, size, es);
  }

  // ---------------------------------------------------------------- ChangeGpt

  datatype GptParseInfo = GptParseInfo(imgBlockSize: nat, devBlockSize: nat, devDensity: nat)

  predicate ArgumentsValid(gptSize: nat, info: GptParseInfo) {
    info.imgBlockSize < gptSize && info.devBlockSize != 0
  }

  /** Where the entries start and how far apart they are, as the header says. */
  function StartOf(d: seq<byte>, block: nat): nat
    requires block + GPT_CRC_LEN <= |d|
  {
    Get(d, block + PARTITION_ENTRIES_OFFSET, 8) * block % U64
  }

  function SlotSize(d: seq<byte>, block: nat): nat
    requires block + GPT_CRC_LEN <= |d|
  {
    Get(d, block + PENTRY_SIZE_OFFSET, 8) % U32
  }

  predicate Readable(d: seq<byte>, gptSize: nat, block: nat) {
    block + GPT_CRC_LEN <= |d| && Fits(d, StartOf(d, block), gptSize, SlotSize(d, block))
  }

  /** The last LBA of the device, and the bounds asked for, in blocks of the device. */
  function DeviceEnd(info: GptParseInfo): (end: nat)
    requires info.devBlockSize != 0
    ensures end < U64
  {
    (U64 + info.devDensity / info.devBlockSize - 1) % U64
  }

  function Bounds(name: seq<byte>, startAddr: nat, partitionSize: nat, devBlockSize: nat): (r: Request)
    requires devBlockSize != 0 && startAddr < U64
    ensures r.first < U64 && r.last < U64 && r.name == name
  {
    BlocksFit(startAddr, devBlockSize);
    var first := startAddr / devBlockSize;
    Request(name, first, (U64 + first + partitionSize / devBlockSize - 1) % U64)
  }

  /** The bounds asked for: the first block is the one that holds `startAddr`, and there are as many
      as go into `partitionSize`, modulo 2^64. */
  predicate IsRequest(r: Request, name: seq<byte>, startAddr: nat, partitionSize: nat, devBlockSize: nat)
    requires devBlockSize != 0
  {
    && r.name == name && r.first < U64 && r.last < U64
    && r.first * devBlockSize <= startAddr < (r.first + 1) * devBlockSize
    && (U64 + r.last - r.first + 1) % U64 == partitionSize / devBlockSize % U64
  }

  /** The last block of the device: as many as there are, modulo 2^64, less one. */
  predicate IsDeviceEnd(end: nat, info: GptParseInfo)
    requires info.devBlockSize != 0
  {
    end < U64 && (end + 1) % U64 == info.devDensity / info.devBlockSize % U64
  }

  /** There are such bounds. */
  lemma BoundsAreRequested(name: seq<byte>, startAddr: nat, partitionSize: nat, devBlockSize: nat)
    requires devBlockSize != 0 && startAddr < U64
    ensures IsRequest(Bounds(name, startAddr, partitionSize, devBlockSize), name, startAddr, partitionSize,
              devBlockSize)
  {
    var q, sectors := startAddr / devBlockSize, partitionSize / devBlockSize;
    InBlock(startAddr, devBlockSize, q);
    BlocksFit(startAddr, devBlockSize);
    LastOfSectors(q, sectors);
  }

  lemma LastOfSectors(first: nat, sectors: nat)
    requires first < U64
    ensures (U64 + (U64 + first + sectors - 1) % U64 - first + 1) % U64 == sectors % U64
  {
  }

  lemma InBlock(x: nat, m: nat, q: nat)
    requires 0 < m
    ensures q == x / m <==> q * m <= x < (q + 1) * m
  {
    var d := x / m;
    assert x == d * m + x % m;
    if q < d {
      MulOrder(q + 1, d, m);
    } else if d < q {
      MulOrder(d + 1, q, m);
    }
  }

  lemma MulOrder(a: nat, b: nat, m: nat)
    requires a <= b
    ensures a * m <= b * m
  {
    assert b * m == a * m + (b - a) * m;
  }

  /** And no others. */
  lemma RequestUnique(r: Request, name: seq<byte>, startAddr: nat, partitionSize: nat, devBlockSize: nat)
    requires devBlockSize != 0 && startAddr < U64 && IsRequest(r, name, startAddr, partitionSize, devBlockSize)
    ensures r == Bounds(name, startAddr, partitionSize, devBlockSize)
  {
    InBlock(startAddr, devBlockSize, r.first);
    LastUnique(r.first, r.last, partitionSize / devBlockSize);
  }

  lemma LastUnique(first: nat, last: nat, sectors: nat)
    requires first < U64 && last < U64 && (U64 + last - first + 1) % U64 == sectors % U64
    ensures last == (U64 + first + sectors - 1) % U64
  {
  }

  lemma DeviceEndUnique(end: nat, info: GptParseInfo)
    requires info.devBlockSize != 0
    ensures IsDeviceEnd(end, info) <==> end == DeviceEnd(info)
  {
    EndUnique(end, info.devDensity / info.devBlockSize);
  }

  lemma EndUnique(end: nat, sectors: nat)
    ensures end < U64 && (end + 1) % U64 == sectors % U64 <==> end == (U64 + sectors - 1) % U64
  {
  }

  lemma BlocksFit(x: nat, m: nat)
    requires 0 < m && x < U64
    ensures 0 <= x / m < U64
  {
    var q := x / m;
    assert x == m * q + x % m;
    if q > x {
      MulAtLeast(q, m);
    }
  }

  /** What is known while the entry at `at` is looked at. */
  lemma EntryHere(was: seq<byte>, d: seq<byte>, start: nat, at: nat, size: nat, es: nat, req: Request, end: nat,
                  found: bool, pre: nat, done: seq<Entry>)
    requires Walking(was, d, start, at, size, es, req, end, found, pre, done) && at < size
    ensures at + PARTITION_ENTRY_SIZE <= |d| && EntryOf(d, at) == EntryOf(was, at)
    ensures var rest := Entries(was, at, size, es);
      if EntryOf(was, at).name == [] then rest == [] && EndOf(was, at, size, es) == at
      else rest != [] && rest[0] == EntryOf(was, at)
  {
    hide EntryOf, RestSucceeds, RestChanged, Succeeds, Changed, InLbas, Passed;
    FitsNext(was, at, size, es);
    EntrySame(was, d, at);
  }

  lemma MovedFits(e: Entry, pre: nat, end: nat)
    requires end < U64
    ensures Moved(e, pre, end).first < U64 && Moved(e, pre, end).last < U64
  {
  }

  /** One turn of the loop, on the entry named `name` at `at`. */
  method Visit(buf: array<byte>, at: nat, size: nat, name: seq<byte>, req: Request, end: nat, found: bool, pre: nat,
               ghost was: seq<byte>, ghost start: nat, ghost es: nat, ghost done: seq<Entry>)
    returns (ok: bool, found': bool, pre': nat, ghost done': seq<Entry>)
    requires Walking(was, buf[..], start, at, size, es, req, end, found, pre, done)
    requires at < size && at + PARTITION_ENTRY_SIZE <= buf.Length && name == EntryOf(buf[..], at).name && name != []
    requires req.first < U64 && req.last < U64 && end < U64
    modifies buf
    ensures ok ==> Walking(was, buf[..], start, at + es, size, es, req, end, found', pre', done')
    ensures !ok ==> Walking(was, buf[..], start, at, size, es, req, end, found, pre, done)
    ensures !ok ==> found' == found && pre' == pre && done' == done
    ensures !ok ==> var rest := Entries(was, at, size, es);
      !RestSucceeds(rest, found, req, pre, end) && RestChanged(rest, found, req, pre, end) == rest
  {
    hide EntryOf, RestSucceeds, RestChanged, Succeeds, Changed, InLbas, Passed, Walking, Moved, WithLbas, Entries,
        Fits, AreLbas;
    ghost var d := buf[..];
    FitsHere(was, d, start, at, size, es, req, end, found, pre, done);
    EntryHere(was, d, start, at, size, es, req, end, found, pre, done);
    ghost var rest := Entries(was, at, size, es);
    ok, found', pre', done' := true, found, pre, done;
    if found {
      ok := AdjustGpt(buf, at, size - at, name, pre, end);
      if !ok {
        StopHere(rest, found, req, pre, end);
        return;
      }
      ghost var m := Moved(rest[0], pre, end);
      PlaceHere(rest, req, pre, end);
      MovedFits(rest[0], pre, end);
      LbasSet(d, at, m.first, m.last);
      MovedName(rest[0], pre, end);
      LastOf(buf[..], at);
      LlwordIsNumber(buf[..], at + LAST_LBA_OFFSET);
      pre' := GetLlword(buf[..], at + LAST_LBA_OFFSET);
      done' := done + [m];
      WalkOn(was, d, buf[..], start, at, size, es, req, end, found, pre, done, m, found', pre');
    } else if name == req.name {
      if IsUserData(name) && req.last != end {
        StopHere(rest, found, req, pre, end);
        return false, found, pre, done;
      }
      SetLbas(buf, at, req.first, req.last);
      FoundHere(rest, req, pre, end);
      LbasSet(d, at, req.first, req.last);
      found', pre', done' := true, req.last, done + [Entry(req.name, req.first, req.last)];
      WalkOn(was, d, buf[..], start, at, size, es, req, end, found, pre, done, Entry(req.name, req.first, req.last),
          found', pre');
    } else {
      PassBy(rest, req, pre, end);
      done' := done + [rest[0]];
      WalkOn(was, d, buf[..], start, at, size, es, req, end, found, pre, done, rest[0], found', pre');
    }
  }

  lemma FitsHere(was: seq<byte>, d: seq<byte>, start: nat, at: nat, size: nat, es: nat, req: Request, end: nat,
                 found: bool, pre: nat, done: seq<Entry>)
    requires Walking(was, d, start, at, size, es, req, end, found, pre, done)
    ensures Fits(was, at, size, es) && |d| == |was|
  {
    hide EntryOf, RestSucceeds, RestChanged, Succeeds, Changed, InLbas, Passed;
  }

  lemma MovedName(e: Entry, pre: nat, end: nat)
    ensures Moved(e, pre, end).name == e.name
  {
  }

  lemma LastOf(d: seq<byte>, at: nat)
    requires at + PARTITION_ENTRY_SIZE <= |d|
    ensures EntryOf(d, at).last == Get(d, at + LAST_LBA_OFFSET, 8)
  {
    hide NameFrom, Number;
  }

  /** The loop of ChangeGpt. */
  method Walk(gptBuf: array<byte>, start: nat, gptSize: nat, ptnEntrySize: nat, req: Request, end: nat)
    returns (ok: bool)
    requires Fits(gptBuf[..], start, gptSize, ptnEntrySize)
    requires req.first < U64 && req.last < U64 && end < U64
    modifies gptBuf
    ensures Edited(old(gptBuf[..]), gptBuf[..], start, gptSize, ptnEntrySize, req, end, ok)
  {
    hide EntryOf, RestSucceeds, RestChanged, Succeeds, Changed, InLbas, Walking, Entries, EndOf, ChangedBelow, AreLbas;
    ghost var was := gptBuf[..];
    var readSize := start;
    var found, pre: nat := false, 0;
    ghost var done: seq<Entry> := [];
    WalkStarts(was, start, gptSize, ptnEntrySize, req, end);
    ok := true;
    while readSize < gptSize
      invariant Walking(was, gptBuf[..], start, readSize, gptSize, ptnEntrySize, req, end, found, pre, done)
      invariant Fits(was, readSize, gptSize, ptnEntrySize) && ok
      decreases gptSize - readSize
    {
      EntryHere(was, gptBuf[..], start, readSize, gptSize, ptnEntrySize, req, end, found, pre, done);
      NameOf(gptBuf[..], readSize);
      FitsNext(was, readSize, gptSize, ptnEntrySize);
      var nameAt := readSize + NAME_OFFSET;
      var dispName := ParsePartitionName(gptBuf[..][nameAt..nameAt + MAX_GPT_NAME_SIZE]);
      if dispName == [] {
        break;
      }
      ok, found, pre, done := Visit(gptBuf, readSize, gptSize, dispName, req, end, found, pre, was, start,
          ptnEntrySize, done);
      if !ok {
        break;
      }
      readSize := readSize + ptnEntrySize;
    }
    NoMore(was, readSize, gptSize, ptnEntrySize);
    Outcome(was, gptBuf[..], start, readSize, gptSize, ptnEntrySize, req, end, found, pre, done, ok);
  }

  lemma NoMore(d: seq<byte>, at: nat, size: nat, es: nat)
    requires Fits(d, at, size, es)
    ensures size <= at ==> Entries(d, at, size, es) == []
  {
  }

  /** The list of entries has become what GptEdit says; nothing but LBA fields has changed, and
      none from the first entry without a name on. */
  ghost predicate Edited(was: seq<byte>, d: seq<byte>, start: nat, size: nat, es: nat, req: Request, end: nat, ok: bool)
    requires Fits(was, start, size, es)
  {
    var t := Entries(was, start, size, es);
    && (ok <==> Succeeds(t, req, end))
    && Fits(d, start, size, es) && Entries(d, start, size, es) == Changed(t, req, end)
    && ChangedBelow(was, d, start, es, EndOf(was, start, size, es))
  }

  /** Ptable::ChangeGpt. */
  method ChangeGpt(gptBuf: array<byte>, gptSize: nat, info: GptParseInfo, name: seq<byte>, startAddr: nat,
      partitionSize: nat)
    returns (ok: bool)
    requires gptSize <= gptBuf.Length && startAddr < U64
    requires ArgumentsValid(gptSize, info) ==> Readable(gptBuf[..], gptSize, info.imgBlockSize)
    modifies gptBuf
    ensures !ArgumentsValid(gptSize, info) ==> !ok && gptBuf[..] == old(gptBuf[..])
    ensures ArgumentsValid(gptSize, info) ==>
      var was, h := old(gptBuf[..]), info.imgBlockSize;
      forall req, end :: IsRequest(req, name, startAddr, partitionSize, info.devBlockSize) && IsDeviceEnd(end, info) ==>
        Edited(was, gptBuf[..], StartOf(was, h), gptSize, SlotSize(was, h), req, end, ok)
  {
    hide Number, Or, Shl, Edited, Fits, Bounds, DeviceEnd, IsRequest, IsDeviceEnd;
    if gptSize == 0 || gptSize <= info.imgBlockSize || info.devBlockSize == 0 {
      return false;
    }
    var d, h := gptBuf[..], info.imgBlockSize;
    LlwordIsNumber(d, h + PENTRY_SIZE_OFFSET);
    LlwordIsNumber(d, h + PARTITION_ENTRIES_OFFSET);
    var ptnEntrySize := GetLlword(d, h + PENTRY_SIZE_OFFSET) % U32;
    var ptnStart := GetLlword(d, h + PARTITION_ENTRIES_OFFSET);
    var readSize := ptnStart * h % U64;
    var req, lastPtnLastLBA := Bounds(name, startAddr, partitionSize, info.devBlockSize), DeviceEnd(info);
    ok := Walk(gptBuf, readSize, gptSize, ptnEntrySize, req, lastPtnLastLBA);
    forall r, end | IsRequest(r, name, startAddr, partitionSize, info.devBlockSize) && IsDeviceEnd(end, info)
      ensures r == req && end == lastPtnLastLBA
    {
      RequestUnique(r, name, startAddr, partitionSize, info.devBlockSize);
      DeviceEndUnique(end, info);
    }
  }

  lemma NameOf(d: seq<byte>, at: nat)
    requires at + PARTITION_ENTRY_SIZE <= |d|
    ensures EntryOf(d, at).name == NameFrom(d[at + NAME_OFFSET..at + NAME_OFFSET + MAX_GPT_NAME_SIZE], 0)
  {
  }

  /** Only LBA fields of slots before `stop` differ. */
  ghost predicate ChangedBelow(was: seq<byte>, d: seq<byte>, start: nat, es: nat, stop: nat)
    requires 0 < es
  {
    |d| == |was| && forall k :: 0 <= k < |d| && !(InLbas(k, start, es) && k < stop) ==> d[k] == was[k]
  }

  lemma WalkStarts(was: seq<byte>, start: nat, size: nat, es: nat, req: Request, end: nat)
    requires Fits(was, start, size, es)
    ensures Walking(was, was, start, start, size, es, req, end, false, 0, [])
  {
    hide EntryOf, Succeeds, Changed, InLbas, Entries, EndOf;
  }

  lemma Outcome(was: seq<byte>, d: seq<byte>, start: nat, at: nat, size: nat, es: nat, req: Request, end: nat,
                found: bool, pre: nat, done: seq<Entry>, ok: bool)
    requires Walking(was, d, start, at, size, es, req, end, found, pre, done)
    requires Fits(was, at, size, es)
    requires var rest := Entries(was, at, size, es);
      if ok then rest == []
          else !RestSucceeds(rest, found, req, pre, end) && RestChanged(rest, found, req, pre, end) == rest
    ensures Fits(was, start, size, es) && Edited(was, d, start, size, es, req, end, ok)
  {
    hide EntryOf, Succeeds, Changed, InLbas, EndOf, Entries;
    if ok {
      NothingLeft(found, req, pre, end);
    }
    WalkOver(was, d, start, at, size, es, req, end, found, pre, done);
  }

  lemma NothingLeft(found: bool, req: Request, pre: nat, end: nat)
    ensures RestSucceeds([], found, req, pre, end) && RestChanged([], found, req, pre, end) == []
  {
  }
}
