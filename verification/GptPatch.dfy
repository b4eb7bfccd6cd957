/** UfsPatchGptHeader and EmmcPatchGptHeader (services/ptable_parse/ufs_ptable.cpp,
    emmc_ptable.cpp): a table made for another device is fitted to this one and sealed again. */
module GptPatch {
  import opened Bits
  import opened Device
  import opened LittleEndian
  import opened Crc32
  import opened GptHeaders

  const DEFAULT_SECTOR_NUM := 4 * 1024 * 1024 * 2 - 1
  const GPT_PTABLE_BACKUP_SIZE := 33
  const MIN_EMMC_WRITE_SIZE := 512
  const EMMC_BLOCK_SIZE := 512

  /** Entry `k` of the array, and how many there are before the first that starts with a zero byte. */
  function EntryAt(bs: nat, k: nat): nat {
    2 * bs + PARTITION_ENTRY_SIZE * k
  }

  function CountFrom(d: seq<byte>, bs: nat, k: nat): (t: nat)
    requires 2 * bs <= |d|
    ensures k <= t
    ensures t == k || EntryAt(bs, t - 1) < |d|
    decreases |d| - k
  {
    if EntryAt(bs, k) < |d| && d[EntryAt(bs, k)] != 0 then CountFrom(d, bs, k + 1) else k
  }

  /** The last entry takes the rest of the device if it is USERDATA, or alone and of size zero
      (in units of `unit` bytes, modulo 2^64). */
  predicate Resizes(d: seq<byte>, e: nat, alone: bool, unit: nat)
    requires e + PARTITION_ENTRY_SIZE <= |d|
  {
    var firstLba, lastLba := Get(d, e + FIRST_LBA_OFFSET, 8), Get(d, e + LAST_LBA_OFFSET, 8);
    || NameFrom(d[e + NAME_OFFSET..e + NAME_OFFSET + MAX_GPT_NAME_SIZE], 0) == USERDATA
    || (alone && SizeOf(firstLba, lastLba, unit) == 0)
  }

  /** uint64_t arithmetic. */
  function SizeOf(firstLba: nat, lastLba: nat, unit: nat): nat {
    (lastLba - firstLba + 1) % U64 * unit % U64
  }

  /** The header fields that depend on the device. */
  function Fields(d: seq<byte>, bs: nat, backup: nat, last: nat): (r: seq<byte>)
    requires GPT_CRC_LEN <= bs && 2 * bs <= |d|
    ensures |r| == |d|
  {
    Put(Put(d, bs + BACKUP_HEADER_OFFSET, backup, 8), bs + LAST_USABLE_LBA_OFFSET, last, 8)
  }

  function Resized(d: seq<byte>, bs: nat, t: nat, last: nat, unit: nat): (r: seq<byte>)
    requires 0 < t && EntryAt(bs, t) <= |d|
    ensures |r| == |d|
  {
    var e := EntryAt(bs, t - 1);
    if Resizes(d, e, t == 1, unit) then Put(d, e + LAST_LBA_OFFSET, last, 8) else d
  }

  /** Entries do not straddle the end of the buffer: the blocks are 512 or 4096 bytes, the buffer
      32 or 128 KiB. */
  predicate Aligned(d: seq<byte>, bs: nat) {
    LBA_LENGTH <= bs && 2 * bs <= |d| && (|d| - 2 * bs) % PARTITION_ENTRY_SIZE == 0
  }

  function Patched(d: seq<byte>, bs: nat, backup: nat, last: nat, unit: nat): (r: seq<byte>)
    requires Aligned(d, bs) && HasTable(d, bs)
    ensures |r| == |d|
  {
    var f := Fields(d, bs, backup, last);
    var t := CountFrom(f, bs, 0);
    if t == 0 then f
    else
      LastFits(f, bs);
      PatchKeepsTable(d, bs, backup, last, unit);
      Seal(Resized(f, bs, t, last, unit), bs)
  }

  lemma LastFits(d: seq<byte>, bs: nat)
    requires Aligned(d, bs) && 0 < CountFrom(d, bs, 0)
    ensures EntryAt(bs, CountFrom(d, bs, 0)) <= |d|
  {
    var t := CountFrom(d, bs, 0);
    assert EntryAt(bs, t - 1) < |d|;
  }

  lemma PatchKeepsTable(d: seq<byte>, bs: nat, backup: nat, last: nat, unit: nat)
    requires Aligned(d, bs) && HasTable(d, bs)
    ensures var f := Fields(d, bs, backup, last);
      var t := CountFrom(f, bs, 0);
      && HasTable(f, bs) && EntryBytes(f, bs) == EntryBytes(d, bs)
      && (0 < t && EntryAt(bs, t) <= |d| ==>
            HasTable(Resized(f, bs, t, last, unit), bs)
            && EntryBytes(Resized(f, bs, t, last, unit), bs) == EntryBytes(d, bs))
  {
    hide Number, Bytes, Resizes;
    var g := Put(d, bs + BACKUP_HEADER_OFFSET, backup, 8);
    var f := Fields(d, bs, backup, last);
    SameSizes(d, g, bs);
    SameSizes(g, f, bs);
    var t := CountFrom(f, bs, 0);
    if 0 < t && EntryAt(bs, t) <= |d| {
      SameSizes(f, Resized(f, bs, t, last, unit), bs);
    }
  }

  lemma SameSizes(a: seq<byte>, b: seq<byte>, bs: nat)
    requires |a| == |b| && bs + GPT_CRC_LEN <= |a|
    requires forall k :: bs + PARTITION_COUNT_OFFSET <= k < bs + PARTITION_CRC_OFFSET ==> a[k] == b[k]
    ensures EntryBytes(a, bs) == EntryBytes(b, bs)
  {
    assert a[bs + PARTITION_COUNT_OFFSET..bs + PENTRY_SIZE_OFFSET]
        == b[bs + PARTITION_COUNT_OFFSET..bs + PENTRY_SIZE_OFFSET];
    assert a[bs + PENTRY_SIZE_OFFSET..bs + PARTITION_CRC_OFFSET]
        == b[bs + PENTRY_SIZE_OFFSET..bs + PARTITION_CRC_OFFSET];
  }

  // ---------------------------------------------------------------- the methods

  /** What both methods do once the geometry is known. */
  method PatchHeader(data: array<byte>, bs: nat, backup: nat, last: nat, unit: nat)
    requires Aligned(data[..], bs) && HasTable(data[..], bs)
    modifies data
    ensures data[..] == Patched(old(data[..]), bs, backup, last, unit)
  {
    hide Number, Bytes, Seal, HasTable, CountFrom, Resized, EntryBytes, Put;
    ghost var was := data[..];
    PatchKeepsTable(was, bs, backup, last, unit);
    HeaderFits(was, bs);
    PutLongLong(data, bs + BACKUP_HEADER_OFFSET, backup);
    PutLongLong(data, bs + LAST_USABLE_LBA_OFFSET, last);
    ghost var f := data[..];
    var totalPart := CountEntries(data, bs);
    if totalPart == 0 {
      return;
    }
    LastFits(f, bs);
    ResizeLast(data, bs, totalPart, last, unit);
    WriteCrcs(data, bs);
  }

  method CountEntries(data: array<byte>, bs: nat) returns (totalPart: nat)
    requires 2 * bs <= data.Length
    ensures totalPart == CountFrom(data[..], bs, 0)
  {
    totalPart := 0;
    while data.Length - bs - bs > totalPart * PARTITION_ENTRY_SIZE
        && data[2 * bs + totalPart * PARTITION_ENTRY_SIZE] != 0
      invariant CountFrom(data[..], bs, totalPart) == CountFrom(data[..], bs, 0)
      decreases data.Length - totalPart
    {
      totalPart := totalPart + 1;
    }
  }

  lemma HeaderFits(d: seq<byte>, bs: nat)
    requires HasTable(d, bs)
    ensures GPT_CRC_LEN <= bs && 2 * bs <= |d|
  {
  }

  method ResizeLast(data: array<byte>, bs: nat, totalPart: nat, last: nat, unit: nat)
    requires 0 < totalPart && EntryAt(bs, totalPart) <= data.Length
    modifies data
    ensures data[..] == Resized(old(data[..]), bs, totalPart, last, unit)
  {
    hide Number, Put, Or, Shl, NameFrom, SizeOf;
    var d, e := data[..], 2 * bs + (totalPart - 1) * PARTITION_ENTRY_SIZE;
    LlwordIsNumber(d, e + LAST_LBA_OFFSET);
    LlwordIsNumber(d, e + FIRST_LBA_OFFSET);
    var lastLba := GetLlword(d, e + LAST_LBA_OFFSET);
    var firstLba := GetLlword(d, e + FIRST_LBA_OFFSET);
    var partitionSize := SizeOf(firstLba, lastLba, unit);
    var partitionName := ParsePartitionName(d[e + NAME_OFFSET..e + NAME_OFFSET + MAX_GPT_NAME_SIZE]);
    if partitionName == USERDATA || (totalPart == 1 && partitionSize == 0) {
      PutLongLong(data, e + LAST_LBA_OFFSET, last);
    }
  }

  function UfsSectors(lunSize: nat, deviceBlockSize: nat): nat
    requires 0 < deviceBlockSize
  {
    if lunSize / deviceBlockSize == 0 then DEFAULT_SECTOR_NUM else lunSize / deviceBlockSize
  }

  /** The last usable sector, modulo 2^64: the backup table is kept free, and the reserve if there
      is room for it. */
  function UfsLastUsable(sectors: nat, hasBackup: bool, reserved: nat): nat {
    var last := (U64 + sectors - 1 - if hasBackup then GPT_PTABLE_BACKUP_SIZE else 0) % U64;
    if reserved != 0 && last > reserved then last - reserved else last
  }

  /** UfsPtable::UfsPatchGptHeader. */
  method UfsPatchGptHeader(data: array<byte>, writeDataLen: nat, lunSize: nat, bs: nat, deviceBlockSize: nat,
                           hasBackup: bool, reserved: nat)
    requires writeDataLen <= data.Length
    requires 0 < bs && 2 * bs <= writeDataLen ==> Aligned(data[..], bs) && HasTable(data[..], bs)
    modifies data
    ensures if 0 < bs && 2 * bs <= writeDataLen && lunSize != 0 && deviceBlockSize != 0 then
              var sectors := UfsSectors(lunSize, deviceBlockSize);
              data[..] == Patched(old(data[..]), bs, sectors - 1, UfsLastUsable(sectors, hasBackup, reserved),
                  deviceBlockSize)
            else data[..] == old(data[..])
  {
    hide Patched, HasTable, EntryBytes, Aligned;
    if bs == 0 || writeDataLen < 2 * bs || lunSize == 0 || deviceBlockSize == 0 {
      return;
    }
    var cardSizeSector := lunSize / deviceBlockSize;
    if cardSizeSector == 0 {
      cardSizeSector := DEFAULT_SECTOR_NUM;
    }
    var lastUsableSector := (U64 + cardSizeSector - 1 - if hasBackup then GPT_PTABLE_BACKUP_SIZE else 0) % U64;
    if reserved != 0 && lastUsableSector > reserved {
      lastUsableSector := lastUsableSector - reserved;
    }
    PatchHeader(data, bs, cardSizeSector - 1, lastUsableSector, deviceBlockSize);
  }

  /** EmmcPtable::EmmcPatchGptHeader. */
  method EmmcPatchGptHeader(data: array<byte>, writeDataLen: nat, bs: nat, devDensity: nat)
    requires writeDataLen <= data.Length
    requires 0 < bs && 2 * bs <= writeDataLen ==> Aligned(data[..], bs) && HasTable(data[..], bs)
    modifies data
    ensures !(0 < bs && 2 * bs <= writeDataLen) ==> data[..] == old(data[..])
    ensures 0 < bs && 2 * bs <= writeDataLen ==>
              forall last :: 0 <= last < U64 && (last + 1) % U64 == devDensity / EMMC_BLOCK_SIZE % U64 ==>
                data[..] == Patched(old(data[..]), bs, last, last, MIN_EMMC_WRITE_SIZE)
  {
    hide Patched, HasTable, EntryBytes, Aligned;
    if bs == 0 || writeDataLen < 2 * bs {
      return;
    }
    var cardSizeSector := devDensity / EMMC_BLOCK_SIZE;
    var last := (U64 + cardSizeSector - 1) % U64;
    PatchHeader(data, bs, last, last, MIN_EMMC_WRITE_SIZE);
  }

  // ---------------------------------------------------------------- what patching achieves

  /** The bytes patching may change: the checksums, the two fields, and the last LBA of the last
      of `t` entries. */
  predicate InPatch(k: int, bs: nat, t: nat) {
    || InCrcs(k, bs)
    || bs + BACKUP_HEADER_OFFSET <= k < bs + BACKUP_HEADER_OFFSET + 8
    || bs + LAST_USABLE_LBA_OFFSET <= k < bs + LAST_USABLE_LBA_OFFSET + 8
    || (0 < t && EntryAt(bs, t - 1) + LAST_LBA_OFFSET <= k < EntryAt(bs, t - 1) + LAST_LBA_OFFSET + 8)
  }

  ghost predicate SameElsewhere(d: seq<byte>, r: seq<byte>, bs: nat, t: nat) {
    |r| == |d| && forall k :: 0 <= k < |d| && !InPatch(k, bs, t) ==> r[k] == d[k]
  }

  lemma PatchFrame(d: seq<byte>, bs: nat, backup: nat, last: nat, unit: nat)
    requires Aligned(d, bs) && HasTable(d, bs)
    ensures SameElsewhere(d, Patched(d, bs, backup, last, unit), bs, CountFrom(d, bs, 0))
  {
    hide Number, Bytes, Seal, HasTable, CountFrom, EntryBytes, Resizes, Resized, Fields, SameElsewhere, SameButCrcs;
    HeaderFits(d, bs);
    var f := Fields(d, bs, backup, last);
    FieldsFrame(d, bs, backup, last);
    var t := CountFrom(f, bs, 0);
    if 0 < t {
      LastFits(f, bs);
      PatchKeepsTable(d, bs, backup, last, unit);
      var g := Resized(f, bs, t, last, unit);
      SealKeeps(g, bs);
      ResizedFrame(d, f, Seal(g, bs), bs, t, last, unit);
    }
  }

  lemma FieldsFrame(d: seq<byte>, bs: nat, backup: nat, last: nat)
    requires GPT_CRC_LEN <= bs && 2 * bs <= |d|
    ensures var f := Fields(d, bs, backup, last);
      CountFrom(f, bs, 0) == CountFrom(d, bs, 0) && SameElsewhere(d, f, bs, CountFrom(d, bs, 0))
  {
    hide Put, CountFrom;
    var f := Fields(d, bs, backup, last);
    var g := Put(d, bs + BACKUP_HEADER_OFFSET, backup, 8);
    forall k | 0 <= k < |d| && !InPatch(k, bs, 0) ensures f[k] == d[k] {
      PutKeeps(d, bs + BACKUP_HEADER_OFFSET, backup, k);
      PutKeeps(g, bs + LAST_USABLE_LBA_OFFSET, last, k);
    }
    SameCount(d, f, bs, 0);
  }

  lemma PutKeeps(s: seq<byte>, at: nat, y: nat, k: nat)
    requires at + 8 <= |s| && k < |s| && !(at <= k < at + 8)
    ensures Put(s, at, y, 8)[k] == s[k]
  {
    hide Bytes;
  }

  lemma ResizedFrame(d: seq<byte>, f: seq<byte>, r: seq<byte>, bs: nat, t: nat, last: nat, unit: nat)
    requires 0 < t && EntryAt(bs, t) <= |f| && SameElsewhere(d, f, bs, t)
    requires SameButCrcs(Resized(f, bs, t, last, unit), r, bs)
    ensures SameElsewhere(d, r, bs, t)
  {
    hide Bytes, Resizes;
    var g := Resized(f, bs, t, last, unit);
    forall k | 0 <= k < |d| && !InPatch(k, bs, t) ensures r[k] == d[k] {
      assert g[k] == f[k];
    }
  }

  lemma {:induction false} SameCount(a: seq<byte>, b: seq<byte>, bs: nat, k: nat)
    requires |a| == |b| && 2 * bs <= |a|
    requires forall i: nat :: k <= i && EntryAt(bs, i) < |a| ==> a[EntryAt(bs, i)] == b[EntryAt(bs, i)]
    ensures CountFrom(a, bs, k) == CountFrom(b, bs, k)
    decreases |a| - k
  {
    if EntryAt(bs, k) < |a| {
      SameCount(a, b, bs, k + 1);
    }
  }

  /** A patched table with at least one entry has both checksums right. */
  lemma PatchSeals(d: seq<byte>, bs: nat, backup: nat, last: nat, unit: nat)
    requires Aligned(d, bs) && HasTable(d, bs) && 0 < CountFrom(d, bs, 0)
    ensures var r := Patched(d, bs, backup, last, unit); HasTable(r, bs) && Sealed(r, bs)
  {
    hide Number, Bytes, Seal, Sealed, HasTable, CountFrom, EntryBytes, Resizes, Resized;
    HeaderFits(d, bs);
    var f := Fields(d, bs, backup, last);
    SameCount(d, f, bs, 0);
    LastFits(f, bs);
    PatchKeepsTable(d, bs, backup, last, unit);
    SealSeals(Resized(f, bs, CountFrom(f, bs, 0), last, unit), bs);
  }

  lemma PatchSetsFields(d: seq<byte>, bs: nat, backup: nat, last: nat, unit: nat)
    requires Aligned(d, bs) && HasTable(d, bs)
    ensures var r := Patched(d, bs, backup, last, unit); Fields(r, bs, backup, last) == r
  {
    hide Number, Bytes, Seal, HasTable, CountFrom, EntryBytes, Resizes;
    HeaderFits(d, bs);
    var f := Fields(d, bs, backup, last);
    var t := CountFrom(f, bs, 0);
    FieldsTwice(d, f, bs, backup, last);
    if 0 < t {
      LastFits(f, bs);
      PatchKeepsTable(d, bs, backup, last, unit);
      var g := Resized(f, bs, t, last, unit);
      SealKeeps(g, bs);
      FieldsTwice(d, Seal(g, bs), bs, backup, last);
    }
  }

  lemma FieldsTwice(d: seq<byte>, r: seq<byte>, bs: nat, backup: nat, last: nat)
    requires GPT_CRC_LEN <= bs && 2 * bs <= |d| == |r|
    requires var f := Fields(d, bs, backup, last);
      && (forall k :: bs + BACKUP_HEADER_OFFSET <= k < bs + BACKUP_HEADER_OFFSET + 8 ==> r[k] == f[k])
      && (forall k :: bs + LAST_USABLE_LBA_OFFSET <= k < bs + LAST_USABLE_LBA_OFFSET + 8 ==> r[k] == f[k])
    ensures Fields(r, bs, backup, last) == r
  {
    hide Number, Bytes;
    PutAgain(r, bs + BACKUP_HEADER_OFFSET, backup);
    PutAgain(r, bs + LAST_USABLE_LBA_OFFSET, last);
  }

  lemma PutAgain(r: seq<byte>, at: nat, y: nat)
    requires at + 8 <= |r| && forall k :: at <= k < at + 8 ==> r[k] == Bytes(y, 8)[k - at]
    ensures Put(r, at, y, 8) == r
  {
    hide Bytes;
  }

  /** Entry by entry: the array holds the entries up to the first whose first byte is zero. */
  lemma {:induction false} CountIs(d: seq<byte>, bs: nat, k: nat)
    requires 2 * bs <= |d|
    ensures var t := CountFrom(d, bs, k);
      && (forall i :: k <= i < t ==> EntryAt(bs, i) < |d| && d[EntryAt(bs, i)] != 0)
      && (EntryAt(bs, t) < |d| ==> d[EntryAt(bs, t)] == 0)
    decreases |d| - k
  {
    if EntryAt(bs, k) < |d| && d[EntryAt(bs, k)] != 0 {
      CountIs(d, bs, k + 1);
    }
  }

  /** An entry of no bytes: the number of sectors times their size is 0 modulo 2^64. */
  predicate OfNoBytes(firstLba: nat, lastLba: nat, unit: nat) {
    (lastLba - firstLba + 1) * unit % U64 == 0
  }

  lemma SizeZero(firstLba: nat, lastLba: nat, unit: nat)
    ensures SizeOf(firstLba, lastLba, unit) == 0 <==> OfNoBytes(firstLba, lastLba, unit)
  {
    var x := lastLba - firstLba + 1;
    var q, r := x / U64, x % U64;
    assert x * unit == U64 * (q * unit) + r * unit;
    AddMultiple(r * unit, q * unit);
  }

  lemma AddMultiple(x: int, q: int)
    ensures (U64 * q + x) % U64 == x % U64
  {
  }

  /** The entry at `e` of `r` is that of `d` with the same first LBA; its last LBA is `last` if it
      is called USERDATA, or is alone and of no bytes, and otherwise as before. */
  predicate Fitted(d: seq<byte>, r: seq<byte>, e: nat, alone: bool, last: nat, unit: nat) {
    && e + PARTITION_ENTRY_SIZE <= |d| == |r|
    && var firstLba, lastLba := Get(d, e + FIRST_LBA_OFFSET, 8), Get(d, e + LAST_LBA_OFFSET, 8);
    var name := NameFrom(d[e + NAME_OFFSET..e + NAME_OFFSET + MAX_GPT_NAME_SIZE], 0);
    && Get(r, e + FIRST_LBA_OFFSET, 8) == firstLba
    && Get(r, e + LAST_LBA_OFFSET, 8)
         == if name == USERDATA || (alone && OfNoBytes(firstLba, lastLba, unit)) then last else lastLba
  }

  /** What is read from a patched table: the device's values in the header, and the last entry
      fitted to the device. */
  lemma PatchedReads(d: seq<byte>, bs: nat, backup: nat, last: nat, unit: nat)
    requires Aligned(d, bs) && HasTable(d, bs) && 0 < CountFrom(d, bs, 0) && backup < U64 && last < U64
    ensures var r, t := Patched(d, bs, backup, last, unit), CountFrom(d, bs, 0);
      && Get(r, bs + BACKUP_HEADER_OFFSET, 8) == backup && Get(r, bs + LAST_USABLE_LBA_OFFSET, 8) == last
      && Fitted(d, r, EntryAt(bs, t - 1), t == 1, last, unit)
  {
    hide Number, Bytes, Seal, HasTable, CountFrom, EntryBytes, Resized, Put, Get, Fields, SameElsewhere, Fitted,
        SameButCrcs;
    HeaderFits(d, bs);
    var r, f, t := Patched(d, bs, backup, last, unit), Fields(d, bs, backup, last), CountFrom(d, bs, 0);
    FieldsFrame(d, bs, backup, last);
    LastFits(f, bs);
    PatchKeepsTable(d, bs, backup, last, unit);
    FieldsRead(d, bs, backup, last);
    var g := Resized(f, bs, t, last, unit);
    SealKeeps(g, bs);
    ResizedReads(d, f, bs, t, last, unit);
    ReadThrough(g, r, bs, bs + BACKUP_HEADER_OFFSET);
    ReadThrough(g, r, bs, bs + LAST_USABLE_LBA_OFFSET);
    FittedThrough(d, g, r, bs, t, last, unit);
  }

  lemma FittedThrough(d: seq<byte>, g: seq<byte>, r: seq<byte>, bs: nat, t: nat, last: nat, unit: nat)
    requires 0 < t && SameButCrcs(g, r, bs) && GPT_CRC_LEN <= bs
    requires Fitted(d, g, EntryAt(bs, t - 1), t == 1, last, unit)
    ensures Fitted(d, r, EntryAt(bs, t - 1), t == 1, last, unit)
  {
    hide Get, NameFrom, OfNoBytes;
    ReadThrough(g, r, bs, EntryAt(bs, t - 1) + FIRST_LBA_OFFSET);
    ReadThrough(g, r, bs, EntryAt(bs, t - 1) + LAST_LBA_OFFSET);
  }

  /** Reading eight bytes that are not in a checksum. */
  lemma ReadThrough(a: seq<byte>, b: seq<byte>, bs: nat, at: nat)
    requires SameButCrcs(a, b, bs) && at + 8 <= |a| && forall k :: at <= k < at + 8 ==> !InCrcs(k, bs)
    ensures Get(b, at, 8) == Get(a, at, 8)
  {
    hide Number;
    assert a[at..at + 8] == b[at..at + 8];
  }

  lemma FieldsRead(d: seq<byte>, bs: nat, backup: nat, last: nat)
    requires GPT_CRC_LEN <= bs && 2 * bs <= |d| && backup < U64 && last < U64
    ensures Get(Fields(d, bs, backup, last), bs + BACKUP_HEADER_OFFSET, 8) == backup
    ensures Get(Fields(d, bs, backup, last), bs + LAST_USABLE_LBA_OFFSET, 8) == last
    ensures forall k :: 2 * bs <= k < |d| ==> Fields(d, bs, backup, last)[k] == d[k]
  {
    hide Number, Bytes, Get;
    var p := Put(d, bs + BACKUP_HEADER_OFFSET, backup, 8);
    Widths();
    GetPut(d, bs + BACKUP_HEADER_OFFSET, backup, 8);
    GetElsewhere(p, bs + LAST_USABLE_LBA_OFFSET, last, 8, bs + BACKUP_HEADER_OFFSET, 8);
    GetPut(p, bs + LAST_USABLE_LBA_OFFSET, last, 8);
  }

  lemma ResizedReads(d: seq<byte>, f: seq<byte>, bs: nat, t: nat, last: nat, unit: nat)
    requires 0 < t && |f| == |d| && EntryAt(bs, t) <= |d| && last < U64 && GPT_CRC_LEN <= bs
    requires forall k :: 2 * bs <= k < |d| ==> f[k] == d[k]
    ensures var g := Resized(f, bs, t, last, unit);
      && Fitted(d, g, EntryAt(bs, t - 1), t == 1, last, unit)
      && forall at :: 0 <= at <= 2 * bs - 8 ==> Get(g, at, 8) == Get(f, at, 8)
  {
    hide Number, Bytes, NameFrom, OfNoBytes, SizeOf, Put, Get;
    var e := EntryAt(bs, t - 1);
    SizeZero(Get(d, e + FIRST_LBA_OFFSET, 8), Get(d, e + LAST_LBA_OFFSET, 8), unit);
    EntryReads(d, f, e);
    if Resizes(f, e, t == 1, unit) {
      Widths();
      GetPut(f, e + LAST_LBA_OFFSET, last, 8);
      GetElsewhere(f, e + LAST_LBA_OFFSET, last, 8, e + FIRST_LBA_OFFSET, 8);
      forall at | 0 <= at <= 2 * bs - 8 ensures Get(Put(f, e + LAST_LBA_OFFSET, last, 8), at, 8) == Get(f, at, 8) {
        GetElsewhere(f, e + LAST_LBA_OFFSET, last, 8, at, 8);
      }
    }
  }

  lemma EntryReads(d: seq<byte>, f: seq<byte>, e: nat)
    requires e + PARTITION_ENTRY_SIZE <= |d| == |f| && forall k :: e <= k < |d| ==> f[k] == d[k]
    ensures Get(f, e + FIRST_LBA_OFFSET, 8) == Get(d, e + FIRST_LBA_OFFSET, 8)
    ensures Get(f, e + LAST_LBA_OFFSET, 8) == Get(d, e + LAST_LBA_OFFSET, 8)
    ensures f[e + NAME_OFFSET..e + NAME_OFFSET + MAX_GPT_NAME_SIZE]
         == d[e + NAME_OFFSET..e + NAME_OFFSET + MAX_GPT_NAME_SIZE]
  {
    hide Number;
    assert f[e + FIRST_LBA_OFFSET..e + FIRST_LBA_OFFSET + 8] == d[e + FIRST_LBA_OFFSET..e + FIRST_LBA_OFFSET + 8];
    assert f[e + LAST_LBA_OFFSET..e + LAST_LBA_OFFSET + 8] == d[e + LAST_LBA_OFFSET..e + LAST_LBA_OFFSET + 8];
  }

  /** Patching again changes nothing. */
  lemma PatchTwice(d: seq<byte>, bs: nat, backup: nat, last: nat, unit: nat)
    requires Aligned(d, bs) && HasTable(d, bs)
    ensures var r := Patched(d, bs, backup, last, unit); HasTable(r, bs) && Patched(r, bs, backup, last, unit) == r
  {
    hide Number, Put, Seal, HasTable, CountFrom, EntryBytes, Resizes, Resized, Sealed;
    HeaderFits(d, bs);
    var r, f := Patched(d, bs, backup, last, unit), Fields(d, bs, backup, last);
    var t := CountFrom(f, bs, 0);
    PatchSetsFields(d, bs, backup, last, unit);
    PatchKeepsTable(d, bs, backup, last, unit);
    PatchFrame(d, bs, backup, last, unit);
    FieldsFrame(d, bs, backup, last);
    SameCount(d, r, bs, 0);
    if 0 < t {
      LastFits(f, bs);
      PatchSeals(d, bs, backup, last, unit);
      var g := Resized(f, bs, t, last, unit);
      SealKeeps(g, bs);
      ResizedTwice(f, r, bs, t, last, unit);
      SealedIff(r, bs);
    }
  }

  lemma ResizedTwice(f: seq<byte>, r: seq<byte>, bs: nat, t: nat, last: nat, unit: nat)
    requires 0 < t && EntryAt(bs, t) <= |f| && SameButCrcs(Resized(f, bs, t, last, unit), r, bs) && GPT_CRC_LEN <= bs
    ensures Resized(r, bs, t, last, unit) == r
  {
    hide Number, Bytes, Resizes;
    var e := EntryAt(bs, t - 1);
    if Resizes(f, e, t == 1, unit) {
      PutAgain(r, e + LAST_LBA_OFFSET, last);
    } else {
      ResizesSame(f, r, e, t == 1, unit);
    }
  }

  lemma ResizesSame(f: seq<byte>, r: seq<byte>, e: nat, alone: bool, unit: nat)
    requires e + PARTITION_ENTRY_SIZE <= |f| == |r| && forall k :: e <= k < e + PARTITION_ENTRY_SIZE ==> r[k] == f[k]
    ensures Resizes(r, e, alone, unit) == Resizes(f, e, alone, unit)
  {
    hide Number, NameFrom;
    assert r[e + FIRST_LBA_OFFSET..e + FIRST_LBA_OFFSET + 8] == f[e + FIRST_LBA_OFFSET..e + FIRST_LBA_OFFSET + 8];
    assert r[e + LAST_LBA_OFFSET..e + LAST_LBA_OFFSET + 8] == f[e + LAST_LBA_OFFSET..e + LAST_LBA_OFFSET + 8];
    assert r[e + NAME_OFFSET..e + NAME_OFFSET + MAX_GPT_NAME_SIZE]
        == f[e + NAME_OFFSET..e + NAME_OFFSET + MAX_GPT_NAME_SIZE];
  }

  // ---------------------------------------------------------------- patched tables pass the check

  /** What the original header must say for the patched table to pass. */
  predicate HeaderAllows(d: seq<byte>, c: CheckInputs, bs: nat, writeDeviceLunSize: nat)
    requires LBA_LENGTH <= bs && 2 * bs <= |d|
  {
    var info := Info(d[bs..2 * bs]);
    && writeDeviceLunSize <= c.len && c.lunNum <= PTABLE_MAX_LUN_NUMBERS && info.firstUsableLba <= c.lbaNum
    && info.entrySize == PARTITION_ENTRY_SIZE && info.maxCount <= 0x4000 / PARTITION_ENTRY_SIZE
    && Get(d, bs + GPT_HEADER_OFFSET, 8) % U32 == 1
  }

  /** And the device: its size, and the last usable LBA, are compared as 32-bit numbers. */
  predicate Checkable(d: seq<byte>, c: CheckInputs, bs: nat, writeDeviceLunSize: nat, last: nat)
    requires LBA_LENGTH <= bs && 2 * bs <= |d|
  {
    HeaderAllows(d, c, bs, writeDeviceLunSize) && c.lbaNum != 0 && last % U32 <= c.lbaNum
  }

  /** A table whose header is 92 bytes long and puts the entries at the third block, with at least
      one entry, passes the whole check once patched, whatever its checksums were, exactly if the
      LBAs, the entry size and the count are within what the check allows. */
  lemma PatchThenCheck(d: seq<byte>, bs: nat, backup: nat, last: nat, unit: nat, c: CheckInputs,
      writeDeviceLunSize: nat)
    requires Aligned(d, bs) && HasTable(d, bs) && 0 < CountFrom(d, bs, 0) && last < U64 && 2 * bs < U32
    requires Get(d, bs + HEADER_SIZE_OFFSET, 4) == GPT_CRC_LEN && Get(d, bs + PARTITION_ENTRIES_OFFSET, 8) % U32 == 2
    requires 2 * bs + EntryBytes(d, bs) <= c.len <= |d| && (c.ufs ==> c.deviceBlockSize == bs)
    ensures var r := Patched(d, bs, backup, last, unit);
      TablePasses(r, c, bs, writeDeviceLunSize, Info(r[bs..2 * bs])) <==> Checkable(d, c, bs, writeDeviceLunSize, last)
  {
    hide Number, Bytes, Patched, Sealed, HasTable, CountFrom, Crc, HeaderCrc, EntriesCrc, CheckedCrc, Info;
    var r := Patched(d, bs, backup, last, unit);
    var header := r[bs..2 * bs];
    HeaderFits(d, bs);
    PatchSeals(d, bs, backup, last, unit);
    PatchFrame(d, bs, backup, last, unit);
    PatchSetsFields(d, bs, backup, last, unit);
    PatchedHeader(d, r, bs, backup, last, CountFrom(d, bs, 0));
    SealedHeader(r, bs);
    SameSizes(d, r, bs);
    if TablePasses(r, c, bs, writeDeviceLunSize, Info(header)) || Checkable(d, c, bs, writeDeviceLunSize, last) {
      EntriesChecked(r, c, bs);
    }
  }

  lemma PatchedHeader(d: seq<byte>, r: seq<byte>, bs: nat, backup: nat, last: nat, t: nat)
    requires LBA_LENGTH <= bs && 2 * bs <= |d| && SameElsewhere(d, r, bs, t) && Fields(r, bs, backup, last) == r
    requires last < U64
    ensures Info(r[bs..2 * bs]) == Info(d[bs..2 * bs])
    ensures Get(r[bs..2 * bs], LAST_USABLE_LBA_OFFSET, 8) == last
    ensures Get(r[bs..2 * bs], GPT_HEADER_OFFSET, 8) == Get(d, bs + GPT_HEADER_OFFSET, 8)
    ensures Get(r[bs..2 * bs], PARTITION_ENTRIES_OFFSET, 8) == Get(d, bs + PARTITION_ENTRIES_OFFSET, 8)
    ensures Info(d[bs..2 * bs]).headerSize == Get(d, bs + HEADER_SIZE_OFFSET, 4)
  {
    hide Number, Bytes;
    var h, o := r[bs..2 * bs], d[bs..2 * bs];
    SameSlice(d, r, bs, t, HEADER_SIZE_OFFSET, 4);
    SameSlice(d, r, bs, t, GPT_HEADER_OFFSET, 8);
    SameSlice(d, r, bs, t, FIRST_USABLE_LBA_OFFSET, 8);
    SameSlice(d, r, bs, t, PARTITION_ENTRIES_OFFSET, 8);
    SameSlice(d, r, bs, t, PARTITION_COUNT_OFFSET, 4);
    SameSlice(d, r, bs, t, PENTRY_SIZE_OFFSET, 4);
    Widths();
    var g := Put(r, bs + BACKUP_HEADER_OFFSET, backup, 8);
    GetPut(g, bs + LAST_USABLE_LBA_OFFSET, last, 8);
    assert h[LAST_USABLE_LBA_OFFSET..LAST_USABLE_LBA_OFFSET + 8]
        == r[bs + LAST_USABLE_LBA_OFFSET..bs + LAST_USABLE_LBA_OFFSET + 8];
  }

  /** A header field that patching leaves alone reads the same from the block or from the table. */
  lemma SameSlice(d: seq<byte>, r: seq<byte>, bs: nat, t: nat, at: nat, n: nat)
    requires LBA_LENGTH <= bs && 2 * bs <= |d| && SameElsewhere(d, r, bs, t)
    requires || at + n <= HEADER_CRC_OFFSET
             || HEADER_CRC_OFFSET + 4 <= at <= at + n <= BACKUP_HEADER_OFFSET
             || BACKUP_HEADER_OFFSET + 8 <= at <= at + n <= LAST_USABLE_LBA_OFFSET
             || LAST_USABLE_LBA_OFFSET + 8 <= at <= at + n <= PARTITION_CRC_OFFSET
    ensures r[bs..2 * bs][at..at + n] == d[bs..2 * bs][at..at + n] == d[bs + at..bs + at + n]
  {
    forall k | bs + at <= k < bs + at + n ensures r[k] == d[k] {
      assert !InPatch(k, bs, t);
    }
    assert r[bs + at..bs + at + n] == d[bs + at..bs + at + n];
    SliceOfBlock(r, bs, at, n);
    SliceOfBlock(d, bs, at, n);
  }

  lemma SliceOfBlock(r: seq<byte>, bs: nat, at: nat, n: nat)
    requires 2 * bs <= |r| && at + n <= bs
    ensures r[bs..2 * bs][at..at + n] == r[bs + at..bs + at + n]
  {
    var a, b := r[bs..2 * bs][at..at + n], r[bs + at..bs + at + n];
    forall k | 0 <= k < n ensures a[k] == b[k] {
      assert a[k] == r[bs..2 * bs][at + k] == r[bs + (at + k)];
    }
  }

  /** The header's own checksum, as CheckGptHeader computes it on a copy of the block. */
  lemma SealedHeader(r: seq<byte>, bs: nat)
    requires HasTable(r, bs) && Sealed(r, bs)
    ensures HeaderCrc(r[bs..2 * bs], 0, GPT_CRC_LEN) == Get(r[bs..2 * bs], HEADER_CRC_OFFSET, 4)
    ensures Get(r[bs..2 * bs], PARTITION_CRC_OFFSET, 4) == EntriesCrc(r, bs)
  {
    hide Number, Bytes, Crc, EntriesCrc;
    var h := r[bs..2 * bs];
    PutInBlock(r, bs, HEADER_CRC_OFFSET, 0, GPT_CRC_LEN);
    assert h[HEADER_CRC_OFFSET..HEADER_CRC_OFFSET + 4] == r[bs + HEADER_CRC_OFFSET..bs + HEADER_CRC_OFFSET + 4];
    assert h[PARTITION_CRC_OFFSET..PARTITION_CRC_OFFSET + 4]
        == r[bs + PARTITION_CRC_OFFSET..bs + PARTITION_CRC_OFFSET + 4];
  }

  lemma PutByte(s: seq<byte>, at: nat, y: nat, n: nat, k: nat)
    requires at + n <= |s| && k < |s|
    ensures Put(s, at, y, n)[k] == if at <= k < at + n then Bytes(y, n)[k - at] else s[k]
  {
  }

  lemma PutInBlock(r: seq<byte>, bs: nat, at: nat, y: nat, n: nat)
    requires 2 * bs <= |r| && at + 4 <= n <= bs
    ensures Put(r[bs..2 * bs], at, y, 4)[0..n] == Put(r, bs + at, y, 4)[bs..bs + n]
  {
    hide Bytes;
    var p, q := Put(r[bs..2 * bs], at, y, 4), Put(r, bs + at, y, 4);
    forall k | 0 <= k < n ensures p[k] == q[bs..bs + n][k] {
      assert q[bs..bs + n][k] == q[bs + k];
      PutByte(r[bs..2 * bs], at, y, 4, k);
      PutByte(r, bs + at, y, 4, bs + k);
      assert r[bs..2 * bs][k] == r[bs + k];
    }
    assert p[0..n] == q[bs..bs + n];
  }

  /** The entry array's checksum, as GetGptEntryCrc computes it. */
  lemma EntriesChecked(r: seq<byte>, c: CheckInputs, bs: nat)
    requires HasTable(r, bs) && LBA_LENGTH <= bs && 2 * bs < U32 && 2 * bs + EntryBytes(r, bs) <= c.len <= |r|
    requires c.ufs ==> c.deviceBlockSize == bs
    requires Info(r[bs..2 * bs]).entrySize == PARTITION_ENTRY_SIZE
    requires Info(r[bs..2 * bs]).maxCount <= 0x4000 / PARTITION_ENTRY_SIZE
    ensures var info := Info(r[bs..2 * bs]);
      CheckedCrc(r, c, 2 * bs % U32, info.maxCount * info.entrySize) == EntriesCrc(r, bs)
  {
    hide Number, Crc;
    SliceOfBlock(r, bs, PARTITION_COUNT_OFFSET, 4);
    SliceOfBlock(r, bs, PENTRY_SIZE_OFFSET, 4);
  }

  /** On a UFS unit of more than 33 and fewer than 2^32 sectors, backup table and reserve or not,
      the geometry never fails the check. */
  lemma UfsPatchThenCheck(d: seq<byte>, bs: nat, lunSize: nat, hasBackup: bool, reserved: nat, c: CheckInputs,
                          writeDeviceLunSize: nat)
    requires Aligned(d, bs) && HasTable(d, bs) && 0 < CountFrom(d, bs, 0) && 2 * bs < U32
    requires Get(d, bs + HEADER_SIZE_OFFSET, 4) == GPT_CRC_LEN && Get(d, bs + PARTITION_ENTRIES_OFFSET, 8) % U32 == 2
    requires 2 * bs + EntryBytes(d, bs) <= c.len <= |d| && c.deviceBlockSize == bs
    requires GPT_PTABLE_BACKUP_SIZE < lunSize / bs < U32 && c.lbaNum == lunSize / bs % U32
    ensures var sectors := UfsSectors(lunSize, bs);
      var r := Patched(d, bs, sectors - 1, UfsLastUsable(sectors, hasBackup, reserved), bs);
      TablePasses(r, c, bs, writeDeviceLunSize, Info(r[bs..2 * bs])) <==> HeaderAllows(d, c, bs, writeDeviceLunSize)
  {
    hide Patched, TablePasses, HasTable, CountFrom, Info, UfsLastUsable, UfsSectors, EntryBytes, Get, HeaderAllows;
    UfsSectorsOf(lunSize, bs);
    UfsUnitChecks(d, bs, UfsSectors(lunSize, bs), hasBackup, reserved, c, writeDeviceLunSize);
  }

  lemma UfsSectorsOf(lunSize: nat, bs: nat)
    requires 0 < bs && 0 < lunSize / bs
    ensures UfsSectors(lunSize, bs) == lunSize / bs
  {
  }

  /** The same, told by the number of sectors. */
  lemma UfsUnitChecks(d: seq<byte>, bs: nat, sectors: nat, hasBackup: bool, reserved: nat, c: CheckInputs,
                      writeDeviceLunSize: nat)
    requires Aligned(d, bs) && HasTable(d, bs) && 0 < CountFrom(d, bs, 0) && 2 * bs < U32
    requires Get(d, bs + HEADER_SIZE_OFFSET, 4) == GPT_CRC_LEN && Get(d, bs + PARTITION_ENTRIES_OFFSET, 8) % U32 == 2
    requires 2 * bs + EntryBytes(d, bs) <= c.len <= |d| && c.deviceBlockSize == bs
    requires GPT_PTABLE_BACKUP_SIZE < sectors < U32 && c.lbaNum == sectors
    ensures var r := Patched(d, bs, sectors - 1, UfsLastUsable(sectors, hasBackup, reserved), bs);
      TablePasses(r, c, bs, writeDeviceLunSize, Info(r[bs..2 * bs])) <==> HeaderAllows(d, c, bs, writeDeviceLunSize)
  {
    hide Patched, TablePasses, HasTable, CountFrom, Info, UfsLastUsable, EntryBytes, Get, HeaderAllows;
    UfsLastBelow(sectors, hasBackup, reserved);
    PatchThenCheck(d, bs, sectors - 1, UfsLastUsable(sectors, hasBackup, reserved), bs, c, writeDeviceLunSize);
  }

  /** The last usable sector of a unit: in front of the backup table if it has one, which takes the
      33 sectors before the last, and in front of the reserve if there is more room than that. */
  lemma UfsLastUsableIs(sectors: nat, hasBackup: bool, reserved: nat)
    requires 33 < sectors < U64
    ensures var room := if hasBackup then sectors - 34 else sectors - 1;
      UfsLastUsable(sectors, hasBackup, reserved) == if reserved < room then room - reserved else room
    ensures hasBackup ==> UfsLastUsable(sectors, hasBackup, reserved) + 33 < sectors
  {
  }

  /** So a last entry called USERDATA ends there once the table has been patched for the unit, and
      leaves the backup table and the reserve alone. */
  lemma UfsUserDataEnds(d: seq<byte>, bs: nat, sectors: nat, hasBackup: bool, reserved: nat)
    requires Aligned(d, bs) && HasTable(d, bs) && 0 < CountFrom(d, bs, 0) && 33 < sectors < U64
    requires var e := EntryAt(bs, CountFrom(d, bs, 0) - 1);
      EntryAt(bs, CountFrom(d, bs, 0)) <= |d|
      && NameFrom(d[e + NAME_OFFSET..e + NAME_OFFSET + MAX_GPT_NAME_SIZE], 0) == USERDATA
    ensures var r := Patched(d, bs, sectors - 1, UfsLastUsable(sectors, hasBackup, reserved), bs);
      var end := Get(r, EntryAt(bs, CountFrom(d, bs, 0) - 1) + LAST_LBA_OFFSET, 8);
      && Get(r, bs + BACKUP_HEADER_OFFSET, 8) == sectors - 1 && Get(r, bs + LAST_USABLE_LBA_OFFSET, 8) == end
      && var taken := if hasBackup then 33 else 0;
         end + 1 + taken + (if reserved + taken + 1 < sectors then reserved else 0) == sectors
  {
    hide Patched, HasTable, CountFrom, NameFrom, Get, UfsLastUsable, OfNoBytes;
    UfsLastUsableIs(sectors, hasBackup, reserved);
    LastFits(d, bs);
    PatchedReads(d, bs, sectors - 1, UfsLastUsable(sectors, hasBackup, reserved), bs);
  }

  lemma UfsLastBelow(sectors: nat, hasBackup: bool, reserved: nat)
    requires GPT_PTABLE_BACKUP_SIZE < sectors < U32
    ensures UfsLastUsable(sectors, hasBackup, reserved) < sectors
  {
  }

  /** The same on an eMMC device of at least one and fewer than 2^32 sectors. */
  lemma EmmcPatchThenCheck(d: seq<byte>, devDensity: nat, c: CheckInputs, writeDeviceLunSize: nat)
    requires Aligned(d, EMMC_BLOCK_SIZE) && HasTable(d, EMMC_BLOCK_SIZE) && 0 < CountFrom(d, EMMC_BLOCK_SIZE, 0)
    requires Get(d, EMMC_BLOCK_SIZE + HEADER_SIZE_OFFSET, 4) == GPT_CRC_LEN
    requires Get(d, EMMC_BLOCK_SIZE + PARTITION_ENTRIES_OFFSET, 8) % U32 == 2
    requires 2 * EMMC_BLOCK_SIZE + EntryBytes(d, EMMC_BLOCK_SIZE) <= c.len <= |d| && !c.ufs
    requires 0 < devDensity / EMMC_BLOCK_SIZE < U32 && c.lbaNum == devDensity / MIN_EMMC_WRITE_SIZE % U32
    ensures var last := (U64 + devDensity / EMMC_BLOCK_SIZE - 1) % U64;
      var r := Patched(d, EMMC_BLOCK_SIZE, last, last, MIN_EMMC_WRITE_SIZE);
      var info := Info(r[EMMC_BLOCK_SIZE..2 * EMMC_BLOCK_SIZE]);
      TablePasses(r, c, EMMC_BLOCK_SIZE, writeDeviceLunSize, info) <==>
          HeaderAllows(d, c, EMMC_BLOCK_SIZE, writeDeviceLunSize)
  {
    hide Patched, TablePasses, HasTable, CountFrom, Info, EntryBytes, Get;
    var last := (U64 + devDensity / EMMC_BLOCK_SIZE - 1) % U64;
    PatchThenCheck(d, EMMC_BLOCK_SIZE, last, last, MIN_EMMC_WRITE_SIZE, c, writeDeviceLunSize);
  }
}
