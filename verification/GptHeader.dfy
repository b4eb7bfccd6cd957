/** GPT headers and their two checksums (UEFI 2.10, section 5.3.2), as services/ptable_parse
    patches and checks them: ptable.cpp, ufs_ptable.cpp, emmc_ptable.cpp. A table is a protective
    MBR block, a header block, and the entry array from the third block on. */
module GptHeaders {
  import opened Bits
  import opened Device
  import opened LittleEndian
  import opened Crc32

  // offsets in the header
  const HEADER_SIZE_OFFSET := 12
  const HEADER_CRC_OFFSET := 16
  const GPT_HEADER_OFFSET := 24
  const BACKUP_HEADER_OFFSET := 32
  const FIRST_USABLE_LBA_OFFSET := 40
  const LAST_USABLE_LBA_OFFSET := 48
  const PARTITION_ENTRIES_OFFSET := 72
  const PARTITION_COUNT_OFFSET := 80
  const PENTRY_SIZE_OFFSET := 84
  const PARTITION_CRC_OFFSET := 88
  const GPT_CRC_LEN := 92
  // offsets in an entry
  const FIRST_LBA_OFFSET := 32
  const LAST_LBA_OFFSET := 40
  const NAME_OFFSET := 56
  const MAX_GPT_NAME_SIZE := 72
  const PARTITION_ENTRY_SIZE := 128
  const MAX_PARTITION_NUM := 128
  const LBA_LENGTH := 512
  const EFI_MAGIC_NUMBER: nat := 0x5452415020494645

  // ---------------------------------------------------------------- the two checksums

  /** Length of the entry array, as a uint32_t. */
  function EntryBytes(d: seq<byte>, bs: nat): nat
    requires bs + GPT_CRC_LEN <= |d|
  {
    Get(d, bs + PARTITION_COUNT_OFFSET, 4) * Get(d, bs + PENTRY_SIZE_OFFSET, 4) % U32
  }

  /** The buffer holds the header and the whole entry array. */
  predicate HasTable(d: seq<byte>, bs: nat) {
    GPT_CRC_LEN <= bs && 2 * bs <= |d| && 2 * bs + EntryBytes(d, bs) <= |d|
  }

  function EntriesCrc(d: seq<byte>, bs: nat): nat
    requires HasTable(d, bs)
  {
    Crc(d[2 * bs..2 * bs + EntryBytes(d, bs)])
  }

  /** The checksum of the first `n` bytes of the header at `h`, with its checksum field zero. */
  function HeaderCrc(d: seq<byte>, h: nat, n: nat): nat
    requires h + n <= |d| && GPT_CRC_LEN <= n
  {
    Crc(Put(d, h + HEADER_CRC_OFFSET, 0, 4)[h..h + n])
  }

  predicate Sealed(d: seq<byte>, bs: nat)
    requires HasTable(d, bs)
  {
    && Get(d, bs + PARTITION_CRC_OFFSET, 4) == EntriesCrc(d, bs)
    && Get(d, bs + HEADER_CRC_OFFSET, 4) == HeaderCrc(d, bs, GPT_CRC_LEN)
  }

  /** Both checksums written: first that of the entries, which the other covers. */
  function Seal(d: seq<byte>, bs: nat): (r: seq<byte>)
    requires HasTable(d, bs)
    ensures |r| == |d|
  {
    var e := Put(d, bs + PARTITION_CRC_OFFSET, EntriesCrc(d, bs), 4);
    Put(e, bs + HEADER_CRC_OFFSET, HeaderCrc(e, bs, GPT_CRC_LEN), 4)
  }

  predicate InCrcs(k: int, bs: nat) {
    bs + HEADER_CRC_OFFSET <= k < bs + HEADER_CRC_OFFSET + 4
        || bs + PARTITION_CRC_OFFSET <= k < bs + PARTITION_CRC_OFFSET + 4
  }

  ghost predicate SameButCrcs(a: seq<byte>, b: seq<byte>, bs: nat) {
    |a| == |b| && forall k :: 0 <= k < |a| && !InCrcs(k, bs) ==> a[k] == b[k]
  }

  lemma SameTable(a: seq<byte>, b: seq<byte>, bs: nat)
    requires SameButCrcs(a, b, bs) && HasTable(a, bs)
    ensures HasTable(b, bs) && EntriesCrc(a, bs) == EntriesCrc(b, bs)
  {
    hide Crc, Number;
    SameField(a, b, bs, PARTITION_COUNT_OFFSET);
    SameField(a, b, bs, PENTRY_SIZE_OFFSET);
    var n := EntryBytes(a, bs);
    assert a[2 * bs..2 * bs + n] == b[2 * bs..2 * bs + n];
  }

  lemma SameField(a: seq<byte>, b: seq<byte>, bs: nat, at: nat)
    requires SameButCrcs(a, b, bs) && bs + at + 4 <= |a| && HEADER_CRC_OFFSET + 4 <= at
    requires at + 4 <= PARTITION_CRC_OFFSET
    ensures Get(a, bs + at, 4) == Get(b, bs + at, 4)
  {
    assert a[bs + at..bs + at + 4] == b[bs + at..bs + at + 4];
  }

  /** What the checksums were before does not matter. */
  lemma SealSame(a: seq<byte>, b: seq<byte>, bs: nat)
    requires SameButCrcs(a, b, bs) && HasTable(a, bs)
    ensures HasTable(b, bs) && Seal(a, bs) == Seal(b, bs)
  {
    hide Crc, Number, Bytes;
    SameTable(a, b, bs);
    var c := EntriesCrc(a, bs);
    var e, f := Put(a, bs + PARTITION_CRC_OFFSET, c, 4), Put(b, bs + PARTITION_CRC_OFFSET, c, 4);
    assert Put(e, bs + HEADER_CRC_OFFSET, 0, 4) == Put(f, bs + HEADER_CRC_OFFSET, 0, 4);
    var h := HeaderCrc(e, bs, GPT_CRC_LEN);
    assert Put(e, bs + HEADER_CRC_OFFSET, h, 4) == Put(f, bs + HEADER_CRC_OFFSET, h, 4);
  }

  lemma SealKeeps(d: seq<byte>, bs: nat)
    requires HasTable(d, bs)
    ensures SameButCrcs(d, Seal(d, bs), bs)
  {
    hide Crc, Number, Bytes, EntriesCrc, HeaderCrc;
  }

  lemma SealSeals(d: seq<byte>, bs: nat)
    requires HasTable(d, bs)
    ensures HasTable(Seal(d, bs), bs) && Sealed(Seal(d, bs), bs)
  {
    hide Crc, Number, Bytes;
    var e := Put(d, bs + PARTITION_CRC_OFFSET, EntriesCrc(d, bs), 4);
    var h := HeaderCrc(e, bs, GPT_CRC_LEN);
    var r := Seal(d, bs);
    SealKeeps(d, bs);
    SameTable(d, r, bs);
    CrcFits(d[2 * bs..2 * bs + EntryBytes(d, bs)]);
    CrcFits(Put(e, bs + HEADER_CRC_OFFSET, 0, 4)[bs..bs + GPT_CRC_LEN]);
    GetPut(d, bs + PARTITION_CRC_OFFSET, EntriesCrc(d, bs), 4);
    GetElsewhere(e, bs + HEADER_CRC_OFFSET, h, 4, bs + PARTITION_CRC_OFFSET, 4);
    GetPut(e, bs + HEADER_CRC_OFFSET, h, 4);
    PutPut(e, bs + HEADER_CRC_OFFSET, h, 0, 4);
  }

  lemma CrcFits(s: seq<byte>)
    ensures Crc(s) < Base(4)
  {
    CrcBelow(s);
    Widths();
  }

  lemma PutPut(s: seq<byte>, at: nat, x: nat, y: nat, n: nat)
    requires at + n <= |s|
    ensures Put(Put(s, at, x, n), at, y, n) == Put(s, at, y, n)
  {
  }

  /** A table with both checksums right is one that sealing leaves alone. */
  lemma SealedIff(d: seq<byte>, bs: nat)
    requires HasTable(d, bs)
    ensures Sealed(d, bs) <==> Seal(d, bs) == d
  {
    hide Crc, Number, Bytes, EntriesCrc, HeaderCrc;
    SealSeals(d, bs);
    if Sealed(d, bs) {
      PutGet(d, bs + PARTITION_CRC_OFFSET, 4);
      PutGet(d, bs + HEADER_CRC_OFFSET, 4);
    }
  }

  /** The end of UfsPatchGptHeader, EmmcPatchGptHeader and EditABPartition. */
  method WriteCrcs(data: array<byte>, bs: nat)
    requires HasTable(data[..], bs)
    modifies data
    ensures data[..] == Seal(old(data[..]), bs)
  {
    hide Crc, Number, Put, Or, Shl;
    ghost var was := data[..];
    var partCount := GetLword(data[..], bs + PARTITION_COUNT_OFFSET);
    var entrySize := GetLword(data[..], bs + PENTRY_SIZE_OFFSET);
    LwordIsNumber(was, bs + PARTITION_COUNT_OFFSET);
    LwordIsNumber(was, bs + PENTRY_SIZE_OFFSET);
    var crcValue := CalculateCrc32(data[2 * bs..2 * bs + partCount * entrySize % U32]);
    assert data[2 * bs..2 * bs + EntryBytes(was, bs)] == was[2 * bs..2 * bs + EntryBytes(was, bs)];
    PutLong(data, bs + PARTITION_CRC_OFFSET, crcValue);
    ghost var e := data[..];
    PutLong(data, bs + HEADER_CRC_OFFSET, 0);
    assert data[bs..bs + GPT_CRC_LEN] == data[..][bs..bs + GPT_CRC_LEN];
    crcValue := CalculateCrc32(data[bs..bs + GPT_CRC_LEN]);
    PutLong(data, bs + HEADER_CRC_OFFSET, crcValue);
    PutPut(e, bs + HEADER_CRC_OFFSET, 0, crcValue, 4);
  }

  // ---------------------------------------------------------------- names

  function Upper(b: byte): byte {
    if 97 <= b <= 122 then b - 32 else b
  }

  function Lower(b: byte): byte {
    if 65 <= b <= 90 then b + 32 else b
  }

  /** The letters, and nothing but the letters, change case. */
  lemma LettersChangeCase(b: byte)
    ensures Upper(b) != b <==> 'a' as int <= b <= 'z' as int
    ensures Lower(b) != b <==> 'A' as int <= b <= 'Z' as int
    ensures 'a' as int <= b <= 'z' as int ==> Upper(b) - 'A' as int == b - 'a' as int && Lower(Upper(b)) == b
    ensures 'A' as int <= b <= 'Z' as int ==> Lower(b) - 'a' as int == b - 'A' as int && Upper(Lower(b)) == b
  {
  }

  /** The bytes of a text in ASCII. */
  function Ascii(text: string): (s: seq<byte>)
    ensures |s| == |text|
  {
    seq(|text|, i requires 0 <= i < |text| => (text[i] as int) % 256)
  }

  /** Characters of the name from number `n` on: every other byte, up to a zero one. */
  function NameFrom(field: seq<byte>, n: nat): (name: seq<byte>)
    requires |field| == MAX_GPT_NAME_SIZE && n <= MAX_GPT_NAME_SIZE / 2
    ensures |name| <= MAX_GPT_NAME_SIZE / 2 - n
    decreases MAX_GPT_NAME_SIZE / 2 - n, field
  {
    if n == MAX_GPT_NAME_SIZE / 2 || field[2 * n] == 0 then []
    else [Upper(field[2 * n])] + NameFrom(field, n + 1)
  }

  /** Ptable::ParsePartitionName, on a whole name field. */
  method ParsePartitionName(field: seq<byte>) returns (name: seq<byte>)
    requires |field| == MAX_GPT_NAME_SIZE
    ensures name == NameFrom(field, 0)
    ensures |name| <= 36 && forall k :: 0 <= k < |name| ==> field[2 * k] != 0 && name[k] == Upper(field[2 * k])
    ensures |name| < 36 ==> field[2 * |name|] == 0
  {
    name := [];
    var n := 0;
    while n < MAX_GPT_NAME_SIZE / 2 && field[2 * n] != 0
      invariant 0 <= n == |name| <= MAX_GPT_NAME_SIZE / 2
      invariant forall k :: 0 <= k < n ==> field[2 * k] != 0 && name[k] == Upper(field[2 * k])
      invariant name + NameFrom(field, n) == NameFrom(field, 0)
    {
      name := name + [Upper(field[2 * n])];
      n := n + 1;
    }
  }

  /** USERDATA_PARTITION, LAST_PATITION_NAME */
  const USERDATA: seq<byte> := [85, 83, 69, 82, 68, 65, 84, 65]

  // ---------------------------------------------------------------- checking

  datatype GptHeaderInfo = GptHeaderInfo(headerSize: nat, entrySize: nat, maxCount: nat, firstUsableLba: nat)

  function Info(header: seq<byte>): GptHeaderInfo
    requires LBA_LENGTH <= |header|
  {
    GptHeaderInfo(Get(header, HEADER_SIZE_OFFSET, 4), Get(header, PENTRY_SIZE_OFFSET, 4),
                  Get(header, PARTITION_COUNT_OFFSET, 4), Get(header, FIRST_USABLE_LBA_OFFSET, 8))
  }

  predicate InfoValid(header: seq<byte>) {
    && LBA_LENGTH <= |header| && Get(header, 0, 8) == EFI_MAGIC_NUMBER
    && Info(header).maxCount != 0 && Info(header).entrySize != 0
  }

  /** Ptable::GetPartitionGptHeaderInfo. */
  method GetPartitionGptHeaderInfo(header: seq<byte>) returns (ok: bool, info: GptHeaderInfo)
    ensures ok <==> InfoValid(header)
    ensures ok ==> info == Info(header)
  {
    info := GptHeaderInfo(0, 0, 0, 0);
    if |header| < LBA_LENGTH {
      return false, info;
    }
    LlwordIsNumber(header, 0);
    LlwordIsNumber(header, FIRST_USABLE_LBA_OFFSET);
    LwordIsNumber(header, HEADER_SIZE_OFFSET);
    LwordIsNumber(header, PENTRY_SIZE_OFFSET);
    LwordIsNumber(header, PARTITION_COUNT_OFFSET);
    if GetLlword(header, 0) != EFI_MAGIC_NUMBER {
      return false, info;
    }
    info := GptHeaderInfo(GetLword(header, HEADER_SIZE_OFFSET), GetLword(header, PENTRY_SIZE_OFFSET),
      GetLword(header, PARTITION_COUNT_OFFSET), GetLlword(header, FIRST_USABLE_LBA_OFFSET));
    ok := info.maxCount != 0 && info.entrySize != 0;
  }

  /** The fields CheckGptHeader looks at besides the checksum; LBAs are cut to 32 bits. */
  predicate FieldsPass(header: seq<byte>, lbaNum: nat, info: GptHeaderInfo)
    requires LBA_LENGTH <= |header|
  {
    && info.firstUsableLba <= lbaNum && Get(header, LAST_USABLE_LBA_OFFSET, 8) % U32 <= lbaNum
    && info.entrySize == PARTITION_ENTRY_SIZE && info.maxCount <= 0x4000 / PARTITION_ENTRY_SIZE
    && Get(header, GPT_HEADER_OFFSET, 8) % U32 == 1
  }

  predicate HeaderPasses(header: seq<byte>, lbaNum: nat, info: GptHeaderInfo) {
    && LBA_LENGTH <= |header| && lbaNum != 0 && GPT_CRC_LEN <= info.headerSize <= |header|
    && HeaderCrc(header, 0, info.headerSize) == Get(header, HEADER_CRC_OFFSET, 4)
    && FieldsPass(header, lbaNum, info)
  }

  /** Ptable::CheckGptHeader. The checksum field is cleared for the computation, and put back
      only if it was right. */
  method CheckGptHeader(buffer: array<byte>, lbaNum: nat, info: GptHeaderInfo) returns (ok: bool)
    modifies buffer
    ensures ok <==> HeaderPasses(old(buffer[..]), lbaNum, info)
    ensures ok ==> buffer[..] == old(buffer[..])
  {
    hide Crc, Number, Bytes, Or, Shl;
    if buffer.Length < LBA_LENGTH || lbaNum == 0 {
      return false;
    }
    if info.headerSize < GPT_CRC_LEN || info.headerSize > buffer.Length {
      return false;
    }
    ghost var was := buffer[..];
    var orgCrcVal := GetLword(buffer[..], HEADER_CRC_OFFSET);
    LwordIsNumber(was, HEADER_CRC_OFFSET);
    PutLong(buffer, HEADER_CRC_OFFSET, 0);
    assert buffer[..info.headerSize] == buffer[..][0..info.headerSize];
    var crcVal := CalculateCrc32(buffer[..info.headerSize]);
    if crcVal != orgCrcVal {
      return false;
    }
    PutLong(buffer, HEADER_CRC_OFFSET, crcVal);
    PutPut(was, HEADER_CRC_OFFSET, 0, crcVal, 4);
    PutGet(was, HEADER_CRC_OFFSET, 4);
    LlwordIsNumber(was, GPT_HEADER_OFFSET);
    LlwordIsNumber(was, LAST_USABLE_LBA_OFFSET);
    var currentLba := GetLlword(buffer[..], GPT_HEADER_OFFSET) % U32;
    var lastUsableLba := GetLlword(buffer[..], LAST_USABLE_LBA_OFFSET) % U32;
    if info.firstUsableLba > lbaNum || lastUsableLba > lbaNum {
      return false;
    }
    if info.entrySize != PARTITION_ENTRY_SIZE || info.maxCount > 0x4000 / PARTITION_ENTRY_SIZE {
      return false;
    }
    ok := currentLba == 1;
  }

  /** What surrounds the table being checked: `nodeCrc` is the checksum of the entry array on the
      device itself, which UFS (not eMMC) uses when the header puts the entries anywhere else than
      at the third block. */
  datatype CheckInputs = CheckInputs(len: nat, lbaNum: nat, lunNum: nat, ufs: bool, deviceBlockSize: nat, nodeCrc: nat)

  const PTABLE_MAX_LUN_NUMBERS := 32

  /** The entries CRC the checker compares with. */
  function CheckedCrc(image: seq<byte>, c: CheckInputs, offset: nat, n: nat): nat
    requires c.len <= |image|
  {
    if c.ufs && offset != 2 * c.deviceBlockSize then c.nodeCrc
    else if c.len < offset + n then 0
    else Crc(image[offset..offset + n])
  }

  /** Ptable::GetGptEntryCrc and UfsPtable::GetGptEntryCrc. */
  method GetGptEntryCrc(image: seq<byte>, c: CheckInputs, offset: nat, crcLen: nat) returns (crc: nat)
    requires c.len <= |image|
    ensures crc == CheckedCrc(image, c, offset, crcLen)
  {
    if c.ufs && offset != 2 * c.deviceBlockSize {
      return c.nodeCrc;
    }
    if c.len < offset + crcLen {
      return 0;
    }
    crc := CalculateCrc32(image[offset..offset + crcLen]);
  }

  predicate TablePasses(image: seq<byte>, c: CheckInputs, bs: nat, writeDeviceLunSize: nat, info: GptHeaderInfo)
    requires c.len <= |image|
  {
    && writeDeviceLunSize <= c.len && c.lbaNum != 0 && c.lunNum <= PTABLE_MAX_LUN_NUMBERS && 2 * bs <= c.len
    && var header := image[bs..2 * bs];
    && HeaderPasses(header, c.lbaNum, info)
    && CheckedCrc(image, c, Get(header, PARTITION_ENTRIES_OFFSET, 8) % U32 * bs % U32, info.maxCount * info.entrySize)
         == Get(header, PARTITION_CRC_OFFSET, 4)
  }

  /** Ptable::PartitionCheckGptHeader. */
  method PartitionCheckGptHeader(image: seq<byte>, c: CheckInputs, bs: nat, writeDeviceLunSize: nat,
      info: GptHeaderInfo)
    returns (ok: bool)
    requires c.len <= |image|
    ensures ok <==> TablePasses(image, c, bs, writeDeviceLunSize, info)
  {
    hide Crc, Number, HeaderCrc, FieldsPass, CheckedCrc, Or, Shl;
    if c.len < writeDeviceLunSize || c.lbaNum == 0 || c.lunNum > PTABLE_MAX_LUN_NUMBERS || c.len < 2 * bs {
      return false;
    }
    var header := image[bs..2 * bs];
    var buffer := new byte[bs](k requires 0 <= k < bs => header[k]);
    assert buffer[..] == header;
    ok := CheckGptHeader(buffer, c.lbaNum, info);
    if !ok {
      return;
    }
    LlwordIsNumber(header, PARTITION_ENTRIES_OFFSET);
    LwordIsNumber(header, PARTITION_CRC_OFFSET);
    var partition0 := GetLlword(buffer[..], PARTITION_ENTRIES_OFFSET) % U32;
    var orgCrcVal := GetLword(buffer[..], PARTITION_CRC_OFFSET);
    var crcVal := GetGptEntryCrc(image, c, partition0 * bs % U32, info.maxCount * info.entrySize);
    ok := crcVal == orgCrcVal;
  }
}
