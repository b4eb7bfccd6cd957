/** services/stream_update/bin_chunk_update.cpp: an update stream arrives in pieces of any size; a
    record is installed once it is all there, and what is left of the next one stays buffered. */
module BinChunkUpdates {
  import opened Bits
  import opened Device
  import opened LittleEndian
  import opened StreamRecords
  import opened BlockWriters

  const ZIP_HEADER_TLV_TYPE := 0xaa
  const HEADER_TYPE_BYTE := 2
  const TOTAL_TL_BYTES := 6

  datatype Step = Pre | Do | Post

  /** `Stuck` is a call that never returns. */
  datatype Code = Success | Failure | Stuck

  class BinChunkUpdate {
    const maxBufSize: nat
    const buffer: array<byte>
    const beyond: byte         // what lies behind the buffer
    const faults: nat -> bool  // which attempts to open a partition or to execute a command fail
    var ops: nat
    var curlen: nat
    var offset: nat
    var skipLength: nat
    var firstBuffer: bool
    var needNewData: bool
    var updateStep: Step
    var curPartition: seq<byte>
    /** The records installed, and the stream behind its header. */
    var executed: seq<Record>
    ghost var received: seq<byte>

    constructor (maxBufSize: nat, uninitialised: nat -> byte, beyond: byte, faults: nat -> bool)
      ensures this.maxBufSize == maxBufSize && this.beyond == beyond && this.faults == faults
      ensures fresh(buffer) && Valid() && executed == [] && received == [] && curlen == 0 && firstBuffer
      ensures skipLength == 0
      ensures forall k: nat :: k < maxBufSize ==> buffer[k] == uninitialised(k)
    {
      this.maxBufSize, this.beyond, this.faults := maxBufSize, beyond, faults;
      var bytes := new byte[maxBufSize](k => uninitialised(k));
      buffer := bytes;
      ops, curlen, offset, skipLength, firstBuffer, needNewData := 0, 0, 0, 0, true, false;
      updateStep, curPartition, executed, received := Pre, [], [], [];
      new;
      assert buffer[..0] == [];
      assert forall k: nat :: k < maxBufSize ==> bytes[k] == uninitialised(k);
    }

    ghost predicate Shape()
      reads this
    {
      buffer.Length == maxBufSize && curlen <= maxBufSize
    }

    /** What is in the buffer between calls. */
    ghost function Kept(): seq<byte>
      requires Shape()
      reads this, buffer
    {
      buffer[..curlen]
    }

    /** Everything whole that has arrived is installed, or is still at the head of the buffer. A
        buffer that has been emptied is cleared; it is not initialised at first. */
    ghost predicate Valid()
      reads this, buffer
    {
      && Shape() && updateStep != Post
      && WellFormed(Kept()) && Balanced(executed, Kept(), received)
      && (firstBuffer || 0 < skipLength ==> curlen == 0 && received == [])
      && (received != [] && curlen == 0 ==> forall k :: 0 <= k < maxBufSize ==> buffer[k] == 0)
    }

    /** One of the attempts from `lo` to `hi` to open a partition or to execute a command fails. */
    ghost predicate Refused(lo: nat, hi: nat) {
      exists k :: lo <= k < hi && faults(k)
    }

    static ghost predicate Balanced(executed: seq<Record>, pending: seq<byte>, received: seq<byte>) {
      executed + Records(pending) == Records(received) && Rest(pending) == Rest(received)
    }

    // -------------------------------------------------------------- within the buffer

    ghost predicate Inside()
      reads this
    {
      Shape() && offset <= curlen
    }

    /** From the offset on. */
    function Pending(): (p: seq<byte>)
      requires buffer.Length == maxBufSize && offset <= curlen <= maxBufSize
      reads this, buffer
      ensures |p| == curlen - offset
    {
      buffer[offset..curlen]
    }

    method ReadPartitionData() returns (ok: bool)
      requires Inside()
      modifies this`needNewData, this`curPartition
      ensures var e := FieldEnd(Pending(), 0, HH_SIZE, 2);
        && (ok <==> e != 0)
        && needNewData == (old(needNewData) || !ok)
        && curPartition == if ok then Printable(Pending()[HH_SIZE..e]) else old(curPartition)
    {
      var p := Pending();
      if |p| < HH_SIZE {
        needNewData := true;
        return false;
      }
      var length := Get(p, 2, 2);
      if |p| - HH_SIZE < length {
        needNewData := true;
        return false;
      }
      curPartition := Printable(p[HH_SIZE..HH_SIZE + length]);
      ok := true;
    }

    method ChunkInstallPreWrite() returns (ret: Code)
      requires Inside()
      modifies this`needNewData, this`curPartition, this`updateStep, this`ops
      ensures ret != Stuck && old(ops) <= ops && (ret == Failure <==> Refused(old(ops), ops))
      ensures ret == Failure <==> FieldEnd(Pending(), 0, HH_SIZE, 2) != 0 && old(faults(ops))
      ensures var e := FieldEnd(Pending(), 0, HH_SIZE, 2);
        && (e == 0 ==> ret == Success && needNewData && updateStep == old(updateStep))
        && (e != 0 && ret == Success ==>
            needNewData == old(needNewData) && updateStep == Do && curPartition == Printable(Pending()[HH_SIZE..e]))
    {
      var ok := ReadPartitionData();
      if !ok {
        return Success;
      }
      var failed := faults(ops);
      ops := ops + 1;
      if failed {
        return Failure;
      }
      updateStep := Do;
      ret := Success;
    }

    static predicate OfPartition(p: seq<byte>, name: seq<byte>) {
      var e := FieldEnd(p, 0, HH_SIZE, 2);
      e != 0 && Printable(p[HH_SIZE..e]) == name
    }

    /** Whether the record at the offset is one of the current partition. */
    method ProcessPartition() returns (ok: bool, next: nat)
      requires Inside()
      modifies this`needNewData, this`updateStep
      ensures var p, e := Pending(), FieldEnd(Pending(), 0, HH_SIZE, 2);
        && (ok <==> !AtHash(p) && OfPartition(p, curPartition))
        && (ok ==> next == e && needNewData == old(needNewData) && updateStep == old(updateStep))
        && (!ok ==> if HH_SIZE <= |p| && (AtHash(p) || e != 0)
                    then updateStep == Post && needNewData == old(needNewData)
                    else needNewData && updateStep == old(updateStep))
    {
      var p := Pending();
      ok, next := false, 0;
      if |p| < HH_SIZE {
        needNewData := true;
        return;
      }
      if Get(p, 0, 2) == HASH_TIP {
        updateStep := Post;
        return;
      }
      var length := Get(p, 2, 2);
      if |p| - HH_SIZE < length {
        needNewData := true;
        return;
      }
      var partition := Printable(p[HH_SIZE..HH_SIZE + length]);
      if partition != curPartition {
        updateStep := Post;
        return;
      }
      ok, next := true, HH_SIZE + length;
    }

    method ProcessCmdLine(at: nat) returns (ok: bool, next: nat, cmdLine: seq<byte>)
      requires Inside() && HH_SIZE <= at <= curlen - offset
      modifies this`needNewData
      ensures var e := FieldEnd(Pending(), at, HH_SIZE, 2);
        && (ok <==> e != 0) && needNewData == (old(needNewData) || !ok)
        && (ok ==> next == e && cmdLine == Printable(Pending()[at + HH_SIZE..e]))
    {
      var p := Pending();
      ok, next, cmdLine := false, 0, [];
      if |p| - at < HH_SIZE {
        needNewData := true;
        return;
      }
      var length := Get(p, at + 2, 2);
      if |p| - at - HH_SIZE < length {
        needNewData := true;
        return;
      }
      ok, next, cmdLine := true, at + HH_SIZE + length, Printable(p[at + HH_SIZE..at + HH_SIZE + length]);
    }

    method ProcessInstallData(at: nat) returns (ok: bool, next: nat, dataBuffer: seq<byte>)
      requires Inside() && HH_SIZE <= at <= curlen - offset
      modifies this`needNewData
      ensures var e := FieldEnd(Pending(), at, HI_SIZE, 4);
        && (ok <==> e != 0) && needNewData == (old(needNewData) || !ok)
        && (ok ==> next == e && dataBuffer == Pending()[at + HI_SIZE..e])
    {
      var p := Pending();
      ok, next, dataBuffer := false, 0, [];
      if |p| - at < HI_SIZE {
        needNewData := true;
        return;
      }
      var length := Get(p, at + 2, 4);
      if |p| - at - HI_SIZE < length {
        needNewData := true;
        return;
      }
      ok, next, dataBuffer := true, at + HI_SIZE + length, p[at + HI_SIZE..at + HI_SIZE + length];
    }

    /** ExecuteCmdLine. */
    method Execute(r: Record) returns (ok: bool)
      modifies this`executed, this`ops
      ensures ops == old(ops) + 1 && ok == !old(faults(ops))
      ensures executed == if ok then old(executed) + [r] else old(executed)
    {
      ok := !faults(ops);
      ops := ops + 1;
      if ok {
        executed := executed + [r];
      }
    }

    /** A record is installed and passed over only when it is all there; otherwise the offset
        stays where it is. */
    method ChunkInstallDoWrite() returns (ret: Code)
      requires Inside() && updateStep == Do && !needNewData
      modifies this`needNewData, this`updateStep, this`executed, this`ops, this`offset
      ensures ret != Stuck && Inside() && old(ops) <= ops && (ret == Failure <==> Refused(old(ops), ops))
      ensures ret == Failure <==> old(HasNext(Pending()) && OfPartition(Pending(), curPartition) && faults(ops))
      ensures offset == old(offset) ==> executed == old(executed)
      ensures offset != old(offset) ==>
                && old(HasNext(Pending())) && Pending() == old(AfterNext(Pending()))
                    && executed == old(executed) + [old(RecordOf(Pending()))]
                && updateStep == Do && !needNewData && ret == Success
      ensures ret == Success && offset == old(offset) ==>
                if needNewData then
                  updateStep == Do && !HasNext(Pending())
                else
                  && updateStep == Post && HH_SIZE <= |Pending()|
                  && (AtHash(Pending()) || !OfPartition(Pending(), curPartition))
    {
      hide Number, Printable;
      ghost var p := Pending();
      var ok, at := ProcessPartition();
      if !ok {
        return Success;
      }
      var cmdLine, dataBuffer;
      var name := curPartition;
      ok, at, cmdLine := ProcessCmdLine(at);
      if !ok {
        return Success;
      }
      ok, at, dataBuffer := ProcessInstallData(at);
      if !ok {
        return Success;
      }
      ok := Execute(Record(name, cmdLine, dataBuffer));
      if !ok {
        return Failure;
      }
      offset := offset + at;
      assert Pending() == p[at..];
      ret := Success;
    }

    method ChunkInstallPostWrite()
      modifies this`updateStep
      ensures updateStep == Pre
    {
      updateStep := Pre;
    }

    /** How far the steps are from a new partition. */
    function Rank(): nat
      reads this
    {
      match updateStep case Pre => 2 case Do => 1 case Post => 0
    }

    /** The records at the offset: those of one partition, until its data runs out or ends. */
    method UpdateBinData() returns (ret: Code)
      requires Inside() && !needNewData && updateStep != Post && WellFormed(Pending())
      requires |Pending()| < 2 || !AtHash(Pending())
      modifies this`needNewData, this`curPartition, this`updateStep, this`executed, this`ops, this`offset
      ensures ret != Stuck && Inside() && old(offset) <= offset
      ensures old(ops) <= ops && (ret == Failure <==> Refused(old(ops), ops))
      ensures WellFormed(Pending())
      ensures executed + Records(Pending()) == old(executed + Records(Pending()))
      ensures Rest(Pending()) == old(Rest(Pending()))
      ensures ret == Success ==> updateStep != Post
      ensures ret == Success && needNewData ==> !HasNext(Pending())
      ensures ret == Success && !needNewData ==>
                HH_SIZE <= |Pending()| && updateStep == Pre && (old(offset) < offset || old(updateStep) == Do)
    {
      hide Number, Printable, RecordOf, AfterNext, Records, Rest, WellFormed, HasNext, FieldEnd, EndsOf;
      ghost var done, p := executed, Pending();
      ret := Success;
      while true
        invariant Inside() && old(offset) <= offset && ret == Success && !needNewData
        invariant old(ops) <= ops && !Refused(old(ops), ops)
        invariant WellFormed(Pending()) && Balances(done, p, executed, Pending())
        invariant old(updateStep) == Pre && offset == old(offset) ==>
                    || updateStep == Pre
                    || (updateStep == Do && !AtHash(Pending()) && OfPartition(Pending(), curPartition))
        invariant offset == old(offset) ==> Pending() == p
        invariant updateStep == Post ==> HH_SIZE <= |Pending()|
        decreases curlen - offset, Rank()
      {
        match updateStep {
          case Pre =>
            ret := ChunkInstallPreWrite();
            NoField(Pending());
          case Do =>
            ghost var was, had := Pending(), executed;
            ghost var from := offset;
            ret := ChunkInstallDoWrite();
            if offset != from {
              NextInstalled(done, p, had, was);
            }
          case Post => ChunkInstallPostWrite();
        }
        if needNewData || ret == Failure || updateStep == Pre {
          break;
        }
      }
    }

    static ghost predicate Balances(done: seq<Record>, p: seq<byte>, done': seq<Record>, p': seq<byte>) {
      done' + Records(p') == done + Records(p) && Rest(p') == Rest(p)
    }

    static lemma NextInstalled(done: seq<Record>, p: seq<byte>, had: seq<Record>, was: seq<byte>)
      requires Balances(done, p, had, was) && HasNext(was) && WellFormed(was)
      ensures WellFormed(AfterNext(was)) && Balances(done, p, had + [RecordOf(was)], AfterNext(was))
    {
      hide EndsOf, RecordOf, AfterNext;
      assert had + ([RecordOf(was)] + Records(AfterNext(was))) == had + [RecordOf(was)] + Records(AfterNext(was));
    }

    static lemma NoField(p: seq<byte>)
      ensures FieldEnd(p, 0, HH_SIZE, 2) == 0 ==> !HasNext(p)
    {
    }

    /** The type at the offset, read from two bytes even where only one has arrived: the other is
        then whatever the buffer held before, or what lies behind it. */
    function TypeRead(): nat
      requires buffer.Length == maxBufSize && offset < curlen <= maxBufSize
      reads this, buffer
    {
      (buffer[offset] as nat) + 256 * ((if offset + 1 < maxBufSize then buffer[offset + 1] else beyond) as nat)
    }

    /** One byte of the next record has arrived, and the byte behind it makes another type of it. */
    ghost predicate Misread()
      requires buffer.Length == maxBufSize && offset <= curlen <= maxBufSize
      reads this, buffer
    {
      curlen - offset == 1 && TypeRead() != DATA_TIP && TypeRead() != HASH_TIP
    }

    lemma ReadsType()
      requires Inside() && offset < curlen && GoodTip(Pending())
      ensures |Pending()| >= 2 ==> TypeRead() == Get(Pending(), 0, 2)
      ensures |Pending()| >= 2 ==> TypeRead() == DATA_TIP || TypeRead() == HASH_TIP
      ensures |Pending()| >= 2 ==> (AtHash(Pending()) <==> TypeRead() == HASH_TIP)
    {
      if |Pending()| >= 2 {
        var two := Pending()[0..2];
        assert two[1..][1..] == [];
        assert Number(two[1..]) == two[1];
        assert Number(two) == (two[0] as nat) + 256 * Number(two[1..]);
      }
    }

    /** Install what is whole in the buffer. The hash section is not part of this model: from its
        type on, the stream is only collected. Upgrade heads are not met. */
    method ProcessBufferData() returns (ret: Code)
      requires Inside() && !needNewData && updateStep != Post && WellFormed(Pending())
      modifies this`needNewData, this`curPartition, this`updateStep, this`executed, this`ops, this`offset
      ensures ret != Stuck && Inside() && old(offset) <= offset
      ensures WellFormed(Pending()) && Balances(old(executed), old(Pending()), executed, Pending())
      ensures ret == Success ==> updateStep != Post && !HasNext(Pending())
      ensures old(ops) <= ops && (ret == Failure <==> old(Misread()) || Refused(old(ops), ops))
      ensures old(Misread()) ==> ops == old(ops) && offset == old(offset)
    {
      hide Number, HasNext, Records, Rest;
      ret := Success;
      while curlen - offset > 0 && !needNewData
        invariant Inside() && old(offset) <= offset && ret == Success && updateStep != Post
        invariant WellFormed(Pending()) && Balances(old(executed), old(Pending()), executed, Pending())
        invariant needNewData ==> !HasNext(Pending())
        invariant old(ops) <= ops && !Refused(old(ops), ops)
        invariant old(Misread()) ==> ops == old(ops)
        invariant || (offset == old(offset) && !needNewData)
                  || (!old(Misread()) && (needNewData || HH_SIZE <= |Pending()|))
        decreases !needNewData, curlen - offset, if updateStep == Pre then 0 else 1
      {
        ReadsType();
        var tip := TypeRead();
        if tip == DATA_TIP {
          ret := UpdateBinData();
        } else if tip == HASH_TIP {
          NotNext(Pending());
          needNewData := true;
        } else {
          ret := Failure;
        }
        if ret == Failure {
          return;
        }
      }
      NotNext(Pending());
    }

    static lemma NotNext(p: seq<byte>)
      ensures |p| < 2 || AtHash(p) ==> !HasNext(p)
    {
    }

    /** The unread bytes move to the front; an empty buffer is cleared. */
    method MoveRemainingData()
      requires Inside()
      modifies this`curlen, buffer
      ensures Shape() && Kept() == old(Pending())
      ensures curlen == old(curlen) - offset
      ensures curlen == 0 ==> forall k :: 0 <= k < maxBufSize ==> buffer[k] == 0
    {
      ghost var p := Pending();
      if curlen - offset > 0 {
        forall k | 0 <= k < curlen - offset {
          buffer[k] := buffer[offset + k];
        }
        curlen := curlen - offset;
      } else {
        forall k | 0 <= k < maxBufSize {
          buffer[k] := 0;
        }
        curlen := 0;
      }
      assert Kept() == p;
    }

    /** As much of the new data as fits is put behind what is kept. */
    method AddRemainData(data: seq<byte>) returns (copySize: nat)
      requires Shape() && data != []
      modifies this`curlen, this`offset, buffer
      ensures copySize == if |data| <= maxBufSize - old(curlen) then |data| else maxBufSize - old(curlen)
      ensures Inside() && offset == 0 && curlen == old(curlen) + copySize
      ensures Pending() == old(Kept()) + data[..copySize]
      ensures forall k :: curlen <= k < maxBufSize ==> buffer[k] == old(buffer[k])
    {
      ghost var kept := Kept();
      copySize := if |data| <= maxBufSize - curlen then |data| else maxBufSize - curlen;
      forall k | 0 <= k < copySize {
        buffer[curlen + k] := data[k];
      }
      curlen := curlen + copySize;
      offset := 0;
      assert Pending() == kept + data[..copySize];
    }

    /** How much of `data` goes into the buffer. */
    function Room(data: seq<byte>): nat
      requires curlen <= maxBufSize
      reads this
    {
      if |data| <= maxBufSize - curlen then |data| else maxBufSize - curlen
    }

    /** What is read as the second byte of the type at the start of the buffer. */
    function Second(): byte
      requires buffer.Length == maxBufSize
      reads this, buffer
    {
      if 1 < maxBufSize then buffer[1] else beyond
    }

    /** With `data` there is a single byte in the buffer, and what lies behind it makes a type of it
        that there is not. */
    predicate LoneByte(data: seq<byte>)
      requires buffer.Length == maxBufSize && curlen <= maxBufSize
      reads this, buffer
    {
      curlen + Room(data) == 1 && Second() != 0
    }

    /** One turn of the refill loop. */
    method Refill(data: seq<byte>) returns (ret: Code, copySize: nat)
      requires Valid() && data != [] && WellFormed(received + data) && !firstBuffer && skipLength == 0
      modifies this, buffer
      ensures buffer.Length == maxBufSize && copySize <= |data|
      ensures firstBuffer == old(firstBuffer) && skipLength == old(skipLength)
      ensures ret == Success ==> Valid() && Shape() && received == old(received) + data[..copySize] && !HasNext(Kept())
      ensures ret == Success ==> curlen <= old(curlen) + copySize
      ensures ret != Stuck && copySize == old(Room(data))
      ensures old(ops) <= ops && (ret == Failure <==> old(LoneByte(data)) || Refused(old(ops), ops))
      ensures old(LoneByte(data)) ==> ops == old(ops)
      ensures old(curlen) == maxBufSize && !old(HasNext(Kept())) && ret == Success ==>
                Kept() == old(Kept()) && executed == old(executed)
    {
      hide Number, HasNext, Records, Rest, WellFormed, AtHash, EndsOf;
      ghost var kept, had, lone := Kept(), executed, LoneByte(data);
      copySize := AddRemainData(data);
      needNewData := false;
      ghost var more := data[..copySize];
      assert (received + more) + data[copySize..] == received + data;
      WellFormedBefore(received + more, data[copySize..]);
      ReadOnFrom(received, kept, more, executed);
      received := received + more;
      ghost var p := Pending();
      LoneIsMisread();
      assert lone <==> Misread();
      ret := ProcessBufferData();
      if ret == Failure {
        return;
      }
      if old(curlen) == maxBufSize && !HasNext(kept) {
        assert p == kept;
        NothingToInstall(had, p, executed, Pending());
      }
      MoveRemainingData();
    }

    lemma LoneIsMisread()
      requires Inside() && offset == 0 && WellFormed(Pending())
      ensures Misread() <==> curlen == 1 && Second() != 0
    {
      if curlen == 1 {
        assert GoodTip(Pending());
        assert Pending()[0] == buffer[0];
      }
    }

    /** Nothing has arrived, nothing is kept. */
    lemma NothingKept()
      requires Valid()
      ensures received == [] ==> curlen == 0
    {
      if received == [] {
        assert executed + Records(Kept()) == [];
        assert !HasNext(Kept());
      }
    }

    /** Past the first byte of the stream there is no lone byte any more: it would be read from a
        cleared buffer. Only a buffer of a single byte could still have one. */
    lemma NotLone(data: seq<byte>)
      requires Valid() && data != [] && received != [] && maxBufSize != 1
      ensures !LoneByte(data)
    {
    }

    static lemma NothingToInstall(done: seq<Record>, p: seq<byte>, done': seq<Record>, p': seq<byte>)
      requires Balances(done, p, done', p') && !HasNext(p) && !HasNext(p')
      ensures done == done' && p == p'
    {
      hide HasNext;
      assert done + [] == done && done' + [] == done';
    }

    // -------------------------------------------------------------- one call

    /** The bytes of the header that `data` starts with, as a uint32_t: none if it is of another
        type. */
    static function HeaderLength(data: seq<byte>): nat
      requires HasHeader(data)
    {
      if Get(data, 0, 2) == ZIP_HEADER_TLV_TYPE then (Get(data, HEADER_TYPE_BYTE, 4) + TOTAL_TL_BYTES) % U32 else 0
    }

    /** The first call brings the type of the stream, and the length of its header if it has one. */
    static predicate HasHeader(data: seq<byte>) {
      2 <= |data| && (Get(data, 0, 2) == ZIP_HEADER_TLV_TYPE ==> TOTAL_TL_BYTES <= |data|)
    }

    /** How much of `data` belongs to the header. */
    function ToSkip(data: seq<byte>): nat
      requires firstBuffer ==> HasHeader(data)
      reads this
    {
      if firstBuffer then HeaderLength(data) else skipLength
    }

    static function Past(data: seq<byte>, skip: nat): seq<byte> {
      if skip <= |data| then data[skip..] else []
    }

    method ProcessHeader(data: seq<byte>)
      requires firstBuffer ==> HasHeader(data)
      modifies this`firstBuffer, this`skipLength
      ensures !firstBuffer && skipLength == old(ToSkip(data))
    {
      if firstBuffer {
        if Get(data, 0, 2) != ZIP_HEADER_TLV_TYPE {
          skipLength := 0;
        } else {
          skipLength := (Get(data, HEADER_TYPE_BYTE, 4) + TOTAL_TL_BYTES) % U32;
        }
        firstBuffer := false;
      }
    }

    /** What follows the header within the call that ends it is buffered, to be looked at by the
        next call. */
    method SkipTargetData(data: seq<byte>) returns (skipped: bool, dealLen: nat)
      requires Valid() && !firstBuffer
      requires 0 < skipLength ==> |data| <= skipLength + maxBufSize && WellFormed(Past(data, skipLength))
      modifies this`skipLength, this`curlen, this`received, buffer
      ensures skipped <==> 0 < old(skipLength)
      ensures !skipped ==> unchanged(this) && buffer[..] == old(buffer[..]) && dealLen == 0
      ensures skipped ==> Valid() && received == Past(data, old(skipLength)) && dealLen + curlen == |data|
      ensures skipped ==> skipLength == Left(old(skipLength), |data|) && |received| <= maxBufSize && ops == old(ops)
      ensures skipped && received == [] ==> buffer[..] == old(buffer[..])
    {
      if skipLength <= 0 {
        return false, 0;
      }
      skipped := true;
      NothingYet();
      if skipLength < |data| {
        ghost var past := data[skipLength..];
        forall k | 0 <= k < |data| - skipLength {
          buffer[k] := data[skipLength + k];
        }
        dealLen := skipLength;
        curlen := |data| - skipLength;
        skipLength := 0;
        received := past;
        assert Kept() == past;
      } else {
        skipLength := skipLength - |data|;
        dealLen := |data|;
      }
    }

    lemma NothingYet()
      requires Valid() && 0 < skipLength
      ensures executed == []
    {
      assert buffer[..0] == [];
    }

    /** No record has been cut short by the end of the buffer: at every earlier point from `n` on,
        what had arrived of the next one left room. */
    ghost predicate RecordsFit(n: nat, received: seq<byte>)
    {
      forall p :: n <= p < |received| ==> |Rest(received[..p])| < maxBufSize
    }

    lemma StillFit(n: nat, received: seq<byte>, more: seq<byte>, kept: seq<byte>)
      requires RecordsFit(n, received) && n <= |received| && Rest(kept) == Rest(received)
      requires |kept| + |more| <= maxBufSize
      ensures RecordsFit(n, received + more)
    {
      hide Rest;
      var all := received + more;
      forall p | n <= p < |all| ensures |Rest(all[..p])| < maxBufSize {
        if p < |received| {
          assert all[..p] == received[..p];
        } else {
          var d := more[..p - |received|];
          assert all[..p] == received + d;
          ReadOn(received, d);
          RestBelow(Rest(received) + d);
          RestBelow(kept);
        }
      }
    }

    lemma FitsOn(n: nat, a: seq<byte>, b: seq<byte>)
      requires RecordsFit(n, a) && RecordsFit(|a|, b) && a <= b
      ensures RecordsFit(n, b)
    {
      hide Rest;
      forall p | n <= p < |b| ensures |Rest(b[..p])| < maxBufSize {
        if p < |a| {
          assert b[..p] == a[..p];
        }
      }
    }

    lemma FitsBefore(n: nat, a: seq<byte>, m: nat, b: seq<byte>)
      requires RecordsFit(n, b) && n <= m && a <= b
      ensures RecordsFit(m, a)
    {
      hide Rest;
      forall p | m <= p < |a| ensures |Rest(a[..p])| < maxBufSize {
        assert b[..p] == a[..p];
      }
    }

    static lemma RestBelow(s: seq<byte>)
      ensures |Rest(s)| <= |s|
    {
    }

    /** The refill loop. */
    method RefillAll(data: seq<byte>) returns (ret: Code)
      requires Valid() && !firstBuffer && skipLength == 0 && data != [] && WellFormed(received + data)
      modifies this, buffer
      ensures old(ops) <= ops && (ret == Failure <==> old(LoneByte(data)) || Refused(old(ops), ops))
      ensures ret == Success ==> Valid() && received == old(received) + data && !HasNext(Kept())
      ensures ret == Success ==> !firstBuffer && skipLength == 0 && curlen <= old(curlen) + |data|
      ensures ret == Success ==> RecordsFit(|old(received)|, received)
      ensures ret == Stuck ==> Valid() && curlen == maxBufSize && !HasNext(Kept())
      ensures ret == Stuck ==> old(received) <= received < old(received) + data
    {
      hide Number, HasNext, Records, Rest, WellFormed, RecordsFit, Misread, Valid, LoneByte;
      ret := Success;
      ValidShape();
      ghost var had, held, lone, begun := received, curlen, LoneByte(data), false;
      var remain := data;
      NoneYet(had);
      if maxBufSize == 1 {
        LoneOfOne(data);
      }
      while |remain| > 0
        invariant Valid() && Shape() && !firstBuffer && skipLength == 0 && ret == Success
        invariant had <= received && received + remain == had + data && |remain| <= |data|
        invariant |remain| < |data| ==> !HasNext(Kept())
        invariant curlen + |remain| <= held + |data|
        invariant RecordsFit(|had|, received)
        invariant old(ops) <= ops && !Refused(old(ops), ops)
        invariant maxBufSize == 1 ==> (lone <==> beyond != 0)
        invariant if begun then !lone && (received != [] || maxBufSize == 0)
                  else remain == data && LoneByte(data) == lone
        decreases |remain|, curlen
      {
        var copySize;
        var before := curlen;
        ghost var was, kept, from := received, Kept(), ops;
        SameRest();
        NothingKept();
        StaysLone(data, remain, begun, lone);
        ret, copySize := Refill(remain);
        if ret == Failure {
          return;
        }
        StillFit(|had|, was, remain[..copySize], kept);
        MoreReceived(was, remain, copySize);
        remain := remain[copySize..];
        if copySize == 0 && curlen == before {
          ret := Stuck;
          Ahead(received, remain, had + data);
          return;
        }
        begun := true;
      }
      assert received == had + data;
    }

    lemma LoneOfOne(data: seq<byte>)
      requires Shape() && data != [] && maxBufSize == 1
      ensures LoneByte(data) <==> beyond != 0
    {
    }

    lemma StaysLone(data: seq<byte>, remain: seq<byte>, begun: bool, lone: bool)
      requires Valid() && data != [] && remain != []
      requires if begun then !lone && (received != [] || maxBufSize == 0) else remain == data && LoneByte(data) == lone
      requires maxBufSize == 1 ==> (lone <==> beyond != 0)
      ensures LoneByte(remain) == lone
    {
      if begun && 1 < maxBufSize {
        NotLone(remain);
      }
    }

    static lemma MoreReceived(had: seq<byte>, remain: seq<byte>, n: nat)
      requires n <= |remain|
      ensures (had + remain[..n]) + remain[n..] == had + remain && had <= had + remain[..n]
    {
    }

    lemma ValidShape()
      requires Valid()
      ensures Shape()
    {
    }

    lemma SameRest()
      requires Valid()
      ensures Rest(Kept()) == Rest(received)
    {
      hide Rest, Records, WellFormed;
    }

    /** StartBinChunkUpdate. After a successful call that skips nothing, exactly the records that
        have arrived whole are installed, and the buffer holds the rest; the bytes reported as
        dealt with, and those in the buffer, are those that came in. A call fails exactly on no
        data, on a partition or a command that is refused, or on a byte that is the first of its
        record and alone in a buffer with something else than a zero behind it. And a call that
        does not fail returns exactly if, with more to come, what has arrived of a record never
        fills the buffer. */
    method StartBinChunkUpdate(data: seq<byte>) returns (ret: Code, dealLen: nat)
      requires Valid() && (firstBuffer && data != [] ==> HasHeader(data))
      requires data != [] ==> var skip := ToSkip(data);
        WellFormed(received + Past(data, skip)) && (0 < skip ==> |data| <= skip + maxBufSize)
      modifies this, buffer
      ensures data == [] ==> ret == Failure && unchanged(this) && buffer[..] == old(buffer[..])
      ensures data != [] ==>
                (ret == Failure <==> old(ToSkip(data) == 0 && LoneByte(data)) || Refused(old(ops), ops))
      ensures old(ops) <= ops
      ensures ret == Success ==> Valid() && received == old(received) + Past(data, old(ToSkip(data)))
      ensures ret == Success ==> dealLen + curlen == |data| + old(curlen)
      ensures ret == Success ==> !firstBuffer && skipLength == Left(old(ToSkip(data)), |data|)
      ensures ret == Success && old(ToSkip(data)) == 0 ==> executed == Records(received) && Kept() == Rest(received)
      ensures ret == Success ==> RecordsFit(|old(received)|, received)
      ensures ret == Success && received == [] ==> buffer[..] == old(buffer[..])
      ensures ret == Stuck ==> Valid() && old(ToSkip(data)) == 0 && curlen == maxBufSize && Kept() == Rest(received)
      ensures ret == Stuck ==> old(received) <= received < old(received) + data
      ensures ret == Stuck ==> !RecordsFit(|old(received)|, old(received) + data)
    {
      hide Number, HasNext, Records, Rest, WellFormed, HeaderLength, RecordsFit, Past, Misread, Balanced;
      ret, dealLen := Success, 0;
      if |data| == 0 {
        return Failure, 0;
      }
      ghost var had, skip := received, ToSkip(data);
      var leftLen := curlen;
      ProcessHeader(data);
      var skipped;
      PastNone(data);
      SkipsOnly(had, data, skip);
      skipped, dealLen := SkipTargetData(data);
      if skipped {
        assert received == had + Past(data, skip);
        KeptFits(had);
        return;
      }
      ret := RefillAll(data);
      if ret != Failure {
        AllInstalled();
      }
      if ret == Success {
        dealLen := |data| + leftLen - curlen;
      } else if ret == Stuck {
        TooLong(|had|, received, had + data);
      }
    }

    /** What follows the header is in the buffer. */
    lemma KeptFits(had: seq<byte>)
      requires had == [] && |received| <= maxBufSize
      ensures RecordsFit(|had|, received)
    {
      forall p | 0 <= p < |received| ensures |Rest(received[..p])| < maxBufSize {
        RestBelow(received[..p]);
      }
    }

    lemma TooLong(n: nat, received: seq<byte>, all: seq<byte>)
      requires n <= |received| && received < all && |Rest(received)| == maxBufSize
      ensures !RecordsFit(n, all)
    {
      assert all[..|received|] == received;
    }

    static lemma PastNone(data: seq<byte>)
      ensures Past(data, 0) == data
    {
    }

    lemma NoneYet(had: seq<byte>)
      ensures RecordsFit(|had|, had)
    {
    }

    static lemma SkipsOnly(had: seq<byte>, data: seq<byte>, skip: nat)
      requires WellFormed(had + Past(data, skip))
      ensures had == [] ==> WellFormed(Past(data, skip))
    {
      assert had == [] ==> had + Past(data, skip) == Past(data, skip);
    }

    static lemma Ahead(received: seq<byte>, remain: seq<byte>, all: seq<byte>)
      requires received + remain == all && remain != []
      ensures received < all
    {
    }

    lemma AllInstalled()
      requires Valid() && !HasNext(Kept())
      ensures executed == Records(received) && Kept() == Rest(received)
    {
      hide HasNext;
      assert executed + [] == executed;
    }
  }

  /** Piece `i` is the first that brings data, and is a single byte; or the buffer has room for no
      more than one. */
  ghost predicate FirstAlone(pieces: seq<seq<byte>>, skip: nat, had: seq<byte>, maxBufSize: nat, i: nat)
    requires i < |pieces|
  {
    var n := |Flatten(pieces[..i])|;
    if maxBufSize == 1 then skip <= n else 1 < maxBufSize && skip == n && had == [] && |pieces[i]| == 1
  }

  ghost predicate SomeAlone(pieces: seq<seq<byte>>, skip: nat, had: seq<byte>, maxBufSize: nat) {
    exists i :: 0 <= i < |pieces| && FirstAlone(pieces, skip, had, maxBufSize, i)
  }

  /** A whole stream, in pieces: what is installed depends on the bytes alone, never on where they
      were cut, and no byte is lost or counted twice. If nothing is refused, and the first byte of
      data does not come alone before something else than a zero in the buffer, all of it is
      installed if what has arrived of a record never fills the buffer, and otherwise a call
      hangs. */
  method Install(u: BinChunkUpdate, pieces: seq<seq<byte>>) returns (ret: Code, dealt: nat)
    requires u.Valid() && pieces != [] && forall i :: 0 <= i < |pieces| ==> pieces[i] != []
    requires u.firstBuffer ==> BinChunkUpdate.HasHeader(pieces[0])
    requires var skip := u.ToSkip(pieces[0]);
      && WellFormed(u.received + BinChunkUpdate.Past(Flatten(pieces), skip))
      && (0 < skip ==> forall i :: 0 <= i < |pieces| ==> |pieces[i]| <= u.maxBufSize)
    modifies u, u.buffer
    ensures old(u.ops) <= u.ops
    ensures ret == Failure <==>
              || u.Refused(old(u.ops), u.ops)
              || old(u.Second() != 0 && SomeAlone(pieces, u.ToSkip(pieces[0]), u.received, u.maxBufSize))
    ensures var whole := old(u.received + BinChunkUpdate.Past(Flatten(pieces), u.ToSkip(pieces[0])));
      && (ret != Failure ==> (ret == Success <==> u.RecordsFit(|old(u.received)|, whole)))
      && (ret == Success ==> u.received == whole)
    ensures ret == Success ==> u.Valid() && dealt + u.curlen == |Flatten(pieces)| + old(u.curlen)
    ensures ret == Success && old(u.ToSkip(pieces[0])) <= |Flatten(pieces[..|pieces| - 1])| ==>
              u.executed == Records(u.received) && u.Kept() == Rest(u.received)
    ensures ret == Stuck ==> u.Valid() && u.curlen == u.maxBufSize && u.Kept() == Rest(u.received)
  {
    hide Number, HasNext, Records, Rest, WellFormed, Flatten, BinChunkUpdate.Past, BinChunkUpdate.HeaderLength;
    hide BinChunkUpdate.RecordsFit, BinChunkUpdate.LoneByte, BinChunkUpdate.Balanced, FirstAlone;
    ghost var had, held, skip, all := u.received, u.curlen, u.ToSkip(pieces[0]), Flatten(pieces);
    ghost var second, max := u.Second(), u.maxBufSize;
    ret, dealt := Success, 0;
    assert pieces[..0] == [];
    NothingFed(had, skip);
    u.NoneYet(had);
    for i := 0 to |pieces|
      invariant ret == Success && u.Valid() && old(u.ops) <= u.ops && !u.Refused(old(u.ops), u.ops)
      invariant u.received == had + BinChunkUpdate.Past(Flatten(pieces[..i]), skip) && u.RecordsFit(|had|, u.received)
      invariant dealt + u.curlen == |Flatten(pieces[..i])| + held
      invariant if i == 0 then u.firstBuffer == old(u.firstBuffer) && u.skipLength == old(u.skipLength)
                else !u.firstBuffer && u.skipLength == Left(skip, |Flatten(pieces[..i])|)
      invariant 0 < i && skip <= |Flatten(pieces[..i - 1])| ==>
                u.executed == Records(u.received) && u.Kept() == Rest(u.received)
      invariant u.received == [] || max == 1 ==> u.Second() == second
      invariant second != 0 ==> forall k :: 0 <= k < i ==> !FirstAlone(pieces, skip, had, max, k)
    {
      ghost var sofar, was := Flatten(pieces[..i]), u.received;
      FedFurther(pieces, i, had, skip);
      assert u.ToSkip(pieces[i]) == Left(skip, |sofar|);
      AloneIsLone(u, pieces, skip, had, second, i);
      var dealLen;
      ret, dealLen := u.StartBinChunkUpdate(pieces[i]);
      if ret == Stuck {
        if second != 0 {
          NeverAlone(pieces, skip, had, max, i);
        }
        BinChunkUpdate.PastNone(pieces[i]);
        FitsPart(u, pieces, i + 1, had, skip, was);
      }
      if ret != Success {
        return;
      }
      u.FitsOn(|had|, was, u.received);
      dealt := dealt + dealLen;
    }
    assert pieces[..|pieces|] == pieces;
  }

  /** What the call with piece `i` finds. */
  lemma AloneIsLone(u: BinChunkUpdate, pieces: seq<seq<byte>>, skip: nat, had: seq<byte>, second: byte, i: nat)
    requires i < |pieces| && u.Valid() && pieces[i] != []
    requires u.received == had + BinChunkUpdate.Past(Flatten(pieces[..i]), skip)
    requires u.received == [] || u.maxBufSize == 1 ==> u.Second() == second
    ensures skip <= |Flatten(pieces[..i])| && u.LoneByte(pieces[i]) <==>
              second != 0 && FirstAlone(pieces, skip, had, u.maxBufSize, i)
  {
    hide Flatten, BinChunkUpdate.Second;
    u.NothingKept();
    if u.maxBufSize != 1 && u.received != [] {
      u.NotLone(pieces[i]);
    }
  }

  /** Past the first piece with data, no other is the first. */
  lemma NeverAlone(pieces: seq<seq<byte>>, skip: nat, had: seq<byte>, max: nat, i: nat)
    requires i < |pieces| && skip <= |Flatten(pieces[..i])| && forall k :: 0 <= k < |pieces| ==> pieces[k] != []
    requires forall k :: 0 <= k <= i ==> !FirstAlone(pieces, skip, had, max, k)
    ensures !SomeAlone(pieces, skip, had, max)
  {
    hide Flatten;
    assert !FirstAlone(pieces, skip, had, max, i);
    forall k | i < k < |pieces| ensures !FirstAlone(pieces, skip, had, max, k) {
      FlattenLonger(pieces, i, k);
    }
  }

  lemma {:induction false} FlattenLonger(pieces: seq<seq<byte>>, i: nat, k: nat)
    requires i < k <= |pieces| && forall x :: 0 <= x < |pieces| ==> pieces[x] != []
    ensures |Flatten(pieces[..i])| < |Flatten(pieces[..k])|
    decreases k
  {
    assert pieces[..k][..k - 1] == pieces[..k - 1];
    if i < k - 1 {
      FlattenLonger(pieces, i, k - 1);
    }
  }

  /** If the first pieces do not fit, the whole does not. */
  lemma FitsPart(u: BinChunkUpdate, pieces: seq<seq<byte>>, i: nat, had: seq<byte>, skip: nat, was: seq<byte>)
    requires i <= |pieces| && |had| <= |was|
    requires !u.RecordsFit(|was|, had + BinChunkUpdate.Past(Flatten(pieces[..i]), skip))
    ensures !u.RecordsFit(|had|, had + BinChunkUpdate.Past(Flatten(pieces), skip))
  {
    hide Flatten, BinChunkUpdate.RecordsFit, BinChunkUpdate.Past;
    ghost var rest := FlattenRest(pieces, i);
    var next := Flatten(pieces[..i]);
    PastSum(next, rest, skip);
    var a, b := BinChunkUpdate.Past(next, skip), BinChunkUpdate.Past(rest, Left(skip, |next|));
    assert had + (a + b) == (had + a) + b;
    if u.RecordsFit(|had|, had + (a + b)) {
      u.FitsBefore(|had|, had + a, |was|, had + (a + b));
    }
  }

  function Left(skip: nat, n: nat): nat {
    if skip <= n then 0 else skip - n
  }

  lemma NothingFed(had: seq<byte>, skip: nat)
    ensures Flatten([]) == [] && had + BinChunkUpdate.Past([], skip) == had
  {
  }

  lemma FlattenNext(pieces: seq<seq<byte>>, i: nat)
    requires i < |pieces|
    ensures Flatten(pieces[..i + 1]) == Flatten(pieces[..i]) + pieces[i]
  {
    assert pieces[..i + 1][..i] == pieces[..i];
  }

  lemma FedFurther(pieces: seq<seq<byte>>, i: nat, had: seq<byte>, skip: nat)
    requires i < |pieces| && WellFormed(had + BinChunkUpdate.Past(Flatten(pieces), skip))
    ensures var sofar, next := Flatten(pieces[..i]), Flatten(pieces[..i + 1]);
      && next == sofar + pieces[i]
      && had + BinChunkUpdate.Past(next, skip)
          == had + BinChunkUpdate.Past(sofar, skip) + BinChunkUpdate.Past(pieces[i], Left(skip, |sofar|))
      && WellFormed(had + BinChunkUpdate.Past(next, skip))
  {
    hide WellFormed, Flatten, BinChunkUpdate.Past;
    FlattenNext(pieces, i);
    var sofar, next := Flatten(pieces[..i]), Flatten(pieces[..i + 1]);
    PastSum(sofar, pieces[i], skip);
    ghost var rest := FlattenRest(pieces, i + 1);
    PastSum(next, rest, skip);
    var a, b := BinChunkUpdate.Past(next, skip), BinChunkUpdate.Past(rest, Left(skip, |next|));
    assert had + (a + b) == (had + a) + b;
    WellFormedBefore(had + a, b);
  }

  lemma PastSum(a: seq<byte>, b: seq<byte>, skip: nat)
    ensures BinChunkUpdate.Past(a + b, skip) == BinChunkUpdate.Past(a, skip) + BinChunkUpdate.Past(b, Left(skip, |a|))
  {
  }

  lemma {:induction false} FlattenRest(pieces: seq<seq<byte>>, i: nat) returns (rest: seq<byte>)
    requires i <= |pieces|
    ensures Flatten(pieces) == Flatten(pieces[..i]) + rest
    decreases |pieces| - i
  {
    if i == |pieces| {
      assert pieces[..i] == pieces;
      rest := [];
    } else {
      rest := FlattenRest(pieces, i + 1);
      assert pieces[..i + 1][..i] == pieces[..i];
      rest := pieces[i] + rest;
    }
  }

  // ---------------------------------------------------------------- where it goes wrong

  const EMPTY_HEADER: seq<byte> := [0xaa, 0, 0, 0, 0, 0]

  lemma EmptyHeader()
    ensures BinChunkUpdate.HasHeader(EMPTY_HEADER) && BinChunkUpdate.HeaderLength(EMPTY_HEADER) == 6
    ensures WellFormed([]) && WellFormed([DATA_TIP])
  {
    var tip, length := EMPTY_HEADER[0..2], EMPTY_HEADER[2..6];
    assert tip == [0xaa, 0] && length == [0, 0, 0, 0];
    NoNumber(tip[1..]);
    NoNumber(length);
  }

  lemma {:induction false} NoNumber(s: seq<byte>)
    requires forall k :: 0 <= k < |s| ==> s[k] == 0
    ensures Number(s) == 0
  {
    if s != [] {
      NoNumber(s[1..]);
    }
  }

  /** The first byte of data alone: with anything but a zero behind it in the buffer, which nobody
      has written yet, a stream that is in order is refused. */
  method LoneByteFails(maxBufSize: nat, junk: byte, beyond: byte) returns (header: Code, data: Code)
    requires 1 < maxBufSize && junk != 0
    ensures header == Success && data == Failure
  {
    hide Number, WellFormed, BinChunkUpdate.HeaderLength, BinChunkUpdate.HasHeader;
    var u := new BinChunkUpdate(maxBufSize, _ => junk, beyond, _ => false);
    EmptyHeader();
    assert [] + BinChunkUpdate.Past(EMPTY_HEADER, 6) == [];
    var dealLen;
    header, dealLen := u.StartBinChunkUpdate(EMPTY_HEADER);
    assert u.received == [];
    u.NothingKept();
    assert [] + BinChunkUpdate.Past([DATA_TIP], 0) == [DATA_TIP];
    data, dealLen := u.StartBinChunkUpdate([DATA_TIP]);
  }

  const LONG_FIELD: seq<byte> := [0x12, 0, 1, 0, 0x41]

  lemma LongField()
    ensures WellFormed(LONG_FIELD) && BinChunkUpdate.HasHeader(LONG_FIELD)
    ensures BinChunkUpdate.HeaderLength(LONG_FIELD) == 0
    ensures |Rest(LONG_FIELD[..4])| == 4
  {
    var tip := LONG_FIELD[0..2];
    assert tip == [0x12, 0];
    NoNumber(tip[1..]);
    assert Number(tip) == 0x12;
    assert LONG_FIELD[..4][0..2] == tip;
    FieldTooLong();
  }

  lemma FieldTooLong()
    ensures !HasNext(LONG_FIELD) && !HasNext(LONG_FIELD[..4])
  {
    var length := LONG_FIELD[2..4];
    assert length == [1, 0];
    NoNumber(length[1..]);
    assert Number(length) == 1;
    assert LONG_FIELD[..4][2..4] == length;
  }

  /** A field that needs one byte more than the buffer has: the call does not return. */
  method FullBufferHangs(beyond: byte) returns (ret: Code)
    ensures ret == Stuck
  {
    hide Number, WellFormed, Rest, BinChunkUpdate.HeaderLength, BinChunkUpdate.HasHeader;
    var u := new BinChunkUpdate(4, _ => 0, beyond, _ => false);
    LongField();
    assert [] + BinChunkUpdate.Past(LONG_FIELD, 0) == LONG_FIELD;
    var dealLen;
    ret, dealLen := u.StartBinChunkUpdate(LONG_FIELD);
  }
}
