/** The data section of an update stream: install records, each naming a partition, a command
    line and its data, and what a stream holds of them however far it has arrived. */
module StreamRecords {
  import Bits
  import opened Device
  import opened LittleEndian

  const DATA_TIP: nat := 0x12
  const HASH_TIP: nat := 0x16
  const HH_SIZE := 4  // PkgTlvHH: type and length, two bytes each
  const HI_SIZE := 6  // PkgTlvHI: a type of two bytes, a length of four

  datatype Record = Record(partition: seq<byte>, cmdLine: seq<byte>, payload: seq<byte>)

  datatype Ends = Short | Whole(partition: nat, cmdLine: nat, payload: nat)

  /** PkgFileImpl::ConvertBufferToString: up to the first character that cannot be printed. */
  function Printable(s: seq<byte>): seq<byte> {
    if s == [] || !(32 <= s[0] < 127) then [] else [s[0]] + Printable(s[1..])
  }

  /** Where the field at `at` ends, 0 if not all of it is there: `size` bytes of type and length,
      the length being `width` bytes wide, and the value. */
  function FieldEnd(s: seq<byte>, at: nat, size: nat, width: nat): (end: nat)
    requires 2 + width == size
    ensures end == 0 || at + size <= end <= |s|
  {
    if at + size <= |s| && at + size + Get(s, at + 2, width) <= |s| then at + size + Get(s, at + 2, width) else 0
  }

  /** The ends of the three fields of the record at the head of `s`. */
  function EndsOf(s: seq<byte>): (e: Ends)
    ensures e.Whole? ==> HH_SIZE <= e.partition && e.partition + HH_SIZE <= e.cmdLine
    ensures e.Whole? ==> e.cmdLine + HI_SIZE <= e.payload <= |s|
  {
    var p := FieldEnd(s, 0, HH_SIZE, 2);
    if p == 0 then Short
    else
      var c := FieldEnd(s, p, HH_SIZE, 2);
      if c == 0 then Short
      else
        var d := FieldEnd(s, c, HI_SIZE, 4);
        if d == 0 then Short else Whole(p, c, d)
  }

  function RecordOf(s: seq<byte>): Record
    requires EndsOf(s).Whole?
  {
    var e := EndsOf(s);
    Record(Printable(s[HH_SIZE..e.partition]), Printable(s[e.partition + HH_SIZE..e.cmdLine]),
        s[e.cmdLine + HI_SIZE..e.payload])
  }

  predicate AtHash(s: seq<byte>) {
    2 <= |s| && Get(s, 0, 2) == HASH_TIP
  }

  /** A whole record comes next. */
  predicate HasNext(s: seq<byte>) {
    !AtHash(s) && EndsOf(s).Whole?
  }

  function AfterNext(s: seq<byte>): (rest: seq<byte>)
    requires HasNext(s)
    ensures |rest| < |s|
  {
    s[EndsOf(s).payload..]
  }

  /** The whole records at the head of `s`, up to the hash section. */
  function Records(s: seq<byte>): seq<Record>
    decreases |s|
  {
    if HasNext(s) then [RecordOf(s)] + Records(AfterNext(s)) else []
  }

  function Rest(s: seq<byte>): (r: seq<byte>)
    ensures |r| <= |s| && !HasNext(r)
    decreases |s|
  {
    if HasNext(s) then Rest(AfterNext(s)) else s
  }

  /** Type 0x12 or 0x16, as far as it is there. */
  predicate GoodTip(s: seq<byte>) {
    && (s != [] ==> s[0] == DATA_TIP || s[0] == HASH_TIP)
    && (2 <= |s| ==> Get(s, 0, 2) == DATA_TIP || Get(s, 0, 2) == HASH_TIP)
  }

  /** Every record is of type 0x12, and nothing but the hash section follows them. */
  predicate WellFormed(s: seq<byte>)
    decreases |s|
  {
    GoodTip(s) && (HasNext(s) ==> WellFormed(AfterNext(s)))
  }

  // ---------------------------------------------------------------- more of the stream

  lemma FieldGrows(s: seq<byte>, d: seq<byte>, at: nat, size: nat, width: nat)
    requires 2 + width == size && FieldEnd(s, at, size, width) != 0
    ensures FieldEnd(s + d, at, size, width) == FieldEnd(s, at, size, width)
  {
    hide Number;
    assert (s + d)[at + 2..at + 2 + width] == s[at + 2..at + 2 + width];
  }

  lemma HeadSame(s: seq<byte>, d: seq<byte>)
    requires 2 <= |s|
    ensures Get(s + d, 0, 2) == Get(s, 0, 2) && (AtHash(s + d) <==> AtHash(s))
  {
    hide Number;
    assert (s + d)[0..2] == s[0..2];
  }

  /** A whole record stays what it is when more arrives. */
  lemma NextGrows(s: seq<byte>, d: seq<byte>)
    requires HasNext(s)
    ensures HasNext(s + d) && RecordOf(s + d) == RecordOf(s) && AfterNext(s + d) == AfterNext(s) + d
  {
    hide FieldEnd, Number, Printable, Get;
    var e := EndsOf(s);
    FieldGrows(s, d, 0, HH_SIZE, 2);
    FieldGrows(s, d, e.partition, HH_SIZE, 2);
    FieldGrows(s, d, e.cmdLine, HI_SIZE, 4);
    HeadSame(s, d);
    assert EndsOf(s + d) == e;
    assert (s + d)[HH_SIZE..e.partition] == s[HH_SIZE..e.partition];
    assert (s + d)[e.partition + HH_SIZE..e.cmdLine] == s[e.partition + HH_SIZE..e.cmdLine];
    assert (s + d)[e.cmdLine + HI_SIZE..e.payload] == s[e.cmdLine + HI_SIZE..e.payload];
  }

  /** Reading on from the rest is reading the whole from the start. */
  lemma {:induction false} ReadOn(s: seq<byte>, d: seq<byte>)
    ensures Records(s + d) == Records(s) + Records(Rest(s) + d)
    ensures Rest(s + d) == Rest(Rest(s) + d)
    ensures WellFormed(s + d) ==> WellFormed(Rest(s) + d)
    decreases |s|
  {
    hide HasNext, RecordOf, AfterNext;
    if HasNext(s) {
      NextGrows(s, d);
      AfterShorter(s);
      ReadOn(AfterNext(s), d);
    }
  }

  lemma AfterShorter(s: seq<byte>)
    requires HasNext(s)
    ensures |AfterNext(s)| < |s|
  {
  }

  /** What is well formed so far is well formed at every earlier point. */
  lemma {:induction false} WellFormedBefore(s: seq<byte>, d: seq<byte>)
    requires WellFormed(s + d)
    ensures WellFormed(s)
    decreases |s|
  {
    hide RecordOf, Number, EndsOf, HasNext, AfterNext;
    if 2 <= |s| {
      HeadSame(s, d);
    }
    if HasNext(s) {
      NextGrows(s, d);
      AfterShorter(s);
      WellFormedBefore(AfterNext(s), d);
    }
  }

  lemma {:induction false} WellFormedOn(s: seq<byte>, d: seq<byte>)
    requires WellFormed(s) && WellFormed(Rest(s) + d)
    ensures WellFormed(s + d)
    decreases |s|
  {
    hide RecordOf, Number, EndsOf, HasNext, AfterNext;
    if HasNext(s) {
      NextGrows(s, d);
      AfterShorter(s);
      NotShort(s);
      HeadSame(s, d);
      WellFormedOn(AfterNext(s), d);
    }
  }

  lemma NotShort(s: seq<byte>)
    requires HasNext(s)
    ensures HH_SIZE + HH_SIZE + HI_SIZE <= |s|
  {
  }

  /** Reading a sum: what holds of the rest of one stream holds of a buffer with the same rest. */
  lemma ReadOnFrom(s: seq<byte>, l: seq<byte>, d: seq<byte>, done: seq<Record>)
    requires done + Records(l) == Records(s) && Rest(l) == Rest(s) && WellFormed(l) && WellFormed(s + d)
    ensures done + Records(l + d) == Records(s + d) && Rest(l + d) == Rest(s + d) && WellFormed(l + d)
  {
    hide Records, Rest, WellFormed;
    ReadOn(s, d);
    ReadOn(l, d);
    WellFormedOn(l, d);
    assert done + (Records(l) + Records(Rest(l) + d)) == done + Records(l) + Records(Rest(l) + d);
  }

  // ---------------------------------------------------------------- writing a stream

  /** Printable characters: blanks and what follows them, up to the tilde. */
  predicate IsPrintable(b: byte) {
    ' ' as int <= b <= '~' as int
  }

  predicate IsText(s: seq<byte>) {
    forall k :: 0 <= k < |s| ==> IsPrintable(s[k])
  }

  /** The longest beginning of printable characters. */
  lemma {:induction false} PrintableIs(s: seq<byte>)
    ensures var n := |Printable(s)|;
      && n <= |s| && Printable(s) == s[..n] && IsText(s[..n])
      && (n < |s| ==> !IsPrintable(s[n]))
  {
    if Printable(s) != [] {
      PrintableIs(s[1..]);
      var n := |Printable(s)|;
      assert s[..n] == [s[0]] + s[1..][..n - 1];
    }
  }

  /** Text is not cut. */
  lemma PrintableText(s: seq<byte>)
    ensures Printable(s) == s <==> IsText(s)
  {
    PrintableIs(s);
    assert s[..|s|] == s;
  }

  /** A record can be written: its names are text, and its lengths fit their fields. */
  predicate Writable(r: Record) {
    && IsText(r.partition) && IsText(r.cmdLine)
    && |r.partition| < Base(2) && |r.cmdLine| < Base(2) && |r.payload| < Base(4)
  }

  function Encode(r: Record): seq<byte> {
    Bytes(DATA_TIP, 2) + Bytes(|r.partition|, 2) + r.partition
    + (Bytes(DATA_TIP, 2) + Bytes(|r.cmdLine|, 2) + r.cmdLine)
    + (Bytes(DATA_TIP, 2) + Bytes(|r.payload|, 4) + r.payload)
  }

  function EncodeAll(rs: seq<Record>): seq<byte> {
    if rs == [] then [] else Encode(rs[0]) + EncodeAll(rs[1..])
  }

  lemma FieldRead(before: seq<byte>, tip: nat, value: seq<byte>, after: seq<byte>, size: nat, width: nat)
    requires 2 + width == size && |value| < Base(width) && 0 < size
    ensures var s := before + (Bytes(tip, 2) + Bytes(|value|, width) + value) + after;
      var e := |before| + size + |value|;
      FieldEnd(s, |before|, size, width) == e && s[|before| + size..e] == value
          && s[..e] == before + (Bytes(tip, 2) + Bytes(|value|, width) + value)
  {
    hide Number, Bytes, Base, FieldEnd;
    var s := before + (Bytes(tip, 2) + Bytes(|value|, width) + value) + after;
    FieldParts(before, Bytes(tip, 2), Bytes(|value|, width), value, after);
    NumberOfBytes(|value|, width);
    Bits.ModUnique(|value|, Base(width), 0, |value|);
    assert Get(s, |before| + 2, width) == |value|;
    FieldIs(s, |before|, size, width);
  }

  lemma FieldIs(s: seq<byte>, at: nat, size: nat, width: nat)
    requires 2 + width == size && at + size <= |s|
    ensures at + size + Get(s, at + 2, width) <= |s| ==>
              FieldEnd(s, at, size, width) == at + size + Get(s, at + 2, width)
  {
    hide Get;
  }

  lemma FieldParts(before: seq<byte>, a: seq<byte>, b: seq<byte>, value: seq<byte>, after: seq<byte>)
    ensures var s := before + (a + b + value) + after;
      var n, m := |before| + |a|, |before| + |a| + |b|;
      s[n..m] == b && s[m..m + |value|] == value && s[..m + |value|] == before + (a + b + value)
  {
  }

  /** What is written is what is read. */
  lemma EncodedNext(r: Record, more: seq<byte>)
    requires Writable(r)
    ensures GoodTip(Encode(r) + more) && HasNext(Encode(r) + more)
    ensures RecordOf(Encode(r) + more) == r && AfterNext(Encode(r) + more) == more
  {
    hide Number, Bytes, FieldEnd, Printable, Base, IsText;
    PrintableText(r.partition);
    PrintableText(r.cmdLine);
    var p := Bytes(DATA_TIP, 2) + Bytes(|r.partition|, 2) + r.partition;
    var c := Bytes(DATA_TIP, 2) + Bytes(|r.cmdLine|, 2) + r.cmdLine;
    var d := Bytes(DATA_TIP, 2) + Bytes(|r.payload|, 4) + r.payload;
    var s := Encode(r) + more;
    FieldRead([], DATA_TIP, r.partition, c + d + more, HH_SIZE, 2);
    assert s == [] + p + (c + d + more);
    FieldRead(p, DATA_TIP, r.cmdLine, d + more, HH_SIZE, 2);
    assert s == p + c + (d + more);
    FieldRead(p + c, DATA_TIP, r.payload, more, HI_SIZE, 4);
    assert s == (p + c) + d + more;
    TipRead(s);
  }

  lemma TipRead(s: seq<byte>)
    requires 2 <= |s| && s[..2] == Bytes(DATA_TIP, 2)
    ensures GoodTip(s) && !AtHash(s)
  {
    assert Bytes(DATA_TIP, 2) == [DATA_TIP % 256] + Bytes(DATA_TIP / 256, 1);
    assert Bytes(0, 1) == [0];
    assert s[0..2] == s[..2];
    NumberOfBytes(DATA_TIP, 2);
    assert Base(2) == 256 * Base(1);
    assert s[0] == s[..2][0];
  }

  /** A stream of written records is well formed, holds exactly those records, and leaves no rest. */
  lemma {:induction false} EncodedAll(rs: seq<Record>)
    requires forall r :: r in rs ==> Writable(r)
    ensures WellFormed(EncodeAll(rs)) && Records(EncodeAll(rs)) == rs && Rest(EncodeAll(rs)) == []
  {
    hide RecordOf, Encode, Writable, HasNext, AfterNext;
    if rs == [] {
      Nothing();
    } else {
      var more := EncodeAll(rs[1..]);
      assert Writable(rs[0]);
      EncodedAll(rs[1..]);
      EncodedNext(rs[0], more);
      AfterShorter(Encode(rs[0]) + more);
      assert rs == [rs[0]] + rs[1..];
    }
  }

  lemma Nothing()
    ensures !HasNext([]) && GoodTip([])
  {
  }
}
