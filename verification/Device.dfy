/** The partition a transfer list rewrites: a byte store behind a file position, whose writes
    may fail at any time and then leave anything in the bytes they were given to cover. */
module Device {
  import opened Ranges

  type byte = b: int | 0 <= b < 0x100

  /** What becomes of one I/O operation. A failing write leaves `junk(a)` at each address `a`
      it covers: nothing written, part of it, or neither old nor new. */
  datatype Fault = Fine | Fail(junk: nat -> byte)

  class BlockDevice {
    var content: seq<byte>
    var pos: nat
    var ops: nat
    const faults: nat -> Fault

    constructor (image: seq<byte>, faults: nat -> Fault)
      ensures content == image && pos == 0 && ops == 0 && this.faults == faults
    {
      content, pos, ops := image, 0, 0;
      this.faults := faults;
    }

    /** lseek64 with SEEK_SET. */
    method Seek(offset: nat)
      modifies this`pos
      ensures pos == offset
    {
      pos := offset;
    }

    /** Utils::ReadFully: false when the device ends first. */
    method ReadFully(size: nat) returns (ok: bool, data: seq<byte>)
      modifies this`pos
      ensures ok <==> size == 0 || old(pos) + size <= |content|
      ensures ok && 0 < size ==> data == content[old(pos)..old(pos) + size]
      ensures size == 0 ==> data == []
      ensures pos == if ok then old(pos) + size else old(pos)
    {
      ok, data := size == 0 || pos + size <= |content|, [];
      if ok && 0 < size {
        data := content[pos..pos + size];
        pos := pos + size;
      }
    }

    /** Utils::WriteFully: whole success, or failure with the covered bytes undefined. */
    method WriteFully(data: seq<byte>) returns (ok: bool)
      modifies this
      ensures |content| == |old(content)|
      ensures ok <==> data == [] || (old(faults(ops)).Fine? && old(pos) + |data| <= |content|)
      ensures ok ==> pos == old(pos) + |data|
      ensures ok ==> content == Scatter(old(content), Span(old(pos), |data|), data)
      ensures SameOutside(old(content), content, Span(old(pos), |data|))
      ensures ops == if data == [] then old(ops) else old(ops) + 1
    {
      if data == [] {
        return true;
      }
      var fault := faults(ops);
      ops := ops + 1;
      ok := fault.Fine? && pos + |data| <= |content|;
      ghost var start, was := pos, content;
      var k := 0;
      while k < |data| && pos < |content|
        invariant 0 <= k <= |data| && pos == start + k && |content| == |was| && ops == old(ops) + 1
        invariant k == 0 || pos <= |content|
        invariant forall a :: 0 <= a < |content| && !(start <= a < start + |data|) ==> content[a] == was[a]
        invariant ok ==> content == Scatter(was, Span(start, |data|), data[..k])
      {
        var b := if fault.Fail? then fault.junk(pos) else data[k];
        content := content[pos := b];
        assert data[..k + 1][..k] == data[..k];
        k, pos := k + 1, pos + 1;
      }
      assert ok ==> data[..k] == data;
    }
  }
}
