/** A list with every command, and what it leaves: that lists are well formed is no empty demand. */
module SampleLists {
  import opened Ranges
  import opened Device
  import opened BlockSets
  import opened MoveBlocks
  import opened TransferLists
  import opened Resume

  function Block(k: nat): seq<BlockPair> {
    [RawPair(k, k + 1)]
  }

  /** Four blocks, one after the other. */
  function Image(a: seq<byte>, b: seq<byte>, c: seq<byte>, d: seq<byte>): seq<byte> {
    a + b + c + d
  }

  predicate AreBlocks(a: seq<byte>, b: seq<byte>, c: seq<byte>, d: seq<byte>) {
    |a| == |b| == |c| == |d| == BLOCK_SIZE
  }

  /** Block 0 is stashed, moved to block 1, and patched in place; block 2 is new and block 3 is
      zeroed; the stash is freed. */
  function Sample(env: Env, image: seq<byte>, a: seq<byte>, unpacked: seq<byte>): Job {
    var h := env.hash(a);
    Job(env, [Stash(h, Block(0)), Move(h, Block(1), 1, FromDevice(Block(0))),
              Diff(h, env.hash(env.apply(0, a)), Block(0), 1, FromDevice(Block(0)), 0),
              New(Block(2)), Zero(Block(3)), Free(h)], unpacked, image)
  }

  lemma BlockAddrs(k: nat)
    ensures Addrs(Block(k)) == Span(k * BLOCK_SIZE, BLOCK_SIZE) && Unique(Addrs(Block(k))) && NoneEmpty(Block(k))
  {
    assert Block(k)[..0] == [];
    assert Addrs(Block(k)) == Addrs([]) + RangeAddrs(Block(k)[0]);
  }

  lemma BlocksApart(i: nat, k: nat)
    requires i != k
    ensures Apart(Addrs(Block(i)), Addrs(Block(k)))
  {
    BlockAddrs(i);
    BlockAddrs(k);
  }

  /** A block read, and a block written. */
  lemma BlockRead(image: seq<byte>, k: nat)
    requires (k + 1) * BLOCK_SIZE <= |image|
    ensures InBounds(Addrs(Block(k)), |image|)
    ensures ReadSource(image, Block(k), BLOCK_SIZE) == image[k * BLOCK_SIZE..(k + 1) * BLOCK_SIZE]
  {
    BlockAddrs(k);
  }

  lemma BlockWritten(image: seq<byte>, k: nat, data: seq<byte>)
    requires (k + 1) * BLOCK_SIZE <= |image| && |data| == BLOCK_SIZE
    ensures Lay(image, Addrs(Block(k)), data) == image[..k * BLOCK_SIZE] + data + image[(k + 1) * BLOCK_SIZE..]
  {
    BlockAddrs(k);
    var t, r := Addrs(Block(k)), Lay(image, Addrs(Block(k)), data);
    forall x | 0 <= x < |image| ensures r[x] == (image[..k * BLOCK_SIZE] + data + image[(k + 1) * BLOCK_SIZE..])[x] {
      if x in t {
        ScatterAt(image, t, data, x - k * BLOCK_SIZE);
      } else {
        ScatterFrame(image, t, data, x);
      }
    }
  }

  lemma Parts(a: seq<byte>, b: seq<byte>, c: seq<byte>, d: seq<byte>)
    requires AreBlocks(a, b, c, d)
    ensures var image := Image(a, b, c, d);
      && |image| == 4 * BLOCK_SIZE && image[..BLOCK_SIZE] == a && image[..2 * BLOCK_SIZE] == a + b
      && image[..3 * BLOCK_SIZE] == a + b + c && image[BLOCK_SIZE..] == b + c + d
      && image[2 * BLOCK_SIZE..] == c + d && image[3 * BLOCK_SIZE..] == d
  {
    var image := Image(a, b, c, d);
    assert image == a + (b + c + d) && image == (a + b) + (c + d);
    FrontAndBack(a, b + c + d);
    FrontAndBack(a + b, c + d);
    FrontAndBack(a + b + c, d);
  }

  lemma FrontAndBack(x: seq<byte>, y: seq<byte>)
    ensures (x + y)[..|x|] == x && (x + y)[|x|..] == y
  {
  }

  /** Writing a block of the image. */
  lemma SetBlock(a: seq<byte>, b: seq<byte>, c: seq<byte>, d: seq<byte>, k: nat, x: seq<byte>)
    requires AreBlocks(a, b, c, d) && |x| == BLOCK_SIZE && k < 4
    ensures Lay(Image(a, b, c, d), Addrs(Block(k)), x)
         == Image(if k == 0 then x else a, if k == 1 then x else b, if k == 2 then x else c, if k == 3 then x else d)
  {
    hide Addrs, Lay;
    var image := Image(a, b, c, d);
    Parts(a, b, c, d);
    BlockWritten(image, k, x);
    if k == 0 {
      assert image[..0] == [] && [] + x + (b + c + d) == x + b + c + d;
    } else if k == 1 {
      assert a + x + (c + d) == a + x + c + d;
    } else if k == 3 {
      assert image[4 * BLOCK_SIZE..] == [] && a + b + c + x + [] == a + b + c + x;
    }
  }

  lemma Written(j: Job, k: nat)
    requires k < |j.cmds| && j.cmds[k].Writes()
    ensures j.At(k + 1) == Ideal(Lay(j.At(k).dev, Addrs(j.cmds[k].tgt), j.Output(k)), j.At(k).store)
  {
  }

  /** What block 0 gives as a source. */
  lemma FromBlock0(j: Job, k: nat)
    requires k < |j.cmds| && j.cmds[k].Patches() && j.cmds[k].source == FromDevice(Block(0)) && j.cmds[k].size == 1
    requires BLOCK_SIZE <= |j.At(k).dev|
    ensures j.Buffer(k) == j.At(k).dev[..BLOCK_SIZE] && j.Output(k) == Made(j.env, j.cmds[k], j.Buffer(k))
  {
    hide Addrs, ReadSource, Made, Job.At;
    BlockRead(j.At(k).dev, 0);
  }

  ghost predicate Input(env: Env, a: seq<byte>, b: seq<byte>, c: seq<byte>, d: seq<byte>, unpacked: seq<byte>) {
    AreBlocks(a, b, c, d) && |unpacked| == |env.apply(0, a)| == BLOCK_SIZE && Injective(env.hash)
  }

  /** The image and the store after the first `k` commands. */
  ghost function State(env: Env, a: seq<byte>, b: seq<byte>, c: seq<byte>, d: seq<byte>, unpacked: seq<byte>,
      k: nat): Ideal {
    Ideal(Image(if k < 3 then a else env.apply(0, a), if k < 2 then b else a, if k < 4 then c else unpacked,
                if k < 5 then d else Zeros(BLOCK_SIZE)),
          if k == 0 || k == 6 then map[] else map[env.hash(a) := a])
  }

  lemma StoreOnly(env: Env, a: seq<byte>, b: seq<byte>, c: seq<byte>, d: seq<byte>, unpacked: seq<byte>, k: nat)
    requires Input(env, a, b, c, d, unpacked) && (k == 0 || k == 5)
    requires var j := Sample(env, Image(a, b, c, d), a, unpacked); j.At(k) == State(env, a, b, c, d, unpacked, k)
    ensures var j := Sample(env, Image(a, b, c, d), a, unpacked); j.At(k + 1) == State(env, a, b, c, d, unpacked, k + 1)
  {
    hide Addrs, ReadSource;
    BlockAddrs(0);
    if k == 0 {
      Parts(a, b, c, d);
      BlockRead(Image(a, b, c, d), 0);
    }
  }

  lemma Patched(env: Env, a: seq<byte>, b: seq<byte>, c: seq<byte>, d: seq<byte>, unpacked: seq<byte>, k: nat)
    requires Input(env, a, b, c, d, unpacked) && (k == 1 || k == 2)
    requires var j := Sample(env, Image(a, b, c, d), a, unpacked); j.At(k) == State(env, a, b, c, d, unpacked, k)
    ensures var j := Sample(env, Image(a, b, c, d), a, unpacked);
      && j.Buffer(k) == a && j.Output(k) == (if k == 1 then a else env.apply(0, a))
      && j.At(k + 1) == State(env, a, b, c, d, unpacked, k + 1)
  {
    hide Addrs, Lay, Job.At, Job.Buffer, Job.Output, Image;
    var j := Sample(env, Image(a, b, c, d), a, unpacked);
    BlockAddrs(k - 1);
    BlockAddrs(1);
    var b' := if k == 1 then b else a;
    Parts(a, b', c, d);
    FromBlock0(j, k);
    assert a[..BLOCK_SIZE] == a;
    Written(j, k);
    SetBlock(a, b', c, d, 2 - k, j.Output(k));
  }

  lemma NewAndZero(env: Env, a: seq<byte>, b: seq<byte>, c: seq<byte>, d: seq<byte>, unpacked: seq<byte>, k: nat)
    requires Input(env, a, b, c, d, unpacked) && (k == 3 || k == 4)
    requires var j := Sample(env, Image(a, b, c, d), a, unpacked); j.At(k) == State(env, a, b, c, d, unpacked, k)
    ensures var j := Sample(env, Image(a, b, c, d), a, unpacked);
      && j.Output(k) == (if k == 3 then unpacked else Zeros(BLOCK_SIZE))
      && j.At(k + 1) == State(env, a, b, c, d, unpacked, k + 1)
  {
    hide Addrs, Lay, Job.At, Image;
    var j := Sample(env, Image(a, b, c, d), a, unpacked);
    BlockAddrs(k - 1);
    SampleOffsets(env, Image(a, b, c, d), a, unpacked);
    assert unpacked[0..BLOCK_SIZE] == unpacked;
    Written(j, k);
    SetBlock(env.apply(0, a), a, if k == 3 then c else unpacked, d, k - 1, j.Output(k));
  }

  lemma SampleOffsets(env: Env, image: seq<byte>, a: seq<byte>, unpacked: seq<byte>)
    ensures var j := Sample(env, image, a, unpacked);
      j.NewOffset(3) == 0 && j.NewOffset(4) == j.NewOffset(6) == BLOCK_SIZE
  {
    hide Addrs;
    BlockAddrs(2);
    var j := Sample(env, image, a, unpacked);
    assert j.NewOffset(0) == 0;
    assert j.NewOffset(1) == 0;
    assert j.NewOffset(2) == 0;
    assert j.NewOffset(5) == j.NewOffset(4);
  }

  lemma {:induction false} SampleStates(env: Env, a: seq<byte>, b: seq<byte>, c: seq<byte>, d: seq<byte>,
                                        unpacked: seq<byte>, k: nat)
    requires Input(env, a, b, c, d, unpacked) && k <= 6
    ensures Sample(env, Image(a, b, c, d), a, unpacked).At(k) == State(env, a, b, c, d, unpacked, k)
  {
    hide Input, Image, State, Sample, Job.At;
    if k == 0 {
      StartsAs(env, a, b, c, d, unpacked);
    } else {
      SampleStates(env, a, b, c, d, unpacked, k - 1);
      if k == 1 || k == 6 {
        StoreOnly(env, a, b, c, d, unpacked, k - 1);
      } else if k < 4 {
        Patched(env, a, b, c, d, unpacked, k - 1);
      } else {
        NewAndZero(env, a, b, c, d, unpacked, k - 1);
      }
    }
  }

  lemma StartsAs(env: Env, a: seq<byte>, b: seq<byte>, c: seq<byte>, d: seq<byte>, unpacked: seq<byte>)
    ensures Sample(env, Image(a, b, c, d), a, unpacked).At(0) == State(env, a, b, c, d, unpacked, 0)
  {
  }

  lemma SampleTargets(env: Env, image: seq<byte>, a: seq<byte>, unpacked: seq<byte>)
    ensures var j := Sample(env, image, a, unpacked);
      && j.Target(0) == j.Target(5) == [] && j.Target(1) == Addrs(Block(1)) && j.Target(2) == Addrs(Block(0))
      && j.Target(3) == Addrs(Block(2)) && j.Target(4) == Addrs(Block(3))
      && forall i, k :: 0 <= i < k < 6 ==> Apart(j.Target(i), j.Target(k))
  {
    hide Addrs;
    BlockAddrs(0);
    BlockAddrs(1);
    var j := Sample(env, image, a, unpacked);
    forall i, k | 0 <= i < k < 6 ensures Apart(j.Target(i), j.Target(k)) {
      if 1 <= i && k <= 4 {
        BlocksApart([0, 1, 0, 2, 3][i], [0, 1, 0, 2, 3][k]);
      }
    }
  }

  lemma SampleSound(env: Env, a: seq<byte>, b: seq<byte>, c: seq<byte>, d: seq<byte>, unpacked: seq<byte>, k: nat)
    requires Input(env, a, b, c, d, unpacked) && k < 6
    ensures SoundCommand(Sample(env, Image(a, b, c, d), a, unpacked), k)
  {
    hide Addrs, Lay, Job.At, Job.Output, Job.Buffer, Image, State, Injective;
    var j := Sample(env, Image(a, b, c, d), a, unpacked);
    SampleStates(env, a, b, c, d, unpacked, k);
    Parts(a, b, c, d);
    BlockAddrs(0);
    BlockAddrs(1);
    BlockAddrs(2);
    BlockAddrs(3);
    if k == 1 || k == 2 {
      Patched(env, a, b, c, d, unpacked, k);
    } else if k == 3 || k == 4 {
      NewAndZero(env, a, b, c, d, unpacked, k);
    }
  }

  /** The list is well formed, whatever the blocks, and leaves the patched block, the block as it was,
      the unpacked data, zeros, and an empty store. */
  lemma SampleWellFormed(env: Env, a: seq<byte>, b: seq<byte>, c: seq<byte>, d: seq<byte>, unpacked: seq<byte>)
    requires AreBlocks(a, b, c, d) && |unpacked| == |env.apply(0, a)| == BLOCK_SIZE && Injective(env.hash)
    ensures var j := Sample(env, Image(a, b, c, d), a, unpacked);
      && WellFormed(j)
      && j.At(|j.cmds|) == Ideal(env.apply(0, a) + a + unpacked + Zeros(BLOCK_SIZE), map[])
  {
    hide Addrs, Job.At, SoundCommand, Apart, Injective, Job.Target, Job.NewOffset;
    var j := Sample(env, Image(a, b, c, d), a, unpacked);
    SampleStates(env, a, b, c, d, unpacked, 6);
    SampleTargets(env, Image(a, b, c, d), a, unpacked);
    SampleOffsets(env, Image(a, b, c, d), a, unpacked);
    forall k | 0 <= k < 6 ensures SoundCommand(j, k) {
      SampleSound(env, a, b, c, d, unpacked, k);
    }
  }
}
