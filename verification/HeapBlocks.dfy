/**
 * The kernel heap as the sequence of blocks that tile its arena. Each block is a 24-byte header and
 * a payload; the address of a block is the arena's start plus the blocks before it.
 */
module HeapBlocks {
  datatype Block = Block(size: nat, free: bool)

  function Total(bs: seq<Block>): nat {
    if bs == [] then 0 else 24 + bs[0].size + Total(bs[1..])
  }

  /** Address of block `i` in an arena at `base`. */
  function Pos(bs: seq<Block>, base: nat, i: nat): nat
    requires i <= |bs|
  {
    base + Total(bs[..i])
  }

  lemma {:induction false} TotalConcat(a: seq<Block>, b: seq<Block>)
    ensures Total(a + b) == Total(a) + Total(b)
  {
    if a == [] {
      assert a + b == b;
    } else {
      assert (a + b)[1..] == a[1..] + b;
      TotalConcat(a[1..], b);
    }
  }

  // ---- Allocation ----

  predicate Fits(b: Block, size: nat) { b.free && b.size >= size }

  /** Index of the first block that fits, or the number of blocks. */
  function FirstFit(bs: seq<Block>, size: nat): (i: nat)
    ensures i <= |bs| && (i < |bs| ==> Fits(bs[i], size))
    ensures forall k :: 0 <= k < i ==> !Fits(bs[k], size)
  {
    if bs == [] || Fits(bs[0], size) then 0 else 1 + FirstFit(bs[1..], size)
  }

  /** A block cut for a request, with the rest as a free block when it is worth one. */
  function Cut(b: Block, size: nat): seq<Block>
    requires b.size >= size
  {
    if b.size > size + 40 then [Block(size, false), Block(b.size - size - 24, true)] else [Block(b.size, false)]
  }

  function Alloc(bs: seq<Block>, size: nat): seq<Block> {
    var i := FirstFit(bs, size);
    if i == |bs| then bs else bs[..i] + Cut(bs[i], size) + bs[i + 1..]
  }

  // ---- Release ----

  /** One pass that merges every run of free blocks. */
  function Coalesce(bs: seq<Block>): seq<Block>
    decreases |bs|
  {
    if |bs| < 2 then bs
    else if bs[0].free && bs[1].free then Coalesce([Block(bs[0].size + bs[1].size + 24, true)] + bs[2..])
    else [bs[0]] + Coalesce(bs[1..])
  }

  function Release(bs: seq<Block>, i: nat): seq<Block>
    requires i < |bs|
  {
    Coalesce(bs[i := bs[i].(free := true)])
  }

  // ---- What is live ----

  /** Payload address and size of every block in use. */
  function Live(bs: seq<Block>, base: nat): map<nat, nat> {
    if bs == [] then map[]
    else
      var rest := Live(bs[1..], base + 24 + bs[0].size);
      if bs[0].free then rest else rest[base + 24 := bs[0].size]
  }

  predicate NoAdjacentFree(bs: seq<Block>) {
    forall i :: 1 <= i < |bs| ==> !(bs[i - 1].free && bs[i].free)
  }

  /** The heap between calls: the blocks tile the arena and no two free ones touch. */
  predicate Settled(bs: seq<Block>, arena: nat) {
    bs != [] && Total(bs) == arena && NoAdjacentFree(bs)
  }

  lemma {:induction false} LiveConcat(a: seq<Block>, b: seq<Block>, base: nat)
    ensures Live(a + b, base) == Live(a, base) + Live(b, base + Total(a))
    ensures Live(a, base).Keys !! Live(b, base + Total(a)).Keys
  {
    if a == [] {
      assert a + b == b;
    } else {
      var at := base + 24 + a[0].size;
      assert (a + b)[1..] == a[1..] + b && (a + b)[0] == a[0];
      LiveConcat(a[1..], b, at);
      LiveInside(b, at + Total(a[1..]));
    }
  }

  /** Live payloads lie inside the arena and apart from each other, headers included. */
  lemma {:induction false} LiveInside(bs: seq<Block>, base: nat)
    ensures forall p :: p in Live(bs, base) ==> base + 24 <= p && p + Live(bs, base)[p] <= base + Total(bs)
    ensures forall p, q :: p in Live(bs, base) && q in Live(bs, base) && p < q ==> p + Live(bs, base)[p] + 24 <= q
  {
    if bs != [] {
      LiveInside(bs[1..], base + 24 + bs[0].size);
    }
  }

  // ---- Coalescing ----

  /** One pass is enough: no two neighbours of the result are both free, and nothing is lost. */
  lemma {:induction false} CoalesceSettles(bs: seq<Block>, base: nat)
    ensures NoAdjacentFree(Coalesce(bs)) && Total(Coalesce(bs)) == Total(bs)
    ensures (bs == [] <==> Coalesce(bs) == []) && (bs != [] ==> Coalesce(bs)[0].free == bs[0].free)
    ensures Live(Coalesce(bs), base) == Live(bs, base)
    decreases |bs|
  {
    if |bs| >= 2 {
      assert bs == [bs[0]] + ([bs[1]] + bs[2..]) && bs[1..] == [bs[1]] + bs[2..];
      if bs[0].free && bs[1].free {
        var merged := [Block(bs[0].size + bs[1].size + 24, true)] + bs[2..];
        assert merged[1..] == bs[2..] == bs[1..][1..];
        CoalesceSettles(merged, base);
      } else {
        CoalesceSettles(bs[1..], base + 24 + bs[0].size);
        var r := [bs[0]] + Coalesce(bs[1..]);
        assert r[1..] == Coalesce(bs[1..]);
      }
    }
  }

  /** Blocks that need no merging are left alone. */
  lemma {:induction false} CoalesceKeeps(bs: seq<Block>)
    requires NoAdjacentFree(bs)
    ensures Coalesce(bs) == bs
    decreases |bs|
  {
    if |bs| >= 2 {
      assert !(bs[1 - 1].free && bs[1].free);
      assert NoAdjacentFree(bs[1..]);
      CoalesceKeeps(bs[1..]);
    }
  }

  lemma CoalesceCons(x: Block, rest: seq<Block>)
    requires rest != [] ==> !(x.free && rest[0].free)
    ensures Coalesce([x] + rest) == [x] + Coalesce(rest)
  {
    assert ([x] + rest)[1..] == rest;
  }

  /** A settled beginning is passed over. */
  lemma {:induction false} CoalesceSkips(a: seq<Block>, b: seq<Block>)
    requires NoAdjacentFree(a) && (a != [] && b != [] ==> !(a[|a| - 1].free && b[0].free))
    ensures Coalesce(a + b) == a + Coalesce(b)
    decreases |a|
  {
    hide Coalesce;
    if a == [] {
      assert a + b == b;
    } else {
      var rest := a[1..];
      assert |a| > 1 ==> !(a[1 - 1].free && a[1].free);
      assert NoAdjacentFree(rest);
      CoalesceSkips(rest, b);
      assert a + b == [a[0]] + (rest + b);
      CoalesceCons(a[0], rest + b);
      assert a + Coalesce(b) == [a[0]] + (rest + Coalesce(b));
    }
  }

  // ---- The calls ----

  /** A middle part of the arena can be exchanged without touching the rest. */
  lemma Around(a: seq<Block>, mid: seq<Block>, c: seq<Block>, base: nat)
    ensures Total(a + (mid + c)) == Total(a) + Total(mid) + Total(c)
    ensures Live(a + (mid + c), base) ==
      Live(a, base) + (Live(mid, base + Total(a)) + Live(c, base + Total(a) + Total(mid)))
    ensures Live(a, base).Keys !! Live(mid, base + Total(a)).Keys !! Live(c, base + Total(a) + Total(mid)).Keys
  {
    TotalConcat(a, mid + c);
    TotalConcat(mid, c);
    LiveConcat(a, mid + c, base);
    LiveConcat(mid, c, base + Total(a));
  }

  /** Payload size the first fitting block yields. */
  function Granted(bs: seq<Block>, size: nat): nat
    requires FirstFit(bs, size) < |bs|
  {
    Cut(bs[FirstFit(bs, size)], size)[0].size
  }

  /** An allocation adds one payload of at least the size asked and at most 40 bytes more. */
  lemma AllocGrants(bs: seq<Block>, base: nat, arena: nat, size: nat)
    requires Settled(bs, arena) && FirstFit(bs, size) < |bs|
    ensures Settled(Alloc(bs, size), arena)
    ensures var p := Pos(bs, base, FirstFit(bs, size)) + 24;
      && p !in Live(bs, base)
      && Live(Alloc(bs, size), base) == Live(bs, base)[p := Granted(bs, size)]
    ensures size <= Granted(bs, size) <= size + 40
  {
    hide Live, Total, FirstFit;
    var i := FirstFit(bs, size);
    var a, mid, c, cut := bs[..i], [bs[i]], bs[i + 1..], Cut(bs[i], size);
    assert bs == a + (mid + c);
    assert Alloc(bs, size) == a + (cut + c);
    Around(a, mid, c, base);
    Around(a, cut, c, base);
    CutTotal(bs[i], size);
    CutLive(bs[i], size, base + Total(a));
    CutAdjacent(bs, i, size);
  }

  /** Nothing is allocated exactly when no block fits. */
  lemma AllocFailsIff(bs: seq<Block>, size: nat)
    ensures FirstFit(bs, size) == |bs| <==> forall b :: b in bs ==> !Fits(b, size)
    ensures FirstFit(bs, size) == |bs| ==> Alloc(bs, size) == bs
  {
  }

  lemma CutTotal(b: Block, size: nat)
    requires b.size >= size
    ensures Total(Cut(b, size)) == Total([b]) == 24 + b.size
  {
    var cut := Cut(b, size);
    if |cut| == 2 {
      assert cut[1..] == [cut[1]] && cut[1..][1..] == [];
    }
  }

  lemma CutLive(b: Block, size: nat, base: nat)
    requires Fits(b, size)
    ensures Live([b], base) == map[] && Live(Cut(b, size), base) == map[base + 24 := Cut(b, size)[0].size]
    ensures size <= Cut(b, size)[0].size <= size + 40
  {
    var cut := Cut(b, size);
    if |cut| == 2 {
      assert cut[1..] == [cut[1]] && cut[1..][1..] == [];
    }
  }

  lemma CutAdjacent(bs: seq<Block>, i: nat, size: nat)
    requires NoAdjacentFree(bs) && i < |bs| && Fits(bs[i], size)
    ensures NoAdjacentFree(bs[..i] + (Cut(bs[i], size) + bs[i + 1..]))
  {
    var cut := Cut(bs[i], size);
    var r := bs[..i] + (cut + bs[i + 1..]);
    forall k | 1 <= k < |r|
      ensures !(r[k - 1].free && r[k].free)
    {
      if k < i {
        assert !(bs[k - 1].free && bs[k].free);
      } else if k >= i + |cut| {
        var m := k - |cut| + 1;
        assert !(bs[m - 1].free && bs[m].free);
      }
    }
  }

  /** Releasing a block removes its payload and nothing else. */
  lemma ReleaseRemoves(bs: seq<Block>, base: nat, arena: nat, i: nat)
    requires Settled(bs, arena) && i < |bs| && !bs[i].free
    ensures Settled(Release(bs, i), arena)
    ensures Live(Release(bs, i), base) == Live(bs, base) - {Pos(bs, base, i) + 24}
    ensures Pos(bs, base, i) + 24 in Live(bs, base)
  {
    hide Live, Total, Coalesce;
    var a, mid, c := bs[..i], [bs[i]], bs[i + 1..];
    var freed := [bs[i].(free := true)];
    assert bs == a + (mid + c);
    assert bs[i := freed[0]] == a + (freed + c);
    Around(a, mid, c, base);
    Around(a, freed, c, base);
    OneBlock(bs[i], base + Total(a));
    OneBlock(freed[0], base + Total(a));
    CoalesceSettles(bs[i := freed[0]], base);
  }

  lemma OneBlock(b: Block, base: nat)
    ensures Total([b]) == 24 + b.size
    ensures Live([b], base) == if b.free then map[] else map[base + 24 := b.size]
  {
  }

  /** Freeing what was just allocated gives back exactly the blocks from before. */
  lemma ReleaseUndoesAlloc(bs: seq<Block>, arena: nat, size: nat)
    requires Settled(bs, arena) && FirstFit(bs, size) < |bs|
    ensures Release(Alloc(bs, size), FirstFit(bs, size)) == bs
  {
    hide FirstFit, Coalesce, Alloc, Cut, Total;
    var i := FirstFit(bs, size);
    var a, c, cut := bs[..i], bs[i + 1..], Cut(bs[i], size);
    FreedParts(bs, size);
    assert i > 0 ==> !bs[i - 1].free;
    assert bs[i..] == [bs[i]] + c;
    assert NoAdjacentFree(bs[i..]);
    CoalesceSkips(a, [cut[0].(free := true)] + (cut[1..] + c));
    MergeBack(bs[i], size, c);
    CoalesceKeeps(bs[i..]);
    assert bs == a + bs[i..];
  }

  /** The blocks between the freeing and the merging. */
  lemma FreedParts(bs: seq<Block>, size: nat)
    requires NoAdjacentFree(bs) && FirstFit(bs, size) < |bs|
    ensures var i := FirstFit(bs, size);
      var cut := Cut(bs[i], size);
      && cut != [] && (i > 0 ==> !bs[i - 1].free)
      && i < |Alloc(bs, size)| && Alloc(bs, size)[i] == cut[0]
      && Alloc(bs, size)[i := cut[0].(free := true)] == bs[..i] + ([cut[0].(free := true)] + (cut[1..] + bs[i + 1..]))
  {
    hide FirstFit, Cut;
    var i := FirstFit(bs, size);
    var cut := Cut(bs[i], size);
    CutHead(bs[i], size);
    assert i > 0 ==> !bs[i - 1].free;
    PutHead(bs[..i], cut, bs[i + 1..], cut[0].(free := true));
  }

  lemma PutHead(a: seq<Block>, cut: seq<Block>, c: seq<Block>, x: Block)
    requires cut != []
    ensures var s := a + cut + c;
      s[|a|] == cut[0] && s[|a| := x] == a + ([x] + (cut[1..] + c))
  {
  }

  lemma CutHead(b: Block, size: nat)
    requires b.size >= size
    ensures Cut(b, size) != []
  {
  }

  lemma MergeBack(b: Block, size: nat, c: seq<Block>)
    requires Fits(b, size)
    ensures var cut := Cut(b, size);
      Coalesce([cut[0].(free := true)] + cut[1..] + c) == Coalesce([b] + c)
    ensures var cut := Cut(b, size);
      [cut[0].(free := true)] + cut[1..] + c == [cut[0].(free := true)] + (cut[1..] + c)
  {
    var cut := Cut(b, size);
    var bs := [cut[0].(free := true)] + cut[1..] + c;
    if |cut| == 2 {
      assert bs[2..] == c;
    } else {
      assert bs == [b] + c;
    }
  }

  /** With nothing live the heap is its single initial block again. */
  lemma AllFreeIsInitial(bs: seq<Block>, base: nat, arena: nat)
    requires Settled(bs, arena) && Live(bs, base) == map[]
    ensures bs == [Block(arena - 24, true)]
  {
    NothingLive(bs, base);
    assert |bs| == 1;
    assert Total(bs[1..]) == 0;
    assert bs == [bs[0]];
  }

  lemma {:induction false} NothingLive(bs: seq<Block>, base: nat)
    ensures Live(bs, base) == map[] ==> forall i :: 0 <= i < |bs| ==> bs[i].free
  {
    if bs != [] {
      NothingLive(bs[1..], base + 24 + bs[0].size);
      assert !bs[0].free ==> base + 24 in Live(bs, base);
    }
  }

  // ---- Runs ----

  /** A request for memory, or the release of a payload address. */
  datatype Op = Malloc(size: nat) | Free(ptr: nat)

  /** The block whose payload is at `ptr`, or the number of blocks. */
  function BlockOf(bs: seq<Block>, base: nat, ptr: nat): (i: nat)
    ensures i <= |bs|
    decreases |bs|
  {
    if bs == [] || ptr == base + 24 then 0 else 1 + BlockOf(bs[1..], base + 24 + bs[0].size, ptr)
  }

  lemma {:induction false} BlockOfLive(bs: seq<Block>, base: nat, ptr: nat)
    requires ptr in Live(bs, base)
    ensures BlockOf(bs, base, ptr) < |bs|
    ensures !bs[BlockOf(bs, base, ptr)].free && Pos(bs, base, BlockOf(bs, base, ptr)) + 24 == ptr
    decreases |bs|
  {
    var at := base + 24 + bs[0].size;
    LiveInside(bs[1..], at);
    if ptr == base + 24 {
      assert bs[..0] == [];
    } else {
      BlockOfLive(bs[1..], at, ptr);
      var i := BlockOf(bs[1..], at, ptr);
      assert bs[..i + 1] == [bs[0]] + bs[1..][..i];
    }
  }

  function Step(bs: seq<Block>, base: nat, op: Op): seq<Block>
    requires op.Free? ==> op.ptr in Live(bs, base)
  {
    match op
    case Malloc(size) => Alloc(bs, size)
    case Free(ptr) => BlockOfLive(bs, base, ptr); Release(bs, BlockOf(bs, base, ptr))
  }

  /** Every release names an address that is live when it is released. */
  predicate ValidRun(bs: seq<Block>, base: nat, ops: seq<Op>)
    decreases |ops|
  {
    ops == [] ||
    ((ops[0].Free? ==> ops[0].ptr in Live(bs, base)) && ValidRun(Step(bs, base, ops[0]), base, ops[1..]))
  }

  function Run(bs: seq<Block>, base: nat, ops: seq<Op>): seq<Block>
    requires ValidRun(bs, base, ops)
    decreases |ops|
  {
    if ops == [] then bs else Run(Step(bs, base, ops[0]), base, ops[1..])
  }

  /** What a program holds after a run, by the addresses the calls returned. */
  function Held(bs: seq<Block>, base: nat, ops: seq<Op>, held: map<nat, nat>): map<nat, nat>
    requires ValidRun(bs, base, ops)
    decreases |ops|
  {
    if ops == [] then held
    else
      var held' := match ops[0]
        case Malloc(size) =>
          if FirstFit(bs, size) == |bs| then held
          else held[Pos(bs, base, FirstFit(bs, size)) + 24 := Granted(bs, size)]
        case Free(ptr) => held - {ptr};
      Held(Step(bs, base, ops[0]), base, ops[1..], held')
  }

  lemma StepSettled(bs: seq<Block>, base: nat, arena: nat, op: Op)
    requires Settled(bs, arena) && (op.Free? ==> op.ptr in Live(bs, base))
    ensures Settled(Step(bs, base, op), arena)
  {
    match op
    case Malloc(size) =>
      if FirstFit(bs, size) < |bs| {
        AllocGrants(bs, base, arena, size);
      }
    case Free(ptr) =>
      BlockOfLive(bs, base, ptr);
      ReleaseRemoves(bs, base, arena, BlockOf(bs, base, ptr));
  }

  /**
   * Over every run of requests and releases the blocks tile the arena with no two free neighbours,
   * and the live payloads are exactly those handed out and not yet released.
   */
  lemma {:induction false} RunInvariant(bs: seq<Block>, base: nat, arena: nat, ops: seq<Op>)
    requires Settled(bs, arena) && ValidRun(bs, base, ops)
    ensures Settled(Run(bs, base, ops), arena)
    ensures Live(Run(bs, base, ops), base) == Held(bs, base, ops, Live(bs, base))
    decreases |ops|
  {
    hide Live, FirstFit, Alloc, Release, Settled;
    if ops != [] {
      var op := ops[0];
      StepSettled(bs, base, arena, op);
      match op {
        case Malloc(size) =>
          if FirstFit(bs, size) < |bs| {
            AllocGrants(bs, base, arena, size);
          } else {
            AllocFailsIff(bs, size);
          }
        case Free(ptr) =>
          BlockOfLive(bs, base, ptr);
          ReleaseRemoves(bs, base, arena, BlockOf(bs, base, ptr));
      }
      RunInvariant(Step(bs, base, op), base, arena, ops[1..]);
    }
  }

  /** A run after which nothing is held leaves the heap as it was initialised. */
  lemma RunBackToInitial(base: nat, arena: nat, ops: seq<Op>)
    requires arena >= 24
    requires ValidRun([Block(arena - 24, true)], base, ops)
    requires Held([Block(arena - 24, true)], base, ops, map[]) == map[]
    ensures Run([Block(arena - 24, true)], base, ops) == [Block(arena - 24, true)]
  {
    var bs := [Block(arena - 24, true)];
    OneBlock(bs[0], base);
    RunInvariant(bs, base, arena, ops);
    AllFreeIsInitial(Run(bs, base, ops), base, arena);
  }
}
