/** `kmalloc` and `kfree` over the linked list of headers that lies in the arena itself. */
module Heap {
  import opened HeapBlocks

  /** A block header; addresses are numbers and NULL is 0. */
  datatype HeapNode = HeapNode(size: nat, next: nat, free: bool)

  type Headers = map<nat, HeapNode>

  /** The headers from `at` on describe the blocks `bs`, each linked to the one after it, the last to `tail`. */
  ghost predicate Linked(m: Headers, bs: seq<Block>, at: nat, tail: nat)
    decreases |bs|
  {
    bs == [] ||
    (var next := at + 24 + bs[0].size;
     && at in m && m[at] == HeapNode(bs[0].size, if |bs| == 1 then tail else next, bs[0].free)
     && Linked(m, bs[1..], next, tail))
  }

  /** Only headers inside the stretch matter. */
  lemma {:induction false} LinkedFrame(m: Headers, m': Headers, bs: seq<Block>, at: nat, tail: nat)
    requires Linked(m, bs, at, tail)
    requires forall x :: at <= x < at + Total(bs) && x in m ==> x in m' && m'[x] == m[x]
    ensures Linked(m', bs, at, tail)
    decreases |bs|
  {
    if bs != [] {
      LinkedFrame(m, m', bs[1..], at + 24 + bs[0].size, tail);
    }
  }

  lemma {:induction false} LinkedConcat(m: Headers, a: seq<Block>, b: seq<Block>, at: nat, tail: nat)
    requires b != []
    ensures Linked(m, a + b, at, tail) <==>
      Linked(m, a, at, at + Total(a)) && Linked(m, b, at + Total(a), tail)
    decreases |a|
  {
    if a == [] {
      assert a + b == b;
    } else {
      assert (a + b)[1..] == a[1..] + b;
      LinkedConcat(m, a[1..], b, at + 24 + a[0].size, tail);
      if |a| == 1 {
        assert a[1..] == [];
      }
    }
  }

  /** Replacing block `i` by `mid`, with every header outside it untouched. */
  lemma LinkedReplace(m: Headers, m': Headers, bs: seq<Block>, base: nat, i: nat, n: nat, mid: seq<Block>)
    requires Linked(m, bs, base, 0) && i + n <= |bs| && n > 0
    requires mid != [] && Total(mid) == Total(bs[i..i + n])
    requires Linked(m', mid, base + Total(bs[..i]), if i + n == |bs| then 0 else base + Total(bs[..i + n]))
    requires forall x :: x in m && (x < base + Total(bs[..i]) || x >= base + Total(bs[..i + n])) ==>
      x in m' && m'[x] == m[x]
    ensures Linked(m', bs[..i] + (mid + bs[i + n..]), base, 0)
  {
    hide Linked, Total;
    var a, old', c := bs[..i], bs[i..i + n], bs[i + n..];
    assert bs == a + (old' + c) && bs[..i + n] == a + old';
    TotalConcat(a, old');
    LinkedConcat(m, a, old' + c, base, 0);
    LinkedFrame(m, m', a, base, base + Total(a));
    LinkedConcat(m', a, mid + c, base, 0);
    if c != [] {
      LinkedConcat(m, old', c, base + Total(a), 0);
      LinkedFrame(m, m', c, base + Total(a) + Total(old'), 0);
      LinkedConcat(m', mid, c, base + Total(a), 0);
    } else {
      assert mid + c == mid;
    }
  }

  lemma NodeAt(m: Headers, bs: seq<Block>, base: nat, i: nat)
    requires Linked(m, bs, base, 0) && i < |bs|
    ensures Pos(bs, base, i) in m
    ensures m[Pos(bs, base, i)] ==
      HeapNode(bs[i].size, if i + 1 == |bs| then 0 else Pos(bs, base, i + 1), bs[i].free)
    ensures Pos(bs, base, i + 1) == Pos(bs, base, i) + 24 + bs[i].size
  {
    assert bs == bs[..i] + bs[i..] && bs[..i + 1] == bs[..i] + [bs[i]];
    LinkedConcat(m, bs[..i], bs[i..], base, 0);
    TotalConcat(bs[..i], [bs[i]]);
    OneBlock(bs[i], base);
  }

  class KernelHeap {
    var nodes: Headers
    var head: nat
    ghost var blocks: seq<Block>
    ghost var arena: nat

    ghost predicate Valid()
      reads this
    {
      head > 0 && Settled(blocks, arena) && Linked(nodes, blocks, head, 0)
    }

    /** What the callers hold: payload addresses and sizes. */
    ghost function Held(): map<nat, nat>
      reads this
    {
      Live(blocks, head)
    }

    /** `Heap_Init` */
    constructor (addr: nat, size: nat)
      requires addr > 0 && size >= 24
      ensures Valid() && head == addr && arena == size
      ensures blocks == [Block(size - 24, true)] && Held() == map[]
    {
      head := addr;
      nodes := map[addr := HeapNode(size - 24, 0, true)];
      blocks := [Block(size - 24, true)];
      arena := size;
      OneBlock(Block(size - 24, true), addr);
    }

    /**
     * First fit. NULL, with nothing changed, exactly when no free block is large enough; otherwise
     * a payload that nobody holds, at most 40 bytes larger than asked.
     */
    method Kmalloc(size: nat) returns (ptr: nat)
      requires Valid()
      modifies this
      ensures Valid() && head == old(head) && arena == old(arena)
      ensures blocks == Alloc(old(blocks), size)
      ensures ptr == 0 <==> forall b :: b in old(blocks) ==> !Fits(b, size)
      ensures ptr == 0 ==> Held() == old(Held()) && nodes == old(nodes)
      ensures ptr != 0 ==>
        && ptr == Pos(old(blocks), head, FirstFit(old(blocks), size)) + 24 && ptr !in old(Held())
        && Held() == old(Held())[ptr := Granted(old(blocks), size)]
        && size <= Granted(old(blocks), size) <= size + 40
    {
      hide Linked, Live, FirstFit, NoAdjacentFree;
      var current := head;
      ghost var i, bs := 0, blocks;
      AllocFailsIff(bs, size);
      while current != 0
        invariant i <= |bs| && current == if i < |bs| then Pos(bs, head, i) else 0
        invariant forall k :: 0 <= k < i ==> !Fits(bs[k], size)
        invariant Valid() && blocks == bs && nodes == old(nodes) && head == old(head) && arena == old(arena)
        decreases |bs| - i
      {
        NodeAt(nodes, bs, head, i);
        if nodes[current].free && nodes[current].size >= size {
          FirstFitIs(bs, size, i);
          AllocGrants(bs, head, arena, size);
          if nodes[current].size > size + 40 {
            var next := current + 24 + size;
            nodes := nodes[next := HeapNode(nodes[current].size - size - 24, nodes[current].next, true)];
            nodes := nodes[current := HeapNode(size, next, nodes[current].free)];
          }
          nodes := nodes[current := nodes[current].(free := false)];
          CutLinked(old(nodes), nodes, bs, head, i, size);
          blocks := Alloc(bs, size);
          return current + 24;
        }
        current := nodes[current].next;
        i := i + 1;
      }
      ptr := 0;
    }

    /**
     * Frees a payload address that is held (or NULL, which does nothing): it is no longer held,
     * every other payload stays where it was, and no two free blocks are left side by side.
     */
    method Kfree(ptr: nat)
      requires Valid() && (ptr == 0 || ptr in Held())
      modifies this
      ensures Valid() && head == old(head) && arena == old(arena)
      ensures ptr == 0 ==> blocks == old(blocks) && nodes == old(nodes)
      ensures ptr != 0 ==>
        && BlockOf(old(blocks), head, ptr) < |old(blocks)|
        && blocks == Release(old(blocks), BlockOf(old(blocks), head, ptr))
        && Held() == old(Held()) - {ptr}
    {
      hide Linked, Live, Settled, Coalesce, NoAdjacentFree, BlockOf;
      if ptr == 0 {
        return;
      }
      ghost var i := BlockOf(blocks, head, ptr);
      BlockOfLive(blocks, head, ptr);
      ReleaseRemoves(blocks, head, arena, i);
      NodeAt(nodes, blocks, head, i);
      var node := ptr - 24;
      ghost var freed := blocks[i := blocks[i].(free := true)];
      var m := nodes[node := nodes[node].(free := true)];
      FreedLinked(nodes, m, blocks, head, i);
      nodes := m;

      ghost var done, rest: seq<Block> := [], freed;
      var current := head;
      assert done + rest == freed;
      while current != 0
        invariant Linked(nodes, done + rest, head, 0)
        invariant current == if rest == [] then 0 else Pos(done + rest, head, |done|)
        invariant Coalesce(freed) == done + Coalesce(rest)
        invariant head == old(head) && arena == old(arena)
        decreases |rest|
      {
        ghost var all, k := done + rest, |done|;
        NodeAt(nodes, all, head, k);
        CoalesceStep(rest);
        var next := nodes[current].next;
        if |rest| > 1 {
          NodeAt(nodes, all, head, k + 1);
        }
        if nodes[current].free && next != 0 && nodes[next].free {
          var m' := nodes[current := HeapNode(nodes[current].size + nodes[next].size + 24, nodes[next].next, true)];
          MergeLinked(nodes, m', done, rest, head);
          nodes := m';
          rest := [Block(rest[0].size + rest[1].size + 24, true)] + rest[2..];
        } else {
          current := next;
          assert done + rest == (done + [rest[0]]) + rest[1..];
          done, rest := done + [rest[0]], rest[1..];
        }
      }
      assert done + rest == done;
      CoalesceStep(rest);
      blocks := done;
    }
  }

  lemma FirstFitIs(bs: seq<Block>, size: nat, i: nat)
    requires i < |bs| && Fits(bs[i], size) && forall k :: 0 <= k < i ==> !Fits(bs[k], size)
    ensures FirstFit(bs, size) == i
  {
  }

  lemma LinkedOne(m: Headers, b: Block, at: nat, tail: nat)
    ensures Linked(m, [b], at, tail) <==> at in m && m[at] == HeapNode(b.size, tail, b.free)
  {
  }

  lemma CutLinked(m: Headers, m': Headers, bs: seq<Block>, base: nat, i: nat, size: nat)
    requires Linked(m, bs, base, 0) && i < |bs| && Fits(bs[i], size) && FirstFit(bs, size) == i
    requires var at := Pos(bs, base, i);
      at in m && m' ==
        if bs[i].size > size + 40
        then m[at + 24 + size := HeapNode(bs[i].size - size - 24, m[at].next, true)]
              [at := HeapNode(size, at + 24 + size, true)]
              [at := HeapNode(size, at + 24 + size, false)]
        else m[at := HeapNode(bs[i].size, m[at].next, false)]
    ensures Linked(m', Alloc(bs, size), base, 0)
  {
    hide FirstFit, Linked, Total;
    var at, cut := Pos(bs, base, i), Cut(bs[i], size);
    NodeAt(m, bs, base, i);
    CutTotal(bs[i], size);
    assert bs[i..i + 1] == [bs[i]];
    var tail := if i + 1 == |bs| then 0 else Pos(bs, base, i + 1);
    if |cut| == 2 {
      LinkedOne(m', cut[1], at + 24 + size, tail);
      LinkedOne(m', cut[0], at, at + 24 + size);
      OneBlock(cut[0], at);
      LinkedConcat(m', [cut[0]], [cut[1]], at, tail);
      assert cut == [cut[0]] + [cut[1]];
    } else {
      LinkedOne(m', cut[0], at, tail);
      assert cut == [cut[0]];
    }
    LinkedReplace(m, m', bs, base, i, 1, cut);
    assert bs[..i] + (cut + bs[i + 1..]) == Alloc(bs, size);
  }

  lemma FreedLinked(m: Headers, m': Headers, bs: seq<Block>, base: nat, i: nat)
    requires Linked(m, bs, base, 0) && i < |bs|
    requires var at := Pos(bs, base, i); at in m && m' == m[at := m[at].(free := true)]
    ensures Linked(m', bs[i := bs[i].(free := true)], base, 0)
  {
    var freed := [bs[i].(free := true)];
    NodeAt(m, bs, base, i);
    assert bs[i..i + 1] == [bs[i]];
    OneBlock(bs[i], base);
    OneBlock(freed[0], base);
    LinkedReplace(m, m', bs, base, i, 1, freed);
    assert bs[..i] + (freed + bs[i + 1..]) == bs[i := freed[0]];
  }

  lemma MergeLinked(m: Headers, m': Headers, done: seq<Block>, rest: seq<Block>, base: nat)
    requires |rest| >= 2 && Linked(m, done + rest, base, 0)
    requires var at, next := Pos(done + rest, base, |done|), Pos(done + rest, base, |done| + 1);
      && at in m && next in m
      && m' == m[at := HeapNode(m[at].size + m[next].size + 24, m[next].next, true)]
    ensures Linked(m', done + ([Block(rest[0].size + rest[1].size + 24, true)] + rest[2..]), base, 0)
  {
    var bs, i := done + rest, |done|;
    var merged := [Block(rest[0].size + rest[1].size + 24, true)];
    NodeAt(m, bs, base, i);
    NodeAt(m, bs, base, i + 1);
    assert bs[i..i + 2] == [rest[0]] + [rest[1]];
    TotalConcat([rest[0]], [rest[1]]);
    OneBlock(rest[0], base);
    OneBlock(rest[1], base);
    OneBlock(merged[0], base);
    assert bs[..i] == done && bs[i + 2..] == rest[2..];
    LinkedReplace(m, m', bs, base, i, 2, merged);
  }

  lemma CoalesceStep(bs: seq<Block>)
    ensures bs == [] ==> Coalesce(bs) == []
    ensures |bs| >= 2 && bs[0].free && bs[1].free ==>
      Coalesce(bs) == Coalesce([Block(bs[0].size + bs[1].size + 24, true)] + bs[2..])
    ensures bs != [] && !(|bs| >= 2 && bs[0].free && bs[1].free) ==> Coalesce(bs) == [bs[0]] + Coalesce(bs[1..])
  {
  }
}
