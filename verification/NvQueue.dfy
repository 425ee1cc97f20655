/** The don't-allocate list: a queue threaded through the waiting blocks themselves. */
module NvQueue {
  import opened NvHeader
  import opened NvHeap
  import opened NvInv
  import opened NvRuns

  function SetHdr(mem: seq<Cell>, c: nat, h: int): seq<Cell>
    requires c < |mem|
  {
    mem[c := mem[c].(hdr := h)]
  }

  function SetNext(mem: seq<Cell>, c: nat, n: nat): seq<Cell>
    requires c < |mem|
  {
    mem[c := mem[c].(next := n)]
  }

  function SetTime(mem: seq<Cell>, c: nat, t: nat): seq<Cell>
    requires c < |mem|
  {
    mem[c := mem[c].(time := t)]
  }

  /** The blocks that are not in the queue. */
  ghost function NotQueued(blocks: Blocks, q: seq<Waiting>): Blocks {
    map b | b in blocks && !Queued(q, b) :: blocks[b]
  }

  // ----- frames -----

  lemma OwnedStart(blocks: Blocks, fz: nat, b: nat)
    requires BlocksOk(blocks, fz) && b in blocks
    ensures Owned(blocks, b) && b < fz
  {
    OwnedOne(blocks, b, b);
  }

  lemma KeptHeaders(k: Checksum, mem: seq<Cell>, mem': seq<Cell>, blocks: Blocks, fz: nat, q: seq<Waiting>)
    requires Kept(mem, mem', blocks) && BlocksOk(blocks, fz) && HeadersOk(k, mem, blocks, q)
    ensures HeadersOk(k, mem', blocks, q)
  {
  }

  lemma KeptChain(mem: seq<Cell>, mem': seq<Cell>, blocks: Blocks, fz: nat, head: nat, tail: nat, q: seq<Waiting>,
      wait: nat)
    requires Kept(mem, mem', blocks) && BlocksOk(blocks, fz) && QueueOk(q, blocks, wait) && Chain(mem, head, tail, q)
    ensures Chain(mem', head, tail, q)
  {
  }

  /** Cell by cell, what a block kept means for the client that holds it. */
  lemma KeptCells(mem: seq<Cell>, mem': seq<Cell>, blocks: Blocks, b: nat)
    requires Kept(mem, mem', blocks) && b in blocks && b + blocks[b] <= |mem|
    ensures mem[b..b + blocks[b]] == mem'[b..b + blocks[b]]
  {
    forall c | b <= c < b + blocks[b]
      ensures mem'[c] == mem[c]
    {
      OwnedOne(blocks, b, c);
    }
  }

  lemma KeptTrans(m0: seq<Cell>, m1: seq<Cell>, m2: seq<Cell>, blocks: Blocks)
    requires Kept(m0, m1, blocks) && Kept(m1, m2, blocks)
    ensures Kept(m0, m2, blocks)
  {
  }

  lemma KeptSelf(mem: seq<Cell>, blocks: Blocks)
    ensures Kept(mem, mem, blocks)
  {
  }

  lemma KeptFewer(mem: seq<Cell>, mem': seq<Cell>, blocks: Blocks, fewer: Blocks)
    requires Kept(mem, mem', blocks)
    requires forall b :: b in fewer ==> b in blocks && fewer[b] == blocks[b]
    ensures Kept(mem, mem', fewer)
  {
  }

  // ----- a new block -----

  lemma AddHeader(k: Checksum, mem: seq<Cell>, blocks: Blocks, q: seq<Waiting>, fz: nat, a: nat, n: nat, wait: nat)
    requires HeadersOk(k, mem, blocks, q) && QueueOk(q, blocks, wait) && a !in blocks && a < |mem|
    ensures HeadersOk(k, SetHdr(mem, a, Encode(k, a, BASE_SIZE * n)), blocks[a := n], q)
    ensures QueueOk(q, blocks[a := n], wait)
  {
  }

  // ----- joining the queue -----

  /** The list writes of putInDNAList. */
  function Linked(mem: seq<Cell>, tail: nat, b: nat): seq<Cell>
    requires tail != NIL ==> tail < |mem|
  {
    if tail == NIL then mem else SetNext(mem, tail, b)
  }

  lemma JoinQueue(k: Checksum, mem: seq<Cell>, blocks: Blocks, head: nat, tail: nat, q: seq<Waiting>, wait: nat,
      b: nat, stamp: nat)
    requires |mem| < NIL && HeadersOk(k, mem, blocks, q) && Chain(mem, head, tail, q) && QueueOk(q, blocks, wait)
    requires b in blocks && !Queued(q, b) && stamp + wait < UINT64
    requires forall i :: 0 <= i < |q| ==> q[i].time <= stamp
    ensures tail == NIL <==> q == []
    ensures tail != NIL ==> tail < |mem|
    ensures b < |mem|
    ensures var marked := SetTime(SetHdr(mem, b, BlockWord(k, b, blocks[b], true)), b, stamp);
      var mem' := Linked(marked, tail, b);
      Chain(mem', if tail == NIL then b else head, b, q + [Waiting(b, stamp)])
    ensures QueueOk(q + [Waiting(b, stamp)], blocks, wait)
  {
    hide Encode, HeadersOk;
    assert b < |mem| by { HeaderInMemory(k, mem, blocks, q, b); }
    if q != [] {
      assert q[|q| - 1].start == tail;
    }
    forall i | 0 <= i < |q|
      ensures q[i].start != b
    {
    }
  }

  lemma HeaderInMemory(k: Checksum, mem: seq<Cell>, blocks: Blocks, q: seq<Waiting>, b: nat)
    requires HeadersOk(k, mem, blocks, q) && b in blocks
    ensures b < |mem| && mem[b].hdr == BlockWord(k, b, blocks[b], Queued(q, b))
  {
  }

  lemma JoinHeaders(k: Checksum, mem: seq<Cell>, mem': seq<Cell>, blocks: Blocks, q: seq<Waiting>, b: nat, stamp: nat)
    requires HeadersOk(k, mem, blocks, q) && b in blocks && |mem| == |mem'|
    requires forall c :: 0 <= c < |mem| && c != b ==> mem'[c].hdr == mem[c].hdr
    requires b < |mem| && mem'[b].hdr == BlockWord(k, b, blocks[b], true)
    ensures HeadersOk(k, mem', blocks, q + [Waiting(b, stamp)])
  {
    hide BlockWord;
    var q' := q + [Waiting(b, stamp)];
    forall c | c in blocks
      ensures Queued(q', c) <==> Queued(q, c) || c == b
    {
      assert q'[|q|].start == b;
      if i :| 0 <= i < |q| && q[i].start == c {
        assert q'[i].start == c;
      }
    }
  }

  // ----- leaving the queue -----

  lemma LeaveQueue(k: Checksum, mem: seq<Cell>, blocks: Blocks, head: nat, tail: nat, q: seq<Waiting>, wait: nat)
    requires |mem| < NIL && HeadersOk(k, mem, blocks, q) && Chain(mem, head, tail, q) && QueueOk(q, blocks, wait)
    requires q != []
    ensures head < |mem| && head in blocks && head == q[0].start
    ensures mem[head].hdr == BlockWord(k, head, blocks[head], true) && mem[head].time == q[0].time
    ensures head == tail <==> |q| == 1
    ensures var last := head == tail;
      Chain(mem, if last then NIL else mem[head].next, if last then NIL else tail, q[1..])
    ensures QueueOk(q[1..], blocks - {head}, wait)
    ensures HeadersOk(k, mem, blocks - {head}, q[1..])
  {
    hide BlockWord;
    assert q[0].start == head && q[|q| - 1].start == tail;
    assert Queued(q, head);
    if |q| > 1 {
      assert q[1..][0] == q[1] && q[1..][|q| - 2] == q[|q| - 1];
    }
    var rest := q[1..];
    forall b | b in blocks && b != head
      ensures Queued(rest, b) <==> Queued(q, b)
    {
      if i :| 0 <= i < |q| && q[i].start == b {
        assert rest[i - 1].start == b;
      }
      if i :| 0 <= i < |rest| && rest[i].start == b {
        assert q[i + 1].start == b;
      }
    }
  }

  /** The head is NIL exactly when nothing waits, and otherwise its time word is the stamp. */
  lemma NilIsNoCell(k: Checksum, mem: seq<Cell>, occ: seq<bool>, fz: nat, blocks: Blocks, q: seq<Waiting>, wait: nat,
      head: nat, tail: nat)
    requires Space(k, mem, occ, fz, blocks) && Chain(mem, head, tail, q) && QueueOk(q, blocks, wait)
    ensures head == NIL <==> q == []
    ensures tail == NIL <==> q == []
    ensures head != NIL ==> head < |mem| && mem[head].time == q[0].time && q[0].time + wait < UINT64
    ensures head != NIL ==> (mem[head].time + wait) % UINT64 == mem[head].time + wait
  {
    hide RunsTiled, BitsOk, BlocksOk, Frontier;
  }

  /** All that putInDNAList writes, in one go. */
  function Joining(k: Checksum, mem: seq<Cell>, tail: nat, b: nat, n: nat, stamp: nat): seq<Cell>
    requires b < |mem| && (tail != NIL ==> tail < |mem|)
  {
    Linked(SetTime(SetHdr(mem, b, BlockWord(k, b, n, true)), b, stamp), tail, b)
  }

  lemma Joined(k: Checksum, mem: seq<Cell>, occ: seq<bool>, fz: nat, blocks: Blocks, q: seq<Waiting>, wait: nat,
      head: nat, tail: nat, b: nat, stamp: nat)
    requires Space(k, mem, occ, fz, blocks) && Chain(mem, head, tail, q) && QueueOk(q, blocks, wait)
    requires HeadersOk(k, mem, blocks, q) && b in blocks && !Queued(q, b) && b < |mem| && (tail != NIL ==> tail < |mem|)
    ensures var mem' := Joining(k, mem, tail, b, blocks[b], stamp);
      && Space(k, mem', occ, fz, blocks)
      && HeadersOk(k, mem', blocks, q + [Waiting(b, stamp)])
      && Kept(mem, mem', NotQueued(blocks, q) - {b})
  {
    hide Space, Encode, BlockWord, Owned, HeadersOk;
    SpaceBound(k, mem, occ, fz, blocks);
    OwnedStart(blocks, fz, b);
    var m1 := SetTime(SetHdr(mem, b, BlockWord(k, b, blocks[b], true)), b, stamp);
    WriteInBlock(k, mem, m1, occ, fz, blocks, b);
    var rest := NotQueued(blocks, q) - {b};
    OthersApart(blocks, fz, rest, b);
    NilIsNoCell(k, mem, occ, fz, blocks, q, wait, head, tail);
    if q != [] {
      TailWaits(mem, head, tail, q, blocks, wait);
      OwnedStart(blocks, fz, tail);
      WriteInBlock(k, m1, SetNext(m1, tail, b), occ, fz, blocks, tail);
      OthersApart(blocks, fz, rest, tail);
    }
    var mem' := Joining(k, mem, tail, b, blocks[b], stamp);
    JoinHeaders(k, mem, mem', blocks, q, b, stamp);
  }

  lemma TailWaits(mem: seq<Cell>, head: nat, tail: nat, q: seq<Waiting>, blocks: Blocks, wait: nat)
    requires Chain(mem, head, tail, q) && QueueOk(q, blocks, wait) && q != []
    ensures tail in blocks && Queued(q, tail) && tail < |mem|
  {
    assert q[|q| - 1].start == tail;
  }

  /** A block's first cell lies in no other block. */
  lemma OthersApart(blocks: Blocks, fz: nat, rest: Blocks, b: nat)
    requires BlocksOk(blocks, fz) && b in blocks && b !in rest
    requires forall c :: c in rest ==> c in blocks && rest[c] == blocks[c]
    ensures !Owned(rest, b)
  {
  }

  lemma JoinLive(blocks: Blocks, q: seq<Waiting>, b: nat, stamp: nat)
    ensures NotQueued(blocks, q + [Waiting(b, stamp)]) == NotQueued(blocks, q) - {b}
  {
    var q' := q + [Waiting(b, stamp)];
    assert q'[|q|].start == b;
    forall c | Queued(q, c)
      ensures Queued(q', c)
    {
      var i :| 0 <= i < |q| && q[i].start == c;
      assert q'[i].start == c;
    }
  }

  /** A release does not touch what the client holds. */
  lemma TickLive(h: Heap, wait: nat, now: nat)
    requires QueueOk(h.queue, h.blocks, wait)
    ensures NotQueued(Tick(h, wait, now).blocks, Tick(h, wait, now).queue) == NotQueued(h.blocks, h.queue)
  {
  }

  /** Writing the size word of the block getFreeLocation found. */
  lemma NewBlock(k: Checksum, m0: seq<Cell>, m1: seq<Cell>, occ: seq<bool>, fz: nat, blocks: Blocks, fz0: nat,
      q: seq<Waiting>,
                 head: nat, tail: nat, wait: nat, a: nat, n: nat)
    requires BlocksOk(blocks, fz0) && HeadersOk(k, m0, blocks, q) && Chain(m0, head, tail, q)
    requires QueueOk(q, blocks, wait)
    requires Kept(m0, m1, blocks) && a !in blocks && Space(k, m1, occ, fz, blocks[a := n])
    ensures a < |m1|
    ensures var m2 := SetHdr(m1, a, Encode(k, a, BASE_SIZE * n));
      && Space(k, m2, occ, fz, blocks[a := n]) && Kept(m0, m2, blocks)
      && HeadersOk(k, m2, blocks[a := n], q) && Chain(m2, head, tail, q)
    ensures QueueOk(q, blocks[a := n], wait) && Apart(blocks, a, n)
    ensures NotQueued(blocks[a := n], q) == NotQueued(blocks, q)[a := n]
  {
    hide Space, Encode, Owned, Chain;
    SpaceBound(k, m1, occ, fz, blocks[a := n]);
    OwnedStart(blocks[a := n], fz, a);
    var m2 := SetHdr(m1, a, Encode(k, a, BASE_SIZE * n));
    WriteInBlock(k, m1, m2, occ, fz, blocks[a := n], a);
    OthersApart(blocks[a := n], fz, blocks, a);
    assert Kept(m1, m2, blocks);
    KeptTrans(m0, m1, m2, blocks);
    KeptChain(m0, m2, blocks, fz0, head, tail, q, wait);
    KeptHeaders(k, m0, m1, blocks, fz0, q);
    AddHeader(k, m1, blocks, q, fz, a, n, wait);
  }

  /** Two changes in a row that each keep what the client holds. */
  lemma LiveKept(m0: seq<Cell>, m1: seq<Cell>, m2: seq<Cell>, live: Blocks, first: Blocks, second: Blocks)
    requires Kept(m0, m1, first) && Kept(m1, m2, second)
    requires forall b :: b in live ==> b in first && first[b] == live[b] && b in second && second[b] == live[b]
    ensures Kept(m0, m2, live)
  {
  }

  lemma LiveAmong(blocks: Blocks, q: seq<Waiting>)
    ensures forall b :: b in NotQueued(blocks, q) ==>
              b in blocks && NotQueued(blocks, q)[b] == blocks[b] && !Queued(q, b)
  {
  }

  /** A new block, and then a release: what the client held is kept. */
  lemma HeldKept(m0: seq<Cell>, m1: seq<Cell>, m2: seq<Cell>, all: Blocks, q: seq<Waiting>, left: Blocks,
      q': seq<Waiting>, a: nat, n: nat)
    requires Kept(m0, m1, all) && Kept(m1, m2, left) && a !in all
    requires NotQueued(left, q') == NotQueued(all, q)[a := n]
    ensures Kept(m0, m2, NotQueued(all, q))
  {
    hide Kept;
    LiveAmong(all, q);
    LiveAmong(left, q');
    forall b | b in NotQueued(all, q)
      ensures b in left && left[b] == all[b]
    {
      assert b in NotQueued(left, q') && NotQueued(left, q')[b] == all[b];
    }
    LiveKept(m0, m1, m2, NotQueued(all, q), all, left);
  }

  /** The client cannot disturb the allocator from inside a block it holds. */
  lemma ClientWrite(k: Checksum, mem: seq<Cell>, occ: seq<bool>, fz: nat, blocks: Blocks, q: seq<Waiting>, head: nat,
      tail: nat, wait: nat,
                    b: nat, c: nat, v: Cell)
    requires Space(k, mem, occ, fz, blocks) && HeadersOk(k, mem, blocks, q) && Chain(mem, head, tail, q)
    requires QueueOk(q, blocks, wait)
    requires b in blocks && !Queued(q, b) && b <= c < b + blocks[b] && c < |mem|
    requires c == b ==> v.hdr == mem[c].hdr
    ensures var mem' := mem[c := v];
      Space(k, mem', occ, fz, blocks) && HeadersOk(k, mem', blocks, q) && Chain(mem', head, tail, q)
  {
    hide Space, Owned, BlockWord;
    SpaceBound(k, mem, occ, fz, blocks);
    OwnedOne(blocks, b, c);
    WriteInBlock(k, mem, mem[c := v], occ, fz, blocks, c);
    assert c in blocks ==> c == b;
  }
}
