/** The don't-allocate list over whole runs. A call of nvmalloc or nvfree made on a valid heap
    whose free runs are below 4 GiB is shown, beside the class, to be one step of the relation
    `Next`, and to leave such a heap again exactly when what it releases fits. This file is about
    the runs in which every release fits. */
module NvRuns {
  import opened NvHeap
  import opened NvInv

  /** The blocks that are live or waiting, the queue of the waiting ones and the last clock reading. */
  datatype Heap = Heap(blocks: Blocks, queue: seq<Waiting>, clock: nat)

  /** A call: nvmalloc that hands out cells, nvmalloc that returns NULL, and nvfree, which
      reads the clock once for the stamp and once more for the release. */
  datatype Step = Malloc(start: nat, cells: nat, now: nat) | Refused | Free(start: nat, stamp: nat, now: nat)

  ghost predicate Apart(blocks: Blocks, a: nat, n: nat) {
    forall b :: b in blocks ==> b + blocks[b] <= a || a + n <= b
  }

  /** The head of the queue has waited long enough. */
  predicate Ripe(h: Heap, wait: nat, now: nat) {
    h.queue != [] && now >= h.queue[0].time + wait
  }

  /** incrementTime: at most the head leaves. */
  function Tick(h: Heap, wait: nat, now: nat): Heap {
    if Ripe(h, wait, now) then Heap(h.blocks - {h.queue[0].start}, h.queue[1..], now) else Heap(h.blocks, h.queue, now)
  }

  ghost predicate Next(wait: nat, h: Heap, s: Step, h': Heap) {
    match s
    case Malloc(a, n, now) =>
      && h.clock <= now && n >= 1 && Apart(h.blocks, a, n)
      && h' == Tick(Heap(h.blocks[a := n], h.queue, h.clock), wait, now)
    case Refused => h' == h
    case Free(b, stamp, now) =>
      && h.clock <= stamp <= now
      && b in h.blocks && !Queued(h.queue, b)
      && h' == Tick(Heap(h.blocks, h.queue + [Waiting(b, stamp)], h.clock), wait, now)
  }

  /** A run from the empty heap, each call one that `Next` speaks for. */
  ghost predicate Run(wait: nat, hs: seq<Heap>, ss: seq<Step>) {
    && |hs| == |ss| + 1
    && hs[0].queue == [] && hs[0].blocks == map[]
    && forall i :: 0 <= i < |ss| ==> Next(wait, hs[i], ss[i], hs[i + 1])
  }

  /** What holds in every reachable state. */
  ghost predicate Sound(h: Heap) {
    && (forall b :: b in h.blocks ==> h.blocks[b] >= 1)
    && (forall b, c :: b in h.blocks && c in h.blocks && b < c ==> b + h.blocks[b] <= c)
    && (forall i :: 0 <= i < |h.queue| ==> h.queue[i].start in h.blocks && h.queue[i].time <= h.clock)
    && (forall i, j :: 0 <= i < j < |h.queue| ==>
          h.queue[i].start != h.queue[j].start && h.queue[i].time <= h.queue[j].time)
  }

  lemma TickSound(h: Heap, wait: nat, now: nat)
    requires Sound(h) && h.clock <= now
    ensures Sound(Tick(h, wait, now))
  {
    var h' := Tick(h, wait, now);
    forall i | 0 <= i < |h'.queue|
      ensures h'.queue[i].start in h'.blocks && h'.queue[i].time <= now
    {
      var j := if Ripe(h, wait, now) then i + 1 else i;
      assert h'.queue[i] == h.queue[j];
    }
  }

  lemma NextSound(wait: nat, h: Heap, s: Step, h': Heap)
    requires Sound(h) && Next(wait, h, s, h')
    ensures Sound(h') && h.clock <= h'.clock
  {
    hide Ripe, Tick;
    match s
    case Malloc(a, n, now) =>
      assert Sound(Heap(h.blocks[a := n], h.queue, h.clock));
      TickSound(Heap(h.blocks[a := n], h.queue, h.clock), wait, now);
      TickClock(Heap(h.blocks[a := n], h.queue, h.clock), wait, now);
    case Refused =>
    case Free(b, stamp, now) =>
      var mid := Heap(h.blocks, h.queue + [Waiting(b, stamp)], stamp);
      assert Sound(mid);
      TickSound(mid, wait, now);
      TickClock(Heap(h.blocks, h.queue + [Waiting(b, stamp)], h.clock), wait, now);
      TickClock(mid, wait, now);
  }

  lemma TickClock(h: Heap, wait: nat, now: nat)
    ensures Tick(h, wait, now).clock == now
    ensures forall c :: Tick(h.(clock := c), wait, now) == Tick(h, wait, now)
  {
  }

  lemma {:induction false} RunSound(wait: nat, hs: seq<Heap>, ss: seq<Step>, i: nat)
    requires Run(wait, hs, ss) && i < |hs|
    ensures Sound(hs[i])
  {
    hide Next, Sound;
    if i == 0 {
      EmptySound(hs[0]);
    } else {
      RunSound(wait, hs, ss, i - 1);
      assert Next(wait, hs[i - 1], ss[i - 1], hs[i - 1 + 1]);
      NextSound(wait, hs[i - 1], ss[i - 1], hs[i]);
    }
  }

  lemma EmptySound(h: Heap)
    requires h.blocks == map[] && h.queue == []
    ensures Sound(h)
  {
  }

  // ----- a freed block is not handed out early -----

  /** Block b of n cells waits since time t. */
  ghost predicate Waits(h: Heap, b: nat, n: nat, t: nat) {
    b in h.blocks && h.blocks[b] == n && Waiting(b, t) in h.queue
  }

  /** The call releases what became due at time t or before. */
  predicate ClockedFrom(s: Step, t: nat) {
    !s.Refused? && s.now >= t
  }

  lemma TickWaits(h: Heap, wait: nat, now: nat, b: nat, n: nat, t: nat)
    requires Sound(h) && Waits(h, b, n, t)
    ensures Waits(Tick(h, wait, now), b, n, t) || now >= t + wait
  {
  }

  lemma StepWaits(wait: nat, h: Heap, s: Step, h': Heap, b: nat, n: nat, t: nat)
    requires Sound(h) && Next(wait, h, s, h') && Waits(h, b, n, t)
    ensures Waits(h', b, n, t) || ClockedFrom(s, t + wait)
  {
    hide Tick;
    match s
    case Malloc(a, m, now) =>
      var mid := Heap(h.blocks[a := m], h.queue, h.clock);
      assert Sound(mid);
      TickWaits(mid, wait, now, b, n, t);
    case Refused =>
    case Free(c, stamp, now) =>
      FreeWaits(wait, h, c, stamp, now, b, n, t);
  }

  lemma FreeWaits(wait: nat, h: Heap, c: nat, stamp: nat, now: nat, b: nat, n: nat, t: nat)
    requires Sound(h) && c in h.blocks && !Queued(h.queue, c) && h.clock <= stamp <= now
    requires Waits(h, b, n, t) || (b == c && n == h.blocks[c] && t == stamp)
    ensures var h' := Tick(Heap(h.blocks, h.queue + [Waiting(c, stamp)], h.clock), wait, now);
      Waits(h', b, n, t) || now >= t + wait
  {
    hide Tick;
    var mid := Heap(h.blocks, h.queue + [Waiting(c, stamp)], stamp);
    assert mid.queue[|h.queue|] == Waiting(c, stamp);
    assert Sound(mid);
    TickWaits(mid, wait, now, b, n, t);
    TickClock(mid, wait, now);
  }

  lemma {:induction false} WaitsUntil(wait: nat, hs: seq<Heap>, ss: seq<Step>, i: nat, j: nat)
    requires Run(wait, hs, ss) && i < j < |hs| && ss[i].Free?
    ensures ss[i].start in hs[i].blocks
    ensures Waits(hs[j], ss[i].start, hs[i].blocks[ss[i].start], ss[i].stamp) ||
            exists m :: i <= m < j && ClockedFrom(ss[m], ss[i].stamp + wait)
    decreases j
  {
    hide Sound, Waits, Tick;
    assert Next(wait, hs[i], ss[i], hs[i + 1]);
    var b, t := ss[i].start, ss[i].stamp;
    var n := hs[i].blocks[b];
    if j == i + 1 {
      RunSound(wait, hs, ss, i);
      FreeWaits(wait, hs[i], b, t, ss[i].now, b, n, t);
      assert ClockedFrom(ss[i], t + wait) || Waits(hs[j], b, n, t);
    } else {
      WaitsUntil(wait, hs, ss, i, j - 1);
      if Waits(hs[j - 1], b, n, t) {
        RunSound(wait, hs, ss, j - 1);
        assert Next(wait, hs[j - 1], ss[j - 1], hs[j - 1 + 1]);
        StepWaits(wait, hs[j - 1], ss[j - 1], hs[j], b, n, t);
      }
    }
  }

  /** No cell of a freed block is handed out again before some call in between has read a
      clock that is at least the free time plus the wait. */
  lemma NoEarlyReuse(wait: nat, hs: seq<Heap>, ss: seq<Step>, i: nat, j: nat, c: nat)
    requires Run(wait, hs, ss) && i < j < |ss| && ss[i].Free? && ss[j].Malloc?
    requires ss[i].start in hs[i].blocks
    requires ss[i].start <= c < ss[i].start + hs[i].blocks[ss[i].start]
    requires ss[j].start <= c < ss[j].start + ss[j].cells
    ensures exists m :: i <= m < j && ClockedFrom(ss[m], ss[i].stamp + wait)
    ensures ss[j].now >= ss[i].stamp + wait
  {
    hide Sound, Tick, Queued;
    WaitsUntil(wait, hs, ss, i, j);
    assert Next(wait, hs[j], ss[j], hs[j + 1]);
    var m :| i <= m < j && ClockedFrom(ss[m], ss[i].stamp + wait);
    ClockGrows(wait, hs, ss, m, j);
  }

  lemma {:induction false} ClockGrows(wait: nat, hs: seq<Heap>, ss: seq<Step>, m: nat, j: nat)
    requires Run(wait, hs, ss) && m < j < |hs| && !ss[m].Refused?
    ensures ss[m].now <= hs[j].clock
    decreases j
  {
    hide Sound, Tick, Queued;
    assert Next(wait, hs[j - 1], ss[j - 1], hs[j - 1 + 1]);
    if j == m + 1 {
      StepClock(wait, hs[m], ss[m], hs[j]);
    } else {
      ClockGrows(wait, hs, ss, m, j - 1);
      RunSound(wait, hs, ss, j - 1);
      NextSound(wait, hs[j - 1], ss[j - 1], hs[j]);
    }
  }

  lemma StepClock(wait: nat, h: Heap, s: Step, h': Heap)
    requires Next(wait, h, s, h') && !s.Refused?
    ensures h'.clock == s.now
  {
  }

  // ----- first in, first out -----

  /** What the first j calls put into the queue, in order. */
  function Entered(ss: seq<Step>, j: nat): seq<Waiting>
    requires j <= |ss|
  {
    if j == 0 then []
    else if ss[j - 1].Free? then Entered(ss, j - 1) + [Waiting(ss[j - 1].start, ss[j - 1].stamp)]
    else Entered(ss, j - 1)
  }

  /** The queue is what entered less what left, and things leave in the order they entered. */
  lemma {:induction false} FirstInFirstOut(wait: nat, hs: seq<Heap>, ss: seq<Step>, j: nat)
    requires Run(wait, hs, ss) && j < |hs|
    ensures |hs[j].queue| <= |Entered(ss, j)|
    ensures hs[j].queue == Entered(ss, j)[|Entered(ss, j)| - |hs[j].queue|..]
  {
    hide Next;
    if j > 0 {
      FirstInFirstOut(wait, hs, ss, j - 1);
      assert Next(wait, hs[j - 1], ss[j - 1], hs[j - 1 + 1]);
      var s := ss[j - 1];
      var more := if s.Free? then [Waiting(s.start, s.stamp)] else [];
      StepQueue(wait, hs[j - 1], s, hs[j]);
      assert Entered(ss, j) == Entered(ss, j - 1) + more;
      SuffixStep(Entered(ss, j - 1), hs[j - 1].queue, more, hs[j].queue);
    }
  }

  lemma SuffixStep(all: seq<Waiting>, q: seq<Waiting>, more: seq<Waiting>, q': seq<Waiting>)
    requires |q| <= |all| && q == all[|all| - |q|..]
    requires var grown := q + more; q' == grown || (grown != [] && q' == grown[1..])
    ensures |q'| <= |all + more| && q' == (all + more)[|all + more| - |q'|..]
  {
    var k := |all| - |q|;
    assert q + more == (all + more)[k..];
    if q' != q + more {
      assert q' == (all + more)[k + 1..];
    }
  }

  /** One call appends at most one block and then lets at most one go. */
  lemma StepQueue(wait: nat, h: Heap, s: Step, h': Heap)
    requires Next(wait, h, s, h')
    ensures var grown := h.queue + if s.Free? then [Waiting(s.start, s.stamp)] else [];
      h'.queue == grown || (grown != [] && h'.queue == grown[1..])
  {
  }

  // ----- a ripe block leaves in turn -----

  /** With k blocks ahead of it, a ripe block leaves within the next k + 1 calls that read
      the clock. */
  lemma {:induction false} LeavesInTurn(wait: nat, hs: seq<Heap>, ss: seq<Step>, i: nat, k: nat)
    requires Run(wait, hs, ss) && i + k + 1 < |hs| && k < |hs[i].queue|
    requires forall m :: i <= m <= i + k ==> ClockedFrom(ss[m], hs[i].queue[k].time + wait)
    ensures !Queued(hs[i + k + 1].queue, hs[i].queue[k].start)
    decreases k
  {
    hide Apart;
    RunSound(wait, hs, ss, i);
    assert Next(wait, hs[i], ss[i], hs[i + 1]);
    assert ClockedFrom(ss[i], hs[i].queue[k].time + wait);
    HeadLeaves(wait, hs[i], ss[i], hs[i + 1], k);
    if k > 0 {
      LeavesInTurn(wait, hs, ss, i + 1, k - 1);
    }
  }

  lemma HeadLeaves(wait: nat, h: Heap, s: Step, h': Heap, k: nat)
    requires Sound(h) && Next(wait, h, s, h') && k < |h.queue| && ClockedFrom(s, h.queue[k].time + wait)
    ensures k > 0 ==> k - 1 < |h'.queue| && h'.queue[k - 1] == h.queue[k]
    ensures k == 0 ==> !Queued(h'.queue, h.queue[0].start)
  {
  }

  // ----- what the client holds -----

  /** Block b of n cells has been handed out and not been freed. */
  ghost predicate Held(h: Heap, b: nat, n: nat) {
    b in h.blocks && h.blocks[b] == n && !Queued(h.queue, b)
  }

  lemma TickHeld(h: Heap, wait: nat, now: nat, b: nat, n: nat)
    requires Held(h, b, n)
    ensures Held(Tick(h, wait, now), b, n)
  {
    if Ripe(h, wait, now) {
      assert h.queue[0].start != b;
      forall i | 0 <= i < |h.queue[1..]|
        ensures h.queue[1..][i].start != b
      {
        assert h.queue[1..][i] == h.queue[i + 1];
      }
    }
  }

  lemma StepHeld(wait: nat, h: Heap, s: Step, h': Heap, b: nat, n: nat)
    requires Sound(h) && Next(wait, h, s, h')
    requires (Held(h, b, n) && !(s.Free? && s.start == b)) || (s.Malloc? && s.start == b && s.cells == n)
    ensures Held(h', b, n)
  {
    hide Tick;
    match s
    case Malloc(a, m, now) =>
      assert a !in h.blocks;
      TickHeld(Heap(h.blocks[a := m], h.queue, h.clock), wait, now, b, n);
    case Refused =>
    case Free(c, stamp, now) =>
      var queue := h.queue + [Waiting(c, stamp)];
      forall i | 0 <= i < |queue|
        ensures queue[i].start != b
      {
        assert i < |h.queue| ==> queue[i] == h.queue[i];
      }
      TickHeld(Heap(h.blocks, queue, h.clock), wait, now, b, n);
  }

  /** A block stays with the client until it is freed. */
  lemma {:induction false} HeldUntilFreed(wait: nat, hs: seq<Heap>, ss: seq<Step>, i: nat, j: nat)
    requires Run(wait, hs, ss) && i < j < |hs| && ss[i].Malloc?
    requires forall m :: i < m < j ==> !(ss[m].Free? && ss[m].start == ss[i].start)
    ensures Held(hs[j], ss[i].start, ss[i].cells)
    decreases j
  {
    hide Sound, Held, Next;
    if j > i + 1 {
      HeldUntilFreed(wait, hs, ss, i, j - 1);
    }
    RunSound(wait, hs, ss, j - 1);
    assert Next(wait, hs[j - 1], ss[j - 1], hs[j - 1 + 1]);
    StepHeld(wait, hs[j - 1], ss[j - 1], hs[j], ss[i].start, ss[i].cells);
  }

  /** Two blocks handed out in one run share no cell unless the first was freed in between. */
  lemma NoOverlap(wait: nat, hs: seq<Heap>, ss: seq<Step>, i: nat, j: nat)
    requires Run(wait, hs, ss) && i < j < |ss| && ss[i].Malloc? && ss[j].Malloc?
    requires forall m :: i < m < j ==> !(ss[m].Free? && ss[m].start == ss[i].start)
    ensures ss[i].start + ss[i].cells <= ss[j].start || ss[j].start + ss[j].cells <= ss[i].start
  {
    hide Sound, Tick, Queued;
    HeldUntilFreed(wait, hs, ss, i, j);
    assert Next(wait, hs[j], ss[j], hs[j + 1]);
  }
}
