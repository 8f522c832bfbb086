/** Shared interrupt handlers: chains of slots in a fixed pool, linked twice, as indices and as Thumb instructions. */
module IrqChains {

  // ----- instructions

  const ADD_R1_PC: int := 0xa100
  const LDR_R0: int := 0x4801
  const BLX_R0: int := 0x4780
  const POP_PC: int := 0xbd00

  /** make_branch: encoding T2 of B (section A6.7.10 of the ARMv6-M Architecture Reference Manual). */
  function MakeBranch(from: int, to: int): int { 0xe000 + (to - from - 4) / 2 % 0x800 }

  /** What make_branch asserts. */
  predicate InRange(from: int, to: int) { -2048 <= to - from - 4 <= 2046 && (to - from) % 2 == 0 }

  predicate IsBranch(inst: int) { inst / 0x800 == 0x1c }

  /** resolve_branch: the target of the branch at address at. */
  function ResolveBranch(inst: int, at: int): int {
    var x := inst % 0x800;
    at + 4 + 2 * (if x < 0x400 then x else x - 0x800)
  }

  /** resolve_branch undoes make_branch. */
  lemma ResolveMade(from: int, to: int)
    requires InRange(from, to)
    ensures IsBranch(MakeBranch(from, to)) && ResolveBranch(MakeBranch(from, to), from) == to
  {
  }

  function SignedByte(b: int): int { if b < 0x80 then b else b - 0x100 }

  // ----- slots

  /** struct irq_handler_chain_slot; link and priority share their place with a fourth instruction. */
  datatype Slot = Slot(inst1: int, inst2: int, inst3: int, link: int, priority: int, handler: nat)

  /** An entry of the vector table: the default handler, a raw handler, or the address of a slot. */
  datatype Vector = Unhandled | Raw(handler: nat) | Chain(slot: nat)

  const SLOT_SIZE: int := 12

  /** The pool lies at address base; the two code fragments follow it, as in irq_handler_chain.S. */
  function Address(base: int, i: int): int { base + SLOT_SIZE * i }

  function Inst2(base: int, i: int): int { Address(base, i) + 2 }

  function Inst3(base: int, i: int): int { Address(base, i) + 4 }

  function FirstSlotCode(base: int, n: nat): int { Address(base, n) }

  function RemoveTailCode(base: int, n: nat): int { Address(base, n) + 10 }

  /** The branch at the end of slot i to slot j. */
  function NextBranch(base: int, i: int, j: int): int { MakeBranch(Inst3(base, i), Address(base, j)) }

  function FirstBranch(base: int, n: nat, i: int): int { MakeBranch(Inst2(base, i), FirstSlotCode(base, n)) }

  /** The offset that insert_branch_and_link encodes for slot i. */
  function TailOffset(base: int, n: nat, i: int): int { (RemoveTailCode(base, n) - Inst3(base, i) - 4) / 2 }

  /** The second half word of that instruction lies where link and priority were. */
  function TailLink(base: int, n: nat, i: int): int { SignedByte((0xf800 + TailOffset(base, n, i) % 0x800) % 0x100) }

  function TailPriority(base: int, n: nat, i: int): int { (0xf800 + TailOffset(base, n, i) % 0x800) / 0x100 }

  /** The target of the forward bl at address at, given by its two half words. */
  function CallTarget(first: int, second: int, at: int): int { at + 4 + 2 * (first % 0x800 * 0x800 + second % 0x800) }

  /** All branches between slots and to the code behind the pool are in range. */
  lemma BranchesReach(base: int, n: nat, i: nat, j: nat)
    requires i < n < 0x7f && j < n
    ensures InRange(Inst3(base, i), Address(base, j)) && InRange(Inst2(base, i), FirstSlotCode(base, n))
    ensures 0 <= TailOffset(base, n, i) < 0x800 && TailOffset(base, n, i) == 6 * (n - i) + 1
  {
  }

  // ----- the state

  /** The first two instructions of slot c[k] of a chain. */
  predicate IsEntry(slots: seq<Slot>, base: int, c: seq<nat>, k: nat)
    requires k < |c| && c[k] < |slots|
  {
    var s := slots[c[k]];
    if k == 0 then s.inst1 == ADD_R1_PC && s.inst2 == FirstBranch(base, |slots|, c[k])
    else s.inst1 == LDR_R0 && s.inst2 == BLX_R0
  }

  /** Slot c[k] of a chain: its code and its links. */
  predicate IsLink(slots: seq<Slot>, base: int, c: seq<nat>, k: nat)
    requires k < |c| && forall i :: 0 <= i < |c| ==> c[i] < |slots|
  {
    var s := slots[c[k]];
    && IsEntry(slots, base, c, k)
    && (if k + 1 < |c| then s.link == c[k + 1] && s.inst3 == NextBranch(base, c[k], c[k + 1])
        else s.link == -1 && s.inst3 == POP_PC)
  }

  /** The slots of c exist and are different ones. */
  predicate Distinct(c: seq<nat>, n: nat) {
    (forall i :: 0 <= i < |c| ==> c[i] < n) && forall i, j :: 0 <= i < j < |c| ==> c[i] != c[j]
  }

  /** How many handlers of a chain are called: all but a removed tail that is still executing. */
  function LiveCount(c: seq<nat>, pending: bool): nat { if pending && c != [] then |c| - 1 else |c| }

  /** The slots of those handlers. */
  function Live(c: seq<nat>, pending: bool): (l: seq<nat>)
    ensures |l| == LiveCount(c, pending) && forall i :: 0 <= i < |l| ==> l[i] == c[i]
  {
    if pending && c != [] then c[..|c| - 1] else c
  }

  /** The removed tail of a chain: it ends with a call of the code that will unlink it. */
  predicate IsTail(slots: seq<Slot>, base: int, t: nat)
    requires t < |slots|
  {
    && slots[t].inst3 == 0xf000 + TailOffset(base, |slots|, t) / 0x800 % 0x800
    && slots[t].link == TailLink(base, |slots|, t) && slots[t].priority == TailPriority(base, |slots|, t)
  }

  /** The two halves of the instruction at the end of a removed tail, one of them read from link and priority, call
      irq_handler_chain_remove_tail; the half word read as a priority is 0xf8 or more. */
  lemma TailCalls(slots: seq<Slot>, base: int, t: nat)
    requires t < |slots| < 0x7f && IsTail(slots, base, t)
    ensures CallTarget(slots[t].inst3, slots[t].link % 0x100 + 0x100 * slots[t].priority, Inst3(base, t))
      == RemoveTailCode(base, |slots|)
    ensures slots[t].priority >= 0xf8
  {
    BranchesReach(base, |slots|, t, 0);
    TailHalves(TailOffset(base, |slots|, t));
    assert Inst3(base, t) + 4 + 2 * TailOffset(base, |slots|, t) == RemoveTailCode(base, |slots|);
    hide TailOffset, RemoveTailCode, Inst3;
  }

  lemma TailHalves(offset: int)
    requires 0 <= offset < 0x800
    ensures var inst4 := 0xf800 + offset % 0x800;
      SignedByte(inst4 % 0x100) % 0x100 + 0x100 * (inst4 / 0x100) == 0xf800 + offset
    ensures (0xf800 + offset % 0x800) / 0x100 >= 0xf8 && offset / 0x800 % 0x800 == 0
    ensures (0xf800 + offset) % 0x800 == offset
  {
  }

  ghost predicate IsChain(slots: seq<Slot>, base: int, c: seq<nat>, pending: bool) {
    && Distinct(c, |slots|)
    && (forall k :: 0 <= k < LiveCount(c, pending) ==> IsLink(slots, base, c, k))
    && (forall k :: 0 < k < LiveCount(c, pending) ==> slots[c[k - 1]].priority >= slots[c[k]].priority)
    && (pending ==> c != [] && IsTail(slots, base, c[|c| - 1]) && IsEntry(slots, base, c, |c| - 1))
  }

  function FirstOf(c: seq<nat>): int { if c == [] then -1 else c[0] }

  /** The list of free slots. */
  ghost predicate IsFree(slots: seq<Slot>, free: seq<nat>, head: int) {
    && Distinct(free, |slots|) && head == FirstOf(free)
    && forall k :: 0 <= k < |free| ==> slots[free[k]].link == FirstOf(free[k + 1..])
  }

  ghost predicate IsVector(v: Vector, c: seq<nat>) { if c == [] then !v.Chain? else v == Chain(c[0]) }

  /** Every slot is in the free list (owner -1) or in the chain of one interrupt. */
  ghost predicate Owned(n: nat, free: seq<nat>, chains: seq<seq<nat>>, owner: seq<int>) {
    && |owner| == n
    && (forall k :: 0 <= k < |free| ==> free[k] < n && owner[free[k]] == -1)
    && (forall m, k :: 0 <= m < |chains| && 0 <= k < |chains[m]| ==> chains[m][k] < n && owner[chains[m][k]] == m)
    && (forall x :: 0 <= x < n ==> -1 <= owner[x] < |chains|)
    && (forall x :: 0 <= x < n && owner[x] == -1 ==> x in free)
    && (forall x :: 0 <= x < n && owner[x] >= 0 ==> x in chains[owner[x]])
  }

  /** The ghost view of the pool. */
  datatype View = View(free: seq<nat>, chains: seq<seq<nat>>, pending: seq<bool>, owner: seq<int>)

  ghost predicate Inv(slots: seq<Slot>, base: int, head: int, vectors: seq<Vector>, v: View) {
    && 0 < |slots| < 0x7f && |vectors| == |v.chains| == |v.pending|
    && Owned(|slots|, v.free, v.chains, v.owner)
    && IsFree(slots, v.free, head)
    && (forall m :: 0 <= m < |v.chains| ==>
          IsChain(slots, base, v.chains[m], v.pending[m]) && IsVector(vectors[m], v.chains[m]))
  }

  // ----- what a chain calls

  datatype Call = Call(handler: nat, priority: int)

  function Calls(slots: seq<Slot>, live: seq<nat>): (r: seq<Call>)
    requires forall i :: 0 <= i < |live| ==> live[i] < |slots|
    ensures |r| == |live|
  {
    seq(|live|, i requires 0 <= i < |live| => Call(slots[live[i]].handler, slots[live[i]].priority))
  }

  /** Behind all handlers of a higher priority. */
  function Inserted(calls: seq<Call>, x: Call): seq<Call> {
    if calls == [] || calls[0].priority <= x.priority then [x] + calls else [calls[0]] + Inserted(calls[1..], x)
  }

  /** Without the first call of a handler. */
  function Removed(calls: seq<Call>, handler: nat): seq<Call> {
    if calls == [] then []
    else if calls[0].handler == handler then calls[1..]
    else [calls[0]] + Removed(calls[1..], handler)
  }

  /** The first call of the handler is the last call. */
  predicate RemovesLast(calls: seq<Call>, handler: nat) {
    && calls != [] && calls[|calls| - 1].handler == handler
    && forall i :: 0 <= i < |calls| - 1 ==> calls[i].handler != handler
  }

  lemma {:induction false} InsertedAt(calls: seq<Call>, x: Call, p: nat)
    requires p <= |calls| && (forall i :: 0 <= i < p ==> calls[i].priority > x.priority)
    requires p < |calls| ==> calls[p].priority <= x.priority
    ensures Inserted(calls, x) == calls[..p] + [x] + calls[p..]
  {
    if p > 0 {
      InsertedAt(calls[1..], x, p - 1);
      assert calls[..p] == [calls[0]] + calls[1..][..p - 1];
    }
  }

  lemma {:induction false} RemovedAt(calls: seq<Call>, handler: nat, p: nat)
    requires p < |calls| && calls[p].handler == handler && forall i :: 0 <= i < p ==> calls[i].handler != handler
    ensures Removed(calls, handler) == calls[..p] + calls[p + 1..]
  {
    if p > 0 {
      RemovedAt(calls[1..], handler, p - 1);
      assert calls[..p] == [calls[0]] + calls[1..][..p - 1];
    }
  }

  lemma {:induction false} NotThere(calls: seq<Call>, handler: nat)
    requires forall i :: 0 <= i < |calls| ==> calls[i].handler != handler
    ensures Removed(calls, handler) == calls
  {
    if calls != [] {
      NotThere(calls[1..], handler);
    }
  }

  // ----- frames

  lemma SameChain(slots: seq<Slot>, slots': seq<Slot>, base: int, c: seq<nat>, pending: bool)
    requires IsChain(slots, base, c, pending) && |slots'| == |slots|
    requires forall i :: 0 <= i < |c| ==> slots'[c[i]] == slots[c[i]]
    ensures IsChain(slots', base, c, pending) && Calls(slots', Live(c, pending)) == Calls(slots, Live(c, pending))
  {
    hide FirstBranch, NextBranch, TailLink;
    forall k | 0 <= k < LiveCount(c, pending) ensures IsLink(slots', base, c, k) {
      assert IsLink(slots, base, c, k);
    }
  }

  /** A slot is taken from the free list. */
  lemma Taken(slots: seq<Slot>, slots': seq<Slot>, free: seq<nat>, head: int)
    requires IsFree(slots, free, head) && free != [] && |slots'| == |slots|
    requires forall i :: 1 <= i < |free| ==> slots'[free[i]] == slots[free[i]]
    ensures IsFree(slots', free[1..], slots[free[0]].link)
  {
    var f := free[1..];
    forall k | 0 <= k < |f| ensures slots'[f[k]].link == FirstOf(f[k + 1..]) {
      assert f[k] == free[k + 1] && f[k + 1..] == free[k + 2..];
    }
  }

  /** A slot is put in front of the free list. */
  lemma Given(slots: seq<Slot>, slots': seq<Slot>, free: seq<nat>, head: int, x: nat)
    requires IsFree(slots, free, head) && x < |slots| && |slots'| == |slots| && x !in free
    requires slots'[x].link == head && forall i :: 0 <= i < |free| ==> slots'[free[i]].link == slots[free[i]].link
    ensures IsFree(slots', [x] + free, x)
  {
    var f := [x] + free;
    forall k | 0 <= k < |f| ensures slots'[f[k]].link == FirstOf(f[k + 1..]) {
      if k == 0 {
        assert f[1..] == free;
      } else {
        assert f[k] == free[k - 1] && f[k + 1..] == free[k..];
      }
    }
  }

  // ----- edits of a chain

  /** What irq_add_shared_handler writes into slot s for place p of chain c. */
  function NewSlot(base: int, n: nat, c: seq<nat>, p: nat, s: nat, x: Call): Slot
    requires p <= |c|
  {
    Slot(if p == 0 then ADD_R1_PC else LDR_R0, if p == 0 then FirstBranch(base, n, s) else BLX_R0,
         if p < |c| then NextBranch(base, s, c[p]) else POP_PC, if p < |c| then c[p] else -1, x.priority, x.handler)
  }

  /** What it makes of the slot before, or of the head of the chain that is not the head any more. */
  function Relinked(slots: seq<Slot>, base: int, c: seq<nat>, p: nat, s: nat, i: nat): Slot
    requires i < |c| && c[i] < |slots|
  {
    if p > 0 && i == p - 1 then slots[c[i]].(inst3 := NextBranch(base, c[i], s), link := s)
    else if p == 0 && i == 0 then slots[c[i]].(inst1 := LDR_R0, inst2 := BLX_R0)
    else slots[c[i]]
  }

  lemma DistinctInsert(c: seq<nat>, n: nat, p: nat, s: nat)
    requires Distinct(c, n) && p <= |c| && s < n && s !in c
    ensures Distinct(c[..p] + [s] + c[p..], n)
  {
    var c' := c[..p] + [s] + c[p..];
    forall i, j | 0 <= i < j < |c'| ensures c'[i] != c'[j] {
      var i', j' := if i < p then i else i - 1, if j < p then j else j - 1;
      if i != p && j != p {
        assert c'[i] == c[i'] && c'[j] == c[j'];
      } else if i == p {
        assert c'[j] == c[j'];
      } else {
        assert c'[i] == c[i'];
      }
    }
  }

  lemma InsertChain(slots: seq<Slot>, slots': seq<Slot>, base: int, c: seq<nat>, pending: bool, p: nat, s: nat, x: Call)
    requires IsChain(slots, base, c, pending) && s < |slots| == |slots'| && s !in c
    requires IsPlace(slots, c, LiveCount(c, pending), p, x.priority) && slots'[s] == NewSlot(base, |slots|, c, p, s, x)
    requires forall i :: 0 <= i < |c| ==> slots'[c[i]] == Relinked(slots, base, c, p, s, i)
    ensures p <= |c| && IsChain(slots', base, c[..p] + [s] + c[p..], pending)
  {
    var c', n := c[..p] + [s] + c[p..], LiveCount(c, pending);
    DistinctInsert(c, |slots|, p, s);
    if pending {
      InsertTail(slots, slots', base, c, p, s);
    }
    InsertLinks(slots, slots', base, c, n, p, s, x, c');
    PrioritiesOf(slots, base, c, pending);
    InsertPriorities(slots, slots', base, c, n, p, s, x, c');
    hide *;
    ChainWith(slots', base, c', pending, n + 1);
  }

  lemma PrioritiesOf(slots: seq<Slot>, base: int, c: seq<nat>, pending: bool)
    requires IsChain(slots, base, c, pending)
    ensures Distinct(c, |slots|)
    ensures forall i :: 0 < i < LiveCount(c, pending) ==> slots[c[i - 1]].priority >= slots[c[i]].priority
  {
    hide IsLink, IsTail;
  }

  lemma InsertLinks(slots: seq<Slot>, slots': seq<Slot>, base: int, c: seq<nat>, n: nat, p: nat, s: nat, x: Call,
                    c': seq<nat>)
    requires Distinct(c, |slots|) && p <= n <= |c| && s < |slots| == |slots'|
    requires forall i :: 0 <= i < n ==> IsLink(slots, base, c, i)
    requires slots'[s] == NewSlot(base, |slots|, c, p, s, x)
    requires forall i :: 0 <= i < |c| ==> slots'[c[i]] == Relinked(slots, base, c, p, s, i)
    requires c' == c[..p] + [s] + c[p..] && Distinct(c', |slots|)
    ensures forall k :: 0 <= k <= n ==> IsLink(slots', base, c', k)
  {
    hide IsLink, NewSlot, Relinked;
    forall k | 0 <= k <= n ensures IsLink(slots', base, c', k) {
      InsertLink(slots, slots', base, c, n, p, s, x, k);
    }
  }

  lemma InsertPriorities(slots: seq<Slot>, slots': seq<Slot>, base: int, c: seq<nat>, n: nat, p: nat, s: nat, x: Call,
                         c': seq<nat>)
    requires s < |slots| == |slots'| && IsPlace(slots, c, n, p, x.priority)
    requires forall i :: 0 < i < n ==> slots[c[i - 1]].priority >= slots[c[i]].priority
    requires slots'[s] == NewSlot(base, |slots|, c, p, s, x)
    requires forall i :: 0 <= i < |c| ==> slots'[c[i]] == Relinked(slots, base, c, p, s, i)
    requires p <= n <= |c| && c' == c[..p] + [s] + c[p..] && Distinct(c', |slots|)
    ensures forall k :: 0 < k <= n ==> slots'[c'[k - 1]].priority >= slots'[c'[k]].priority
  {
    hide NewSlot, Relinked, IsPlace;
    forall k | 0 < k <= n ensures slots'[c'[k - 1]].priority >= slots'[c'[k]].priority {
      InsertPriority(slots, slots', base, c, n, p, s, x, k);
    }
  }

  lemma ChainWith(slots: seq<Slot>, base: int, c: seq<nat>, pending: bool, n: nat)
    requires Distinct(c, |slots|) && n == LiveCount(c, pending)
    requires forall k :: 0 <= k < n ==> IsLink(slots, base, c, k)
    requires forall k :: 0 < k < n ==> slots[c[k - 1]].priority >= slots[c[k]].priority
    requires pending ==> c != [] && IsTail(slots, base, c[|c| - 1]) && IsEntry(slots, base, c, |c| - 1)
    ensures IsChain(slots, base, c, pending)
  {
    hide IsLink, IsTail, IsEntry;
  }

  /** A removed tail that still executes keeps its place. */
  lemma InsertTail(slots: seq<Slot>, slots': seq<Slot>, base: int, c: seq<nat>, p: nat, s: nat)
    requires Distinct(c, |slots|) && p < |c| && |slots'| == |slots| && IsTail(slots, base, c[|c| - 1])
    requires IsEntry(slots, base, c, |c| - 1)
    requires forall i :: 0 <= i < |c| ==> slots'[c[i]] == Relinked(slots, base, c, p, s, i)
    ensures (c[..p] + [s] + c[p..])[|c|] == c[|c| - 1] && IsTail(slots', base, c[|c| - 1])
    ensures IsEntry(slots', base, c[..p] + [s] + c[p..], |c|)
  {
    hide TailOffset, TailLink, TailPriority, NextBranch;
    var t := |c| - 1;
    assert slots'[c[t]] == Relinked(slots, base, c, p, s, t);
  }

  lemma InsertLink(slots: seq<Slot>, slots': seq<Slot>, base: int, c: seq<nat>, n: nat, p: nat, s: nat, x: Call, k: nat)
    requires Distinct(c, |slots|) && p <= n <= |c| && s < |slots| == |slots'| && k <= n
    requires forall i :: 0 <= i < n ==> IsLink(slots, base, c, i)
    requires slots'[s] == NewSlot(base, |slots|, c, p, s, x)
    requires forall i :: 0 <= i < |c| ==> slots'[c[i]] == Relinked(slots, base, c, p, s, i)
    requires Distinct(c[..p] + [s] + c[p..], |slots|)
    ensures IsLink(slots', base, c[..p] + [s] + c[p..], k)
  {
    hide FirstBranch, NextBranch;
    var c' := c[..p] + [s] + c[p..];
    if k < p {
      assert IsLink(slots, base, c, k);
    } else if k > p {
      assert IsLink(slots, base, c, k - 1);
      assert c'[k] == c[k - 1];
      assert k + 1 < |c'| ==> c'[k + 1] == c[k];
    } else {
      assert k + 1 < |c'| ==> c'[k + 1] == c[k];
    }
  }

  lemma InsertPriority(slots: seq<Slot>, slots': seq<Slot>, base: int, c: seq<nat>, n: nat, p: nat, s: nat, x: Call,
                       k: nat)
    requires s < |slots| == |slots'| && 0 < k <= n && IsPlace(slots, c, n, p, x.priority)
    requires forall i :: 0 < i < n ==> slots[c[i - 1]].priority >= slots[c[i]].priority
    requires slots'[s] == NewSlot(base, |slots|, c, p, s, x)
    requires forall i :: 0 <= i < |c| ==> slots'[c[i]] == Relinked(slots, base, c, p, s, i)
    ensures p <= |c|
    ensures var c' := c[..p] + [s] + c[p..];
      c'[k - 1] < |slots| && c'[k] < |slots| && slots'[c'[k - 1]].priority >= slots'[c'[k]].priority
  {
    hide FirstBranch, NextBranch;
    if k < p {
      assert slots[c[k - 1]].priority >= slots[c[k]].priority;
    } else if k > p + 1 {
      assert slots[c[k - 2]].priority >= slots[c[k - 1]].priority;
    }
  }

  /** The calls after an insertion. */
  lemma InsertedCalls(slots: seq<Slot>, slots': seq<Slot>, base: int, c: seq<nat>, pending: bool, p: nat, s: nat,
                      x: Call)
    requires IsPlace(slots, c, LiveCount(c, pending), p, x.priority) && s < |slots| == |slots'| && (pending ==> c != [])
    requires slots'[s] == NewSlot(base, |slots|, c, p, s, x)
    requires forall i :: 0 <= i < |c| ==> slots'[c[i]] == Relinked(slots, base, c, p, s, i)
    ensures p <= |c| && forall i :: 0 <= i < |c| ==> c[i] < |slots|
    ensures forall i :: 0 <= i < |c[..p] + [s] + c[p..]| ==> (c[..p] + [s] + c[p..])[i] < |slots|
    ensures Calls(slots', Live(c[..p] + [s] + c[p..], pending)) == Inserted(Calls(slots, Live(c, pending)), x)
  {
    hide FirstBranch, NextBranch;
    InsertCalls(slots, slots', Live(c, pending), p, s, x);
    hide Calls, Inserted, NewSlot, Relinked;
    LiveInsert(c, pending, p, s);
  }

  lemma LiveInsert(c: seq<nat>, pending: bool, p: nat, s: nat)
    requires p <= LiveCount(c, pending) && (pending ==> c != [])
    ensures Live(c[..p] + [s] + c[p..], pending) == Live(c, pending)[..p] + [s] + Live(c, pending)[p..]
  {
    var l, r := Live(c[..p] + [s] + c[p..], pending), Live(c, pending)[..p] + [s] + Live(c, pending)[p..];
    forall i | 0 <= i < |r| ensures l[i] == r[i] {
    }
  }

  lemma InsertCalls(slots: seq<Slot>, slots': seq<Slot>, l: seq<nat>, p: nat, s: nat, x: Call)
    requires IsPlace(slots, l, |l|, p, x.priority) && s < |slots| == |slots'|
    requires slots'[s].handler == x.handler && slots'[s].priority == x.priority
    requires forall i :: 0 <= i < |l| ==>
      slots'[l[i]].handler == slots[l[i]].handler && slots'[l[i]].priority == slots[l[i]].priority
    ensures p <= |l| && (forall i :: 0 <= i < |l| ==> l[i] < |slots|)
    ensures forall i :: 0 <= i < |l[..p] + [s] + l[p..]| ==> (l[..p] + [s] + l[p..])[i] < |slots|
    ensures Calls(slots', l[..p] + [s] + l[p..]) == Inserted(Calls(slots, l), x)
  {
    var l', calls := l[..p] + [s] + l[p..], Calls(slots, l);
    InsertedAt(calls, x, p);
    var r, q := Calls(slots', l'), calls[..p] + [x] + calls[p..];
    forall i | 0 <= i < |r| ensures r[i] == q[i] {
      if i > p {
        assert l'[i] == l[i - 1];
      }
    }
    assert r == q;
  }

  /** What irq_remove_handler makes of the slot of the removed handler when another one follows. */
  function Copied(slots: seq<Slot>, base: int, c: seq<nat>, k: nat): Slot
    requires k + 1 < |c| && forall i :: 0 <= i < |c| ==> c[i] < |slots|
  {
    var next := slots[c[k + 1]];
    slots[c[k]].(handler := next.handler, priority := next.priority, link := next.link,
                 inst3 := if k + 2 < |c| then NextBranch(base, c[k], c[k + 2]) else POP_PC)
  }

  lemma DistinctRemove(c: seq<nat>, n: nat, p: nat)
    requires Distinct(c, n) && p < |c|
    ensures Distinct(c[..p] + c[p + 1..], n) && c[p] !in c[..p] + c[p + 1..]
  {
    var c' := c[..p] + c[p + 1..];
    forall i | 0 <= i < |c'| ensures c'[i] == c[if i < p then i else i + 1] {
    }
  }

  /** The slot behind k is copied over slot k, and leaves the chain. */
  lemma CopyChain(slots: seq<Slot>, slots': seq<Slot>, base: int, c: seq<nat>, k: nat)
    requires IsChain(slots, base, c, false) && k + 1 < |c| && |slots'| == |slots|
    requires slots'[c[k]] == Copied(slots, base, c, k)
    requires forall i :: 0 <= i < |c| && i != k && i != k + 1 ==> slots'[c[i]] == slots[c[i]]
    ensures IsChain(slots', base, c[..k + 1] + c[k + 2..], false)
    ensures Calls(slots', c[..k + 1] + c[k + 2..]) == Calls(slots, c)[..k] + Calls(slots, c)[k + 1..]
  {
    var c' := c[..k + 1] + c[k + 2..];
    DistinctRemove(c, |slots|, k + 1);
    hide FirstBranch, NextBranch, Distinct;
    forall i | 0 <= i < |c'| ensures IsLink(slots', base, c', i) {
      CopyLink(slots, slots', base, c, k, i);
    }
    hide IsLink;
    forall i | 0 < i < |c'| ensures slots'[c'[i - 1]].priority >= slots'[c'[i]].priority {
      CopyPriority(slots, slots', base, c, k, i);
    }
    var r, calls := Calls(slots', c'), Calls(slots, c);
    forall i | 0 <= i < |r| ensures r[i] == (calls[..k] + calls[k + 1..])[i] {
      assert i > k ==> c'[i] == c[i + 1];
    }
    assert r == calls[..k] + calls[k + 1..];
  }

  lemma CopyLink(slots: seq<Slot>, slots': seq<Slot>, base: int, c: seq<nat>, k: nat, i: nat)
    requires IsChain(slots, base, c, false) && k + 1 < |c| && |slots'| == |slots| && i + 1 < |c|
    requires slots'[c[k]] == Copied(slots, base, c, k)
    requires forall i :: 0 <= i < |c| && i != k && i != k + 1 ==> slots'[c[i]] == slots[c[i]]
    requires Distinct(c[..k + 1] + c[k + 2..], |slots|)
    ensures IsLink(slots', base, c[..k + 1] + c[k + 2..], i)
  {
    hide FirstBranch, NextBranch;
    var c' := c[..k + 1] + c[k + 2..];
    if i < k {
      assert IsLink(slots, base, c, i);
    } else {
      assert IsLink(slots, base, c, i);
      assert IsLink(slots, base, c, i + 1);
      assert i > k ==> c'[i] == c[i + 1];
      assert i + 1 < |c'| ==> c'[i + 1] == c[i + 2];
    }
  }

  lemma CopyPriority(slots: seq<Slot>, slots': seq<Slot>, base: int, c: seq<nat>, k: nat, i: nat)
    requires IsChain(slots, base, c, false) && k + 1 < |c| && |slots'| == |slots| && 0 < i < |c| - 1
    requires slots'[c[k]] == Copied(slots, base, c, k)
    requires forall i :: 0 <= i < |c| && i != k && i != k + 1 ==> slots'[c[i]] == slots[c[i]]
    ensures var c' := c[..k + 1] + c[k + 2..];
      c'[i - 1] < |slots| && c'[i] < |slots| && slots'[c'[i - 1]].priority >= slots'[c'[i]].priority
  {
    hide FirstBranch, NextBranch, IsLink;
    assert slots[c[i - 1]].priority >= slots[c[i]].priority;
    assert slots[c[i]].priority >= slots[c[i + 1]].priority;
  }

  /** The last slot leaves the chain. */
  lemma CutChain(slots: seq<Slot>, slots': seq<Slot>, base: int, c: seq<nat>, pending: bool)
    requires IsChain(slots, base, c, pending) && c != [] && |slots'| == |slots|
    requires |c| > 1 ==> slots'[c[|c| - 2]] == slots[c[|c| - 2]].(link := -1, inst3 := POP_PC)
    requires forall i :: 0 <= i < |c| - 2 ==> slots'[c[i]] == slots[c[i]]
    ensures IsChain(slots', base, c[..|c| - 1], false)
    ensures Calls(slots', c[..|c| - 1]) == Calls(slots, c)[..|c| - 1]
  {
    hide IsChain, IsLink, Distinct, Calls;
    ChainSlots(slots, base, c, pending);
    DistinctPrefix(c, |slots|, |c| - 1);
    CutParts(slots, slots', base, c, c[..|c| - 1], pending);
    ChainWith(slots', base, c[..|c| - 1], false, |c| - 1);
    CutCalls(slots, slots', c);
  }

  lemma DistinctPrefix(c: seq<nat>, n: nat, m: nat)
    requires Distinct(c, n) && m <= |c|
    ensures Distinct(c[..m], n) && forall i :: 0 <= i < |c| ==> c[i] < n
  {
  }

  lemma CutParts(slots: seq<Slot>, slots': seq<Slot>, base: int, c: seq<nat>, c': seq<nat>, pending: bool)
    requires IsChain(slots, base, c, pending) && c != [] && |slots'| == |slots|
    requires |c| > 1 ==> slots'[c[|c| - 2]] == slots[c[|c| - 2]].(link := -1, inst3 := POP_PC)
    requires forall i :: 0 <= i < |c| - 2 ==> slots'[c[i]] == slots[c[i]]
    requires c' == c[..|c| - 1] && Distinct(c', |slots'|)
    ensures forall i :: 0 <= i < |c| - 1 ==> IsLink(slots', base, c', i)
    ensures forall i :: 0 < i < |c| - 1 ==> slots'[c[i - 1]].priority >= slots'[c[i]].priority
    ensures forall i :: 0 <= i < |c| - 1 ==>
      slots'[c[i]].handler == slots[c[i]].handler && slots'[c[i]].priority == slots[c[i]].priority
  {
    hide FirstBranch, NextBranch, TailLink, IsTail, IsLink;
    forall i | 0 <= i < |c| - 1 ensures IsLink(slots', base, c', i) {
      CutLink(slots, slots', base, c, pending, i);
    }
    forall i | 0 < i < |c| - 1 ensures slots'[c[i - 1]].priority >= slots'[c[i]].priority {
      assert slots[c[i - 1]].priority >= slots[c[i]].priority;
    }
  }

  lemma CutCalls(slots: seq<Slot>, slots': seq<Slot>, c: seq<nat>)
    requires Distinct(c, |slots|) && c != [] && |slots'| == |slots|
    requires forall i :: 0 <= i < |c| - 1 ==>
      slots'[c[i]].handler == slots[c[i]].handler && slots'[c[i]].priority == slots[c[i]].priority
    ensures Calls(slots', c[..|c| - 1]) == Calls(slots, c)[..|c| - 1]
  {
    var r, calls := Calls(slots', c[..|c| - 1]), Calls(slots, c)[..|c| - 1];
    forall i | 0 <= i < |r| ensures r[i] == calls[i] {
    }
    assert r == calls;
  }

  lemma CutLink(slots: seq<Slot>, slots': seq<Slot>, base: int, c: seq<nat>, pending: bool, i: nat)
    requires IsChain(slots, base, c, pending) && |slots'| == |slots| && i + 1 < |c|
    requires slots'[c[|c| - 2]] == slots[c[|c| - 2]].(link := -1, inst3 := POP_PC)
    requires forall i :: 0 <= i < |c| - 2 ==> slots'[c[i]] == slots[c[i]]
    ensures IsLink(slots', base, c[..|c| - 1], i)
  {
    var c' := c[..|c| - 1];
    assert IsLink(slots, base, c, i);
    hide FirstBranch, NextBranch, IsTail, Distinct, IsChain;
    if i == |c| - 2 {
      assert c'[i] == c[|c| - 2];
    } else {
      assert c'[i] == c[i] && c'[i + 1] == c[i + 1] && slots'[c[i]] == slots[c[i]];
    }
  }

  predicate SameEntry(a: Slot, b: Slot) { a.inst1 == b.inst1 && a.inst2 == b.inst2 }

  /** The last slot is marked as removed while it executes. */
  lemma MarkChain(slots: seq<Slot>, slots': seq<Slot>, base: int, c: seq<nat>)
    requires IsChain(slots, base, c, false) && c != [] && |slots'| == |slots| && IsTail(slots', base, c[|c| - 1])
    requires slots'[c[|c| - 1]].inst1 == slots[c[|c| - 1]].inst1 && slots'[c[|c| - 1]].inst2 == slots[c[|c| - 1]].inst2
    requires forall i :: 0 <= i < |c| - 1 ==> slots'[c[i]] == slots[c[i]]
    ensures IsChain(slots', base, c, true)
    ensures Calls(slots', c[..|c| - 1]) == Calls(slots, c)[..|c| - 1]
  {
    hide FirstBranch, NextBranch, IsTail;
    forall i | 0 <= i < |c| - 1 ensures IsLink(slots', base, c, i) {
      assert IsLink(slots, base, c, i);
    }
    assert IsLink(slots, base, c, |c| - 1);
    assert IsEntry(slots', base, c, |c| - 1);
    hide IsLink, IsEntry;
    CutCalls(slots, slots', c);
  }

  // ----- owners

  lemma OwnTake(n: nat, v: View, m: nat, p: nat)
    requires Owned(n, v.free, v.chains, v.owner) && Distinct(v.free, n) && v.free != []
    requires m < |v.chains| && p <= |v.chains[m]|
    ensures v.free[0] < n && v.free[0] !in v.chains[m]
    ensures forall i, j :: 0 <= i < |v.chains| && 0 <= j < |v.chains[i]| ==> v.chains[i][j] != v.free[0]
    ensures var c, s := v.chains[m], v.free[0];
      Owned(n, v.free[1..], v.chains[m := c[..p] + [s] + c[p..]], v.owner[s := m])
  {
    var c, s := v.chains[m], v.free[0];
    assert v.owner[s] == -1;
    var c', owner := c[..p] + [s] + c[p..], v.owner[s := m];
    var chains := v.chains[m := c'];
    forall k | 0 <= k < |c'| ensures c'[k] < n && owner[c'[k]] == m {
      assert k != p ==> c'[k] == c[if k < p then k else k - 1];
    }
    forall x | 0 <= x < n && owner[x] == -1 ensures x in v.free[1..] {
      assert x in v.free;
    }
    forall x | 0 <= x < n && owner[x] >= 0 ensures x in chains[owner[x]] {
      if x == s {
        assert c'[p] == s;
      } else {
        assert x in v.chains[v.owner[x]];
      }
    }
  }

  /** A slot leaves its chain for the free list. */
  lemma OwnGive(n: nat, v: View, m: nat, c': seq<nat>, x: nat)
    requires Owned(n, v.free, v.chains, v.owner) && m < |v.chains| && x in v.chains[m]
    requires (forall y :: y in c' <==> y in v.chains[m] && y != x)
    ensures x < n && x !in v.free && Owned(n, [x] + v.free, v.chains[m := c'], v.owner[x := -1])
  {
    var owner, chains := v.owner[x := -1], v.chains[m := c'];
    var k :| 0 <= k < |v.chains[m]| && v.chains[m][k] == x;
    forall k | 0 <= k < |c'| ensures c'[k] < n && owner[c'[k]] == m {
      assert c'[k] in v.chains[m];
    }
    forall i, j | 0 <= i < |chains| && 0 <= j < |chains[i]| ensures chains[i][j] < n && owner[chains[i][j]] == i {
      if i != m {
        assert v.owner[v.chains[i][j]] == i;
      }
    }
    forall y | 0 <= y < n && owner[y] == -1 ensures y in [x] + v.free {
    }
    forall y | 0 <= y < n && owner[y] >= 0 ensures y in chains[owner[y]] {
      assert y in v.chains[v.owner[y]];
    }
  }

  /** Slots of different chains, and free ones, are different. */
  lemma OwnApart(n: nat, v: View, m: nat, m': nat)
    requires Owned(n, v.free, v.chains, v.owner) && m < |v.chains| && m' < |v.chains|
    ensures m != m' ==>
      forall i, j :: 0 <= i < |v.chains[m]| && 0 <= j < |v.chains[m']| ==> v.chains[m][i] != v.chains[m'][j]
    ensures forall i, j :: 0 <= i < |v.chains[m]| && 0 <= j < |v.free| ==> v.chains[m][i] != v.free[j]
  {
  }

  // ----- edits of the pool

  /** Chain m and the free list have changed, and nothing else. */
  lemma InvEdit(slots: seq<Slot>, slots': seq<Slot>, base: int, head: int, head': int, vectors: seq<Vector>, v: View,
                m: nat, free': seq<nat>, c': seq<nat>, pending': bool, vector': Vector, owner': seq<int>)
    requires Inv(slots, base, head, vectors, v) && m < |v.chains| && |slots'| == |slots|
    requires Owned(|slots|, free', v.chains[m := c'], owner') && IsFree(slots', free', head')
    requires IsChain(slots', base, c', pending') && IsVector(vector', c')
    requires forall i, j :: 0 <= i < |v.chains| && i != m && 0 <= j < |v.chains[i]| && v.chains[i][j] < |slots| ==>
      slots'[v.chains[i][j]] == slots[v.chains[i][j]]
    ensures Inv(slots', base, head', vectors[m := vector'],
                View(free', v.chains[m := c'], v.pending[m := pending'], owner'))
    ensures forall i :: 0 <= i < |v.chains| && i != m ==> SameCalls(slots, slots', Live(v.chains[i], v.pending[i]))
  {
    hide Owned, IsFree, IsVector, IsChain;
    var v' := View(free', v.chains[m := c'], v.pending[m := pending'], owner');
    forall i | 0 <= i < |v'.chains| ensures IsChain(slots', base, v'.chains[i], v'.pending[i]) {
      if i != m {
        ChainSlots(slots, base, v.chains[i], v.pending[i]);
        SameChain(slots, slots', base, v.chains[i], v.pending[i]);
      }
    }
    forall i | 0 <= i < |v'.chains| ensures IsVector(vectors[m := vector'][i], v'.chains[i]) {
      assert i != m ==> IsVector(vectors[i], v.chains[i]);
    }
    forall i | 0 <= i < |v.chains| && i != m ensures SameCalls(slots, slots', Live(v.chains[i], v.pending[i])) {
      ChainSlots(slots, base, v.chains[i], v.pending[i]);
      SameChain(slots, slots', base, v.chains[i], v.pending[i]);
    }
  }

  lemma PendingNotEmpty(slots: seq<Slot>, base: int, c: seq<nat>, pending: bool)
    requires IsChain(slots, base, c, pending)
    ensures pending ==> c != []
  {
  }

  lemma ChainSlots(slots: seq<Slot>, base: int, c: seq<nat>, pending: bool)
    requires IsChain(slots, base, c, pending)
    ensures Distinct(c, |slots|)
  {
  }

  ghost predicate SameCalls(slots: seq<Slot>, slots': seq<Slot>, live: seq<nat>) {
    && (forall i :: 0 <= i < |live| ==> live[i] < |slots| && live[i] < |slots'|)
    && Calls(slots', live) == Calls(slots, live)
  }

  lemma InvParts(slots: seq<Slot>, base: int, head: int, vectors: seq<Vector>, v: View, m: nat)
    requires Inv(slots, base, head, vectors, v) && m < |v.chains|
    ensures 0 < |slots| < 0x7f && |vectors| == |v.chains| == |v.pending|
    ensures Owned(|slots|, v.free, v.chains, v.owner) && IsFree(slots, v.free, head) && Distinct(v.free, |slots|)
    ensures |v.owner| == |slots|
    ensures IsChain(slots, base, v.chains[m], v.pending[m]) && Distinct(v.chains[m], |slots|)
    ensures IsVector(vectors[m], v.chains[m]) && head == FirstOf(v.free)
  {
    hide Owned, IsLink, IsTail;
    OwnerSize(|slots|, v);
  }

  lemma OwnerSize(n: nat, v: View)
    ensures Owned(n, v.free, v.chains, v.owner) ==> |v.owner| == n
  {
  }

  /** The state after irq_add_shared_handler. */
  ghost predicate Added(slots: seq<Slot>, slots': seq<Slot>, base: int, c: seq<nat>, p: nat, s: nat, x: Call) {
    && s < |slots| == |slots'| && p <= |c| && (forall i :: 0 <= i < |c| ==> c[i] < |slots|)
    && slots'[s] == NewSlot(base, |slots|, c, p, s, x)
    && (forall i :: 0 <= i < |c| ==> slots'[c[i]] == Relinked(slots, base, c, p, s, i))
    && (forall i :: 0 <= i < |slots| && i != s && i !in c ==> slots'[i] == slots[i])
  }

  lemma InvAdd(slots: seq<Slot>, slots': seq<Slot>, base: int, head: int, vectors: seq<Vector>, v: View, m: nat,
               p: nat, x: Call)
    requires Inv(slots, base, head, vectors, v) && m < |v.chains| == |v.pending| && v.free != []
    requires v.free[0] < |v.owner| && p <= |v.chains[m]| && v.free[0] < |slots|
    requires Added(slots, slots', base, v.chains[m], p, v.free[0], x)
    requires IsPlace(slots, v.chains[m], LiveCount(v.chains[m], v.pending[m]), p, x.priority)
    ensures var c := v.chains[m][..p] + [v.free[0]] + v.chains[m][p..];
      Inv(slots', base, slots[v.free[0]].link, vectors[m := Chain(c[0])], ViewAdd(v, m, p))
    ensures forall i :: 0 <= i < |v.chains| && i != m ==> SameCalls(slots, slots', Live(v.chains[i], v.pending[i]))
  {
    hide Owned, IsFree, IsChain, Inv, Distinct, Calls, NewSlot, Relinked, IsPlace, Live;
    InvParts(slots, base, head, vectors, v, m);
    var c, s := v.chains[m], v.free[0];
    var c' := c[..p] + [s] + c[p..];
    OwnTake(|slots|, v, m, p);
    OwnFree(|slots|, v, m);
    Taken(slots, slots', v.free, head);
    InsertChain(slots, slots', base, c, v.pending[m], p, s, x);
    OtherChains(slots, slots', v, m, s);
    InvEdit(slots, slots', base, head, slots[s].link, vectors, v, m, v.free[1..], c', v.pending[m], Chain(c'[0]),
            v.owner[s := m]);
    assert v.pending[m := v.pending[m]] == v.pending;
  }

  /** The ghost view after the first free slot went to place p of chain m. */
  ghost function ViewAdd(v: View, m: nat, p: nat): View
    requires m < |v.chains| == |v.pending| && p <= |v.chains[m]| && v.free != [] && v.free[0] < |v.owner|
  {
    var c := v.chains[m][..p] + [v.free[0]] + v.chains[m][p..];
    View(v.free[1..], v.chains[m := c], v.pending, v.owner[v.free[0] := m])
  }

  lemma ViewAddSizes(v: View, m: nat, p: nat)
    requires m < |v.chains| == |v.pending| && p <= |v.chains[m]| && v.free != [] && v.free[0] < |v.owner|
    ensures |ViewAdd(v, m, p).chains| == |v.chains| && ViewAdd(v, m, p).pending == v.pending
  {
  }

  /** The place of a handler among the first n: behind all of a higher priority. */
  ghost predicate IsPlace(slots: seq<Slot>, c: seq<nat>, n: nat, p: nat, priority: int) {
    && p <= n <= |c| && (forall i :: 0 <= i < |c| ==> c[i] < |slots|)
    && (forall i :: 0 <= i < p ==> slots[c[i]].priority > priority)
    && (p < n ==> slots[c[p]].priority <= priority)
  }

  lemma OwnFree(n: nat, v: View, m: nat)
    requires Owned(n, v.free, v.chains, v.owner) && Distinct(v.free, n) && v.free != [] && m < |v.chains|
    ensures forall i :: 1 <= i < |v.free| ==> v.free[i] != v.free[0] && v.free[i] !in v.chains[m] && v.free[i] < n
  {
  }

  lemma OtherChains(slots: seq<Slot>, slots': seq<Slot>, v: View, m: nat, s: nat)
    requires Owned(|slots|, v.free, v.chains, v.owner) && m < |v.chains| && |slots'| == |slots| && s in v.free
    requires forall i :: 0 <= i < |slots| && i != s && i !in v.chains[m] ==> slots'[i] == slots[i]
    ensures forall i, j :: 0 <= i < |v.chains| && i != m && 0 <= j < |v.chains[i]| && v.chains[i][j] < |slots| ==>
      slots'[v.chains[i][j]] == slots[v.chains[i][j]]
  {
    forall i, j | 0 <= i < |v.chains| && i != m && 0 <= j < |v.chains[i]|
      ensures v.chains[i][j] < |slots| && slots'[v.chains[i][j]] == slots[v.chains[i][j]]
    {
      var x := v.chains[i][j];
      assert v.owner[x] == i;
    }
  }

  /** The ghost view after the slot behind k was copied over slot k of chain m, and freed. */
  ghost function ViewCopy(v: View, m: nat, k: nat): View
    requires m < |v.chains| && k + 1 < |v.chains[m]| && v.chains[m][k + 1] < |v.owner|
  {
    var c := v.chains[m];
    View([c[k + 1]] + v.free, v.chains[m := c[..k + 1] + c[k + 2..]], v.pending, v.owner[c[k + 1] := -1])
  }

  lemma InvCopy(slots: seq<Slot>, slots': seq<Slot>, base: int, head: int, vectors: seq<Vector>, v: View, m: nat,
                k: nat)
    requires Inv(slots, base, head, vectors, v) && m < |v.chains| && !v.pending[m] && k + 1 < |v.chains[m]|
    requires forall i :: 0 <= i < |v.chains[m]| ==> v.chains[m][i] < |slots|
    requires |slots'| == |slots| && slots'[v.chains[m][k]] == Copied(slots, base, v.chains[m], k)
    requires slots'[v.chains[m][k + 1]].link == head
    requires forall i :: 0 <= i < |slots| && i != v.chains[m][k] && i != v.chains[m][k + 1] ==> slots'[i] == slots[i]
    ensures m < |v.chains| && v.chains[m][k + 1] < |v.owner|
    ensures Inv(slots', base, v.chains[m][k + 1], vectors, ViewCopy(v, m, k)) && m < |ViewCopy(v, m, k).chains|
    ensures forall i :: 0 <= i < |v.chains| && i != m ==> SameCalls(slots, slots', Live(v.chains[i], v.pending[i]))
    ensures Distinct(v.chains[m], |slots|) && Distinct(ViewCopy(v, m, k).chains[m], |slots'|)
    ensures var calls := Calls(slots, v.chains[m]);
      Calls(slots', ViewCopy(v, m, k).chains[m]) == calls[..k] + calls[k + 1..]
  {
    hide IsFree, IsChain, Inv, Calls, IsLink, IsTail;
    InvParts(slots, base, head, vectors, v, m);
    var c := v.chains[m];
    var c' := c[..k + 1] + c[k + 2..];
    var x := c[k + 1];
    DistinctRemove(c, |slots|, k + 1);
    OneOut(c, |slots|, k + 1);
    OwnGive(|slots|, v, m, c', x);
    OwnApart(|slots|, v, m, m);
    Given(slots, slots', v.free, head, x);
    DistinctAt(c, |slots|, k);
    CopyChain(slots, slots', base, c, k);
    ChangedIn(slots, slots', v, m, c[k], x);
    InvEdit(slots, slots', base, head, x, vectors, v, m, [x] + v.free, c', false, vectors[m], v.owner[x := -1]);
    assert vectors[m := vectors[m]] == vectors && v.pending[m := false] == v.pending;
  }

  /** What the changes of irq_remove_handler mean when another handler follows the removed one. */
  lemma CopiedView(slots: seq<Slot>, slots': seq<Slot>, base: int, head: int, vectors: seq<Vector>, v: View, m: nat,
                   k: nat)
    requires Inv(slots, base, head, vectors, v) && m < |v.chains| == |v.pending| && !v.pending[m]
    requires k + 1 < |v.chains[m]|
    requires forall i :: 0 <= i < |v.chains[m]| ==> v.chains[m][i] < |slots|
    requires |slots'| == |slots| && slots'[v.chains[m][k]] == Copied(slots, base, v.chains[m], k)
    requires slots'[v.chains[m][k + 1]].link == head
    requires forall i :: 0 <= i < |slots| && i != v.chains[m][k] && i != v.chains[m][k + 1] ==> slots'[i] == slots[i]
    ensures v.chains[m][k + 1] < |v.owner| && Inv(slots', base, v.chains[m][k + 1], vectors, ViewCopy(v, m, k))
    ensures Elsewhere(v, ViewCopy(v, m, k), m) && !ViewCopy(v, m, k).pending[m]
    ensures forall i :: 0 <= i < |v.chains| && i != m ==> SameCalls(slots, slots', Live(v.chains[i], v.pending[i]))
    ensures Distinct(v.chains[m], |slots|) && Distinct(ViewCopy(v, m, k).chains[m], |slots'|)
    ensures var calls := Calls(slots, v.chains[m]);
      Calls(slots', ViewCopy(v, m, k).chains[m]) == calls[..k] + calls[k + 1..]
  {
    hide *;
    InvParts(slots, base, head, vectors, v, m);
    InvCopy(slots, slots', base, head, vectors, v, m, k);
    ViewCopyParts(v, m, k);
  }

  lemma ViewCopyParts(v: View, m: nat, k: nat)
    requires m < |v.chains| == |v.pending| && !v.pending[m] && k + 1 < |v.chains[m]| && v.chains[m][k + 1] < |v.owner|
    ensures Elsewhere(v, ViewCopy(v, m, k), m) && !ViewCopy(v, m, k).pending[m]
    ensures |ViewCopy(v, m, k).chains| == |v.chains|
  {
  }

  lemma DistinctAt(c: seq<nat>, n: nat, k: nat)
    requires Distinct(c, n) && k < |c|
    ensures forall i :: 0 <= i < |c| && i != k ==> c[i] != c[k]
  {
  }

  lemma OneOut(c: seq<nat>, n: nat, p: nat)
    requires Distinct(c, n) && p < |c|
    ensures forall y :: y in c[..p] + c[p + 1..] <==> y in c && y != c[p]
  {
    var c' := c[..p] + c[p + 1..];
    forall y | y in c && y != c[p] ensures y in c' {
      var i :| 0 <= i < |c| && c[i] == y;
      assert c'[if i < p then i else i - 1] == y;
    }
  }

  lemma ChangedIn(slots: seq<Slot>, slots': seq<Slot>, v: View, m: nat, a: nat, b: nat)
    requires Owned(|slots|, v.free, v.chains, v.owner) && m < |v.chains| && |slots'| == |slots|
    requires a in v.chains[m] && b in v.chains[m]
    requires forall i :: 0 <= i < |slots| && i != a && i != b ==> slots'[i] == slots[i]
    ensures forall i, j :: 0 <= i < |v.chains| && i != m && 0 <= j < |v.chains[i]| && v.chains[i][j] < |slots| ==>
      slots'[v.chains[i][j]] == slots[v.chains[i][j]]
  {
    forall i, j | 0 <= i < |v.chains| && i != m && 0 <= j < |v.chains[i]|
      ensures v.chains[i][j] < |slots| && slots'[v.chains[i][j]] == slots[v.chains[i][j]]
    {
      assert v.owner[v.chains[i][j]] == i && v.owner[a] == m && v.owner[b] == m;
    }
  }

  /** The last slot of a chain is unlinked and freed. */
  ghost predicate Unlinked(slots: seq<Slot>, slots': seq<Slot>, head: int, c: seq<nat>) {
    && c != [] && (forall i :: 0 <= i < |c| ==> c[i] < |slots|) && |slots'| == |slots|
    && slots'[c[|c| - 1]].link == head
    && (|c| > 1 ==> slots'[c[|c| - 2]] == slots[c[|c| - 2]].(link := -1, inst3 := POP_PC))
    && forall i :: 0 <= i < |slots| && i != c[|c| - 1] && (|c| > 1 ==> i != c[|c| - 2]) ==> slots'[i] == slots[i]
  }

  /** The ghost view after the last slot of chain m was freed. */
  ghost function ViewCut(v: View, m: nat): View
    requires m < |v.chains| == |v.pending| && v.chains[m] != [] && v.chains[m][|v.chains[m]| - 1] < |v.owner|
  {
    var n := |v.chains[m]| - 1;
    var t := v.chains[m][n];
    View([t] + v.free, v.chains[m := v.chains[m][..n]], v.pending[m := false], v.owner[t := -1])
  }

  lemma InvCut(slots: seq<Slot>, slots': seq<Slot>, base: int, head: int, vectors: seq<Vector>, vectors': seq<Vector>,
               v: View, m: nat)
    requires Inv(slots, base, head, vectors, v) && m < |v.chains| == |vectors| && v.chains[m] != []
    requires Unlinked(slots, slots', head, v.chains[m])
    requires vectors' == vectors[m := if |v.chains[m]| == 1 then Unhandled else vectors[m]]
    ensures |v.chains| == |v.pending| && v.chains[m][|v.chains[m]| - 1] < |v.owner|
    ensures Inv(slots', base, v.chains[m][|v.chains[m]| - 1], vectors', ViewCut(v, m))
    ensures Elsewhere(v, ViewCut(v, m), m) && ViewCut(v, m).chains[m] == v.chains[m][..|v.chains[m]| - 1]
    ensures !ViewCut(v, m).pending[m]
    ensures forall i :: 0 <= i < |v.chains| && i != m ==> SameCalls(slots, slots', Live(v.chains[i], v.pending[i]))
    ensures Distinct(v.chains[m], |slots|) && Distinct(v.chains[m][..|v.chains[m]| - 1], |slots'|)
    ensures Calls(slots', v.chains[m][..|v.chains[m]| - 1]) == Calls(slots, v.chains[m])[..|v.chains[m]| - 1]
  {
    hide *;
    InvParts(slots, base, head, vectors, v, m);
    CutSlots(slots, slots', base, head, vectors, v, m, v.chains[m], |v.chains[m]| - 1);
    ViewCutParts(v, m);
  }

  lemma ViewCutParts(v: View, m: nat)
    requires m < |v.chains| == |v.pending| && v.chains[m] != [] && v.chains[m][|v.chains[m]| - 1] < |v.owner|
    ensures Elsewhere(v, ViewCut(v, m), m) && ViewCut(v, m).chains[m] == v.chains[m][..|v.chains[m]| - 1]
    ensures !ViewCut(v, m).pending[m]
  {
  }

  lemma CutSlots(slots: seq<Slot>, slots': seq<Slot>, base: int, head: int, vectors: seq<Vector>, v: View, m: nat,
                 c: seq<nat>, n: nat)
    requires Inv(slots, base, head, vectors, v) && m < |v.chains| == |vectors| && c == v.chains[m] && |c| == n + 1
    requires Unlinked(slots, slots', head, c)
    ensures c[n] < |v.owner| && |v.pending| == |v.chains|
    ensures Inv(slots', base, c[n], vectors[m := if |c| == 1 then Unhandled else vectors[m]], ViewCut(v, m))
    ensures forall i :: 0 <= i < |v.chains| && i != m ==> SameCalls(slots, slots', Live(v.chains[i], v.pending[i]))
    ensures Distinct(c, |slots|) && Distinct(c[..n], |slots'|) && Calls(slots', c[..n]) == Calls(slots, c)[..n]
  {
    InvParts(slots, base, head, vectors, v, m);
    var t, c' := c[n], c[..n];
    assert c' + c[n + 1..] == c';
    DistinctRemove(c, |slots|, n);
    OneOut(c, |slots|, n);
    OwnGive(|slots|, v, m, c', t);
    CutFrames(slots, slots', base, head, v, m);
    CutChain(slots, slots', base, c, v.pending[m]);
    var vector' := if |c| == 1 then Unhandled else vectors[m];
    assert IsVector(vector', c');
    hide Owned, IsFree, IsChain, Inv, Distinct, Calls, IsVector, Unlinked;
    InvEdit(slots, slots', base, head, t, vectors, v, m, [t] + v.free, c', false, vector', v.owner[t := -1]);
  }

  /** What stays as it was, and what CutChain needs, when the last slot of chain m is unlinked. */
  lemma CutFrames(slots: seq<Slot>, slots': seq<Slot>, base: int, head: int, v: View, m: nat)
    requires Owned(|slots|, v.free, v.chains, v.owner) && IsFree(slots, v.free, head) && m < |v.chains|
    requires v.chains[m] != []
    requires Distinct(v.chains[m], |slots|) && Unlinked(slots, slots', head, v.chains[m])
    ensures IsFree(slots', [v.chains[m][|v.chains[m]| - 1]] + v.free, v.chains[m][|v.chains[m]| - 1])
    ensures forall i :: 0 <= i < |v.chains[m]| - 2 ==> slots'[v.chains[m][i]] == slots[v.chains[m][i]]
    ensures forall i, j :: 0 <= i < |v.chains| && i != m && 0 <= j < |v.chains[i]| && v.chains[i][j] < |slots| ==>
      slots'[v.chains[i][j]] == slots[v.chains[i][j]]
  {
    var c := v.chains[m];
    var n := |c| - 1;
    var t := c[n];
    OwnApart(|slots|, v, m, m);
    DistinctAt(c, |slots|, n);
    if n > 0 {
      DistinctAt(c, |slots|, n - 1);
    }
    Given(slots, slots', v.free, head, t);
    ChangedIn(slots, slots', v, m, t, if n > 0 then c[n - 1] else t);
    hide Owned, IsFree;
  }

  /** The ghost view after the tail of chain m was marked as removed. */
  ghost function ViewMark(v: View, m: nat): View
    requires m < |v.pending|
  {
    v.(pending := v.pending[m := true])
  }

  lemma AllLive(v: View, m: nat)
    requires m < |v.chains| == |v.pending| && !v.pending[m]
    ensures Live(v.chains[m], v.pending[m]) == v.chains[m] && Elsewhere(v, v, m)
  {
  }

  lemma ViewMarkParts(v: View, m: nat)
    requires m < |v.chains| == |v.pending| && v.chains[m] != []
    ensures Elsewhere(v, ViewMark(v, m), m) && ViewMark(v, m).pending[m] && ViewMark(v, m).chains == v.chains
    ensures |ViewMark(v, m).pending| == |v.pending| && Live(v.chains[m], true) == v.chains[m][..|v.chains[m]| - 1]
    ensures forall i :: 0 <= i < |v.pending| && i != m ==> ViewMark(v, m).pending[i] == v.pending[i]
    ensures !v.pending[m] ==> Live(v.chains[m], v.pending[m]) == v.chains[m]
  {
  }

  lemma InvMark(slots: seq<Slot>, slots': seq<Slot>, base: int, head: int, vectors: seq<Vector>, v: View, m: nat)
    requires Inv(slots, base, head, vectors, v) && m < |v.chains| && v.chains[m] != [] && !v.pending[m]
    requires forall i :: 0 <= i < |v.chains[m]| ==> v.chains[m][i] < |slots|
    requires |slots'| == |slots| && IsTail(slots', base, v.chains[m][|v.chains[m]| - 1])
    requires SameEntry(slots[v.chains[m][|v.chains[m]| - 1]], slots'[v.chains[m][|v.chains[m]| - 1]])
    requires forall i :: 0 <= i < |slots| && i != v.chains[m][|v.chains[m]| - 1] ==> slots'[i] == slots[i]
    ensures |v.pending| == |v.chains| && Inv(slots', base, head, vectors, ViewMark(v, m))
    ensures forall i :: 0 <= i < |v.chains| && i != m ==> SameCalls(slots, slots', Live(v.chains[i], v.pending[i]))
    ensures Distinct(v.chains[m], |slots|) && Distinct(v.chains[m][..|v.chains[m]| - 1], |slots'|)
    ensures Calls(slots', v.chains[m][..|v.chains[m]| - 1]) == Calls(slots, v.chains[m])[..|v.chains[m]| - 1]
  {
    InvParts(slots, base, head, vectors, v, m);
    var c := v.chains[m];
    var n := |c| - 1;
    var t := c[n];
    assert c[..n] + c[n + 1..] == c[..n];
    DistinctRemove(c, |slots|, n);
    DistinctAt(c, |slots|, n);
    OwnApart(|slots|, v, m, m);
    MarkChain(slots, slots', base, c);
    ChangedIn(slots, slots', v, m, t, t);
    SameFree(slots, slots', v.free, head);
    assert v.chains[m := c] == v.chains && vectors[m := vectors[m]] == vectors;
    hide Owned, IsFree, IsChain, Inv, Distinct, Calls, IsVector, IsTail;
    InvEdit(slots, slots', base, head, head, vectors, v, m, v.free, c, true, vectors[m], v.owner);
  }

  lemma SameFree(slots: seq<Slot>, slots': seq<Slot>, free: seq<nat>, head: int)
    requires IsFree(slots, free, head) && |slots'| == |slots|
    requires forall i :: 0 <= i < |free| ==> slots'[free[i]].link == slots[free[i]].link
    ensures IsFree(slots', free, head)
  {
  }

  // ----- the walk of irq_add_shared_handler

  /** Where the walk is after some rounds: it has ended behind a slot (or -1), it has followed a link out of the pool,
      or it is at a slot, behind another one. */
  datatype Walk = Ended(prev: int) | Outside(prev: int) | Going(prev: int, cur: nat)

  /** The loop of irq_add_shared_handler at slot cur, behind prev, for up to so many links. */
  function WalkOn(slots: seq<Slot>, prev: int, cur: nat, priority: int, links: nat): Walk
    requires cur < |slots|
    decreases links
  {
    if slots[cur].priority <= priority then Ended(prev)
    else if slots[cur].link < 0 then Ended(cur)
    else if slots[cur].link >= |slots| then Outside(cur)
    else if links == 0 then Going(prev, cur)
    else WalkOn(slots, cur, slots[cur].link, priority, links - 1)
  }

  /** The walk from the head of a chain ends behind prev. */
  ghost predicate EndsAt(slots: seq<Slot>, start: nat, priority: int, prev: int)
    requires start < |slots|
  {
    exists links: nat :: WalkOn(slots, -1, start, priority, links) == Ended(prev)
  }

  /** The walk goes on and on, and never ends. */
  ghost predicate NeverEnds(slots: seq<Slot>, start: nat, priority: int)
    requires start < |slots|
  {
    forall links: nat :: WalkOn(slots, -1, start, priority, links).Going?
  }

  /** The walk ends somewhere in the pool, if there is a chain. */
  ghost predicate WalkEnds(slots: seq<Slot>, v: Vector, priority: int) {
    v.Chain? ==> v.slot < |slots| && exists prev :: EndsAt(slots, v.slot, priority, prev)
  }

  /** A walk that is over does not depend on how many links it may follow. */
  lemma {:induction false} WalkLonger(slots: seq<Slot>, prev: int, cur: nat, priority: int, links: nat, more: nat)
    requires cur < |slots| && !WalkOn(slots, prev, cur, priority, links).Going? && more >= links
    ensures WalkOn(slots, prev, cur, priority, more) == WalkOn(slots, prev, cur, priority, links)
    decreases links
  {
    if slots[cur].priority > priority && 0 <= slots[cur].link < |slots| && links > 0 {
      WalkLonger(slots, cur, slots[cur].link, priority, links - 1, more - 1);
    }
  }

  lemma EndsOnce(slots: seq<Slot>, start: nat, priority: int, a: int, b: int)
    requires start < |slots| && EndsAt(slots, start, priority, a) && EndsAt(slots, start, priority, b)
    ensures a == b
  {
    var i: nat :| WalkOn(slots, -1, start, priority, i) == Ended(a);
    var j: nat :| WalkOn(slots, -1, start, priority, j) == Ended(b);
    WalkLonger(slots, -1, start, priority, i, i + j);
    WalkLonger(slots, -1, start, priority, j, i + j);
  }

  /** Where a walk ends: behind its beginning, at a negative link, or at a link to a slot of a priority not above. */
  lemma {:induction false} WhereEnded(slots: seq<Slot>, prev: int, cur: nat, priority: int, links: nat, e: int)
    requires cur < |slots| && WalkOn(slots, prev, cur, priority, links) == Ended(e)
    ensures (e == prev && slots[cur].priority <= priority)
      || (0 <= e < |slots|
          && (slots[e].link < 0 || (slots[e].link < |slots| && slots[slots[e].link].priority <= priority)))
    decreases links
  {
    if slots[cur].priority > priority && slots[cur].link >= 0 {
      WhereEnded(slots, cur, slots[cur].link, priority, links - 1, e);
    }
  }

  /** The slot before place p of a chain. */
  function Before(c: seq<nat>, p: nat): int
    requires p <= |c|
  {
    if p == 0 then -1 else c[p - 1]
  }

  /** The walk comes along the chain, as long as priorities are above. */
  lemma {:induction false} WalksAlong(slots: seq<Slot>, base: int, c: seq<nat>, n: nat, priority: int, k: nat,
                                      links: nat)
    requires Distinct(c, |slots|) && n <= |c| && k <= n && k < |c|
    requires forall i :: 0 <= i < n ==> IsLink(slots, base, c, i)
    requires forall i :: 0 <= i < k ==> slots[c[i]].priority > priority
    ensures WalkOn(slots, -1, c[0], priority, k + links) == WalkOn(slots, Before(c, k), c[k], priority, links)
    decreases k
  {
    if k > 0 {
      assert IsLink(slots, base, c, k - 1);
      hide IsLink;
      WalksAlong(slots, base, c, n, priority, k - 1, links + 1);
    }
  }

  /** A slot of the chain, the removed tail included, has a priority that is not above the new one; or there is no
      removed tail that still executes, so that the last link is -1. */
  predicate Stops(slots: seq<Slot>, c: seq<nat>, pending: bool, priority: int) {
    pending ==> exists k :: 0 <= k < |c| && c[k] < |slots| && slots[c[k]].priority <= priority
  }

  /** The first slot from k on with a priority that is not above, or the end of the chain. */
  function FirstPlace(slots: seq<Slot>, c: seq<nat>, priority: int, k: nat): (p: nat)
    requires k <= |c| && forall i :: 0 <= i < |c| ==> c[i] < |slots|
    ensures k <= p <= |c| && (p < |c| ==> slots[c[p]].priority <= priority)
    ensures forall i :: k <= i < p ==> slots[c[i]].priority > priority
    decreases |c| - k
  {
    if k == |c| || slots[c[k]].priority <= priority then k else FirstPlace(slots, c, priority, k + 1)
  }

  /** If it stops, the walk ends where the new handler belongs. */
  lemma StopsInPlace(slots: seq<Slot>, base: int, c: seq<nat>, pending: bool, priority: int) returns (p: nat)
    requires IsChain(slots, base, c, pending) && c != [] && Stops(slots, c, pending, priority)
    ensures IsPlace(slots, c, LiveCount(c, pending), p, priority) && EndsAt(slots, c[0], priority, Before(c, p))
  {
    p := FirstPlace(slots, c, priority, 0);
    var n := LiveCount(c, pending);
    if p < |c| {
      WalksAlong(slots, base, c, n, priority, p, 0);
      assert WalkOn(slots, -1, c[0], priority, p + 0) == Ended(Before(c, p));
    } else {
      WalksAlong(slots, base, c, n, priority, p - 1, 0);
      assert IsLink(slots, base, c, p - 1);
      assert WalkOn(slots, -1, c[0], priority, p - 1 + 0) == Ended(Before(c, p));
    }
  }

  /** If it does not stop, it does not end where the new handler belongs, nor before the chain. */
  lemma PassesPlace(slots: seq<Slot>, base: int, c: seq<nat>, pending: bool, priority: int, p: nat, e: int)
    requires IsChain(slots, base, c, pending) && c != [] && !Stops(slots, c, pending, priority)
    requires IsPlace(slots, c, LiveCount(c, pending), p, priority) && EndsAt(slots, c[0], priority, e)
    ensures p == |c| - 1 && e != Before(c, p) && 0 <= e < |slots|
  {
    var links: nat :| WalkOn(slots, -1, c[0], priority, links) == Ended(e);
    WhereEnded(slots, -1, c[0], priority, links, e);
    var n := |c| - 1;
    assert slots[c[0]].priority > priority && slots[c[n]].priority > priority;
    if n > 0 {
      assert IsLink(slots, base, c, n - 1);
    }
  }

  /** The walk ends where the new handler belongs, if and only if some slot of the chain stops it. */
  lemma WalkIsRight(slots: seq<Slot>, base: int, c: seq<nat>, pending: bool, priority: int)
    requires IsChain(slots, base, c, pending) && c != []
    ensures c[0] < |slots|
    ensures Stops(slots, c, pending, priority) <==>
      exists p :: 0 <= p <= |c| && IsPlace(slots, c, LiveCount(c, pending), p, priority)
        && EndsAt(slots, c[0], priority, Before(c, p))
  {
    hide IsChain, Stops, IsPlace, EndsAt;
    ChainSlots(slots, base, c, pending);
    if Stops(slots, c, pending, priority) {
      var p := StopsInPlace(slots, base, c, pending, priority);
      PlaceBounds(slots, c, LiveCount(c, pending), p, priority);
    } else {
      forall p | 0 <= p <= |c| && IsPlace(slots, c, LiveCount(c, pending), p, priority)
        ensures !EndsAt(slots, c[0], priority, Before(c, p))
      {
        if EndsAt(slots, c[0], priority, Before(c, p)) {
          PassesPlace(slots, base, c, pending, priority, p, Before(c, p));
        }
      }
    }
  }

  /** Otherwise the walk takes half of the instruction at the end of the removed tail for a link. If that is negative,
      it ends behind the tail, the bl of which will be overwritten; if not, it leaves the pool, or goes on with any
      slot. */
  lemma PassesTail(slots: seq<Slot>, base: int, c: seq<nat>, priority: int, links: nat)
    requires IsChain(slots, base, c, true) && !Stops(slots, c, true, priority)
    ensures c != [] && (forall i :: 0 <= i < |c| ==> c[i] < |slots|)
    ensures var n, t := |c| - 1, c[|c| - 1];
      var link := TailLink(base, |slots|, t);
      WalkOn(slots, -1, c[0], priority, n + links)
        == if link < 0 then Ended(t)
           else if link >= |slots| then Outside(t)
           else if links == 0 then Going(Before(c, n), t)
           else WalkOn(slots, t, link, priority, links - 1)
  {
    hide TailLink, TailPriority, TailOffset, IsLink;
    var n := |c| - 1;
    WalksAlong(slots, base, c, n, priority, n, links);
    assert slots[c[n]].priority > priority;
  }

  /** Which it is, by the distance of the tail from the end of the pool. */
  lemma TailLinkIs(base: int, n: nat, t: nat)
    requires t < n < 0x7f
    ensures TailLink(base, n, t) == SignedByte((6 * (n - t) + 1) % 0x100)
    ensures TailLink(base, n, t) < 0 <==>
      22 <= n - t <= 42 || 64 <= n - t <= 85 || 107 <= n - t
    ensures n <= 7 ==> TailLink(base, n, t) >= n
  {
    hide TailOffset;
    BranchesReach(base, n, t, 0);
    LowByte(TailOffset(base, n, t));
    LinkSigns(n - t);
  }

  lemma LowByte(offset: int)
    requires 0 <= offset < 0x800
    ensures (0xf800 + offset % 0x800) % 0x100 == offset % 0x100
  {
  }

  /** For the distances that a pool allows. */
  lemma LinkSigns(d: nat)
    requires 0 < d < 0x7f
    ensures SignedByte((6 * d + 1) % 0x100) < 0 <==> 22 <= d <= 42 || 64 <= d <= 85 || 107 <= d
    ensures d <= 7 ==> SignedByte((6 * d + 1) % 0x100) == 6 * d + 1
  {
    var v := 6 * d + 1;
    assert v % 0x100 == if v < 0x100 then v else if v < 0x200 then v - 0x100 else v - 0x200;
  }

  /** The walk ends behind the removed tail: the last but 25th slot of a pool of 30, say. */
  lemma EndsBehindTail(slots: seq<Slot>, base: int, c: seq<nat>, priority: int)
    requires IsChain(slots, base, c, true) && !Stops(slots, c, true, priority) && |slots| < 0x7f
    requires 22 <= |slots| - c[|c| - 1] <= 42
    ensures EndsAt(slots, c[0], priority, c[|c| - 1])
  {
    PassesTail(slots, base, c, priority, 0);
    TailLinkIs(base, |slots|, c[|c| - 1]);
    assert WalkOn(slots, -1, c[0], priority, |c| - 1 + 0) == Ended(c[|c| - 1]);
  }

  /** What happens when it ends there: the call of the code that would unlink the tail is overwritten by a branch to the
      new slot, and the tail, with its handler, stays in the chain. */
  lemma TailRevived(slots: seq<Slot>, base: int, t: nat, s: nat, x: Call)
    requires t < |slots| < 0x7f && s < |slots| && s != t && IsTail(slots, base, t)
    ensures var slots' := LinkedBehind(slots, base, t, s, x);
      && slots'[t].handler == slots[t].handler && slots'[t].link == s && !IsTail(slots', base, t)
      && IsBranch(slots'[t].inst3) && ResolveBranch(slots'[t].inst3, Inst3(base, t)) == Address(base, s)
  {
    hide TailOffset, TailLink, TailPriority, Address, ResolveBranch;
    BranchesReach(base, |slots|, t, s);
    ResolveMade(Inst3(base, t), Address(base, s));
  }

  /** The walk leaves the pool: always in a pool of up to seven slots (irq.h has four by default). */
  lemma LeavesPool(slots: seq<Slot>, base: int, c: seq<nat>, priority: int)
    requires IsChain(slots, base, c, true) && !Stops(slots, c, true, priority) && |slots| <= 7
    ensures c != [] && c[0] < |slots| && WalkOn(slots, -1, c[0], priority, |c| - 1) == Outside(c[|c| - 1])
  {
    PassesTail(slots, base, c, priority, 0);
    TailLinkIs(base, |slots|, c[|c| - 1]);
  }

  /** The walk never ends: slot 13 of a pool of 15, removed while it executes, reads as a link to itself. */
  lemma GoesRound(slots: seq<Slot>, base: int, c: seq<nat>, priority: int)
    requires IsChain(slots, base, c, true) && !Stops(slots, c, true, priority) && |slots| == 15 && c[|c| - 1] == 13
    ensures NeverEnds(slots, c[0], priority)
  {
    hide TailOffset, TailPriority, FirstBranch, NextBranch;
    var n := |c| - 1;
    TailLinkIs(base, 15, 13);
    forall links: nat ensures WalkOn(slots, -1, c[0], priority, links).Going? {
      if links >= n {
        PassesTail(slots, base, c, priority, links - n);
        if links > n {
          Circles(slots, priority, 13, links - n - 1);
        }
      } else {
        WalksAlong(slots, base, c, n, priority, links, 0);
        assert IsLink(slots, base, c, links);
      }
    }
  }

  lemma {:induction false} Circles(slots: seq<Slot>, priority: int, prev: int, links: nat)
    requires 13 < |slots| && slots[13].priority > priority && slots[13].link == 13
    ensures WalkOn(slots, prev, 13, priority, links).Going?
    decreases links
  {
    if links > 0 {
      Circles(slots, priority, 13, links - 1);
    }
  }

  /** A handler that was alone on its interrupt and removed itself stops the walk, which then ends in front of it, only
      for a priority of 0xf8 or more. */
  lemma AloneStops(slots: seq<Slot>, base: int, t: nat, priority: int)
    requires IsChain(slots, base, [t], true) && |slots| < 0x7f
    ensures t < |slots| && slots[t].priority >= 0xf8
    ensures Stops(slots, [t], true, priority) <==> slots[t].priority <= priority
    ensures EndsAt(slots, t, priority, -1) <==> slots[t].priority <= priority
  {
    hide TailOffset, TailLink, TailPriority;
    assert [t][0] == t;
    TailCalls(slots, base, t);
    if slots[t].priority <= priority {
      assert slots[[t][0]].priority <= priority;
      assert WalkOn(slots, -1, t, priority, 0) == Ended(-1);
    }
    if EndsAt(slots, t, priority, -1) {
      var links: nat :| WalkOn(slots, -1, t, priority, links) == Ended(-1);
      WhereEnded(slots, -1, t, priority, links, -1);
    }
  }

  // ----- what an addition comes to

  /** The slots after irq_add_shared_handler put slot s behind prev. */
  function LinkedBehind(slots: seq<Slot>, base: int, prev: nat, s: nat, x: Call): seq<Slot>
    requires prev < |slots| && s < |slots|
  {
    var inst3 := if slots[prev].link >= 0
                 then MakeBranch(Inst3(base, s), ResolveBranch(slots[prev].inst3, Inst3(base, prev)))
                 else POP_PC;
    slots[prev := slots[prev].(inst3 := NextBranch(base, prev, s), link := s)]
         [s := Slot(LDR_R0, BLX_R0, inst3, slots[prev].link, x.priority, x.handler)]
  }

  /** The new slot did not get behind the last slot of the chain that is called, if there is one. */
  ghost predicate Misplaced(slots: seq<Slot>, slots': seq<Slot>, c: seq<nat>, s: nat) {
    |c| > 1 ==> c[|c| - 2] < |slots| == |slots'| && c[|c| - 2] != s && slots'[c[|c| - 2]] == slots[c[|c| - 2]]
  }

  /** The place that the new handler belongs to, from the outcome of the walk. */
  lemma PlaceFound(slots: seq<Slot>, base: int, c: seq<nat>, pending: bool, priority: int, prev: int) returns (p: nat)
    requires IsChain(slots, base, c, pending) && c != [] && c[0] < |slots| && EndsAt(slots, c[0], priority, prev)
    ensures IsPlace(slots, c, LiveCount(c, pending), p, priority) && p <= |c|
    ensures if Stops(slots, c, pending, priority) then prev == Before(c, p)
      else pending && 0 <= prev < |slots| && p == |c| - 1 && prev != Before(c, p)
  {
    hide *;
    ChainSlots(slots, base, c, pending);
    if Stops(slots, c, pending, priority) {
      p := StopsInPlace(slots, base, c, pending, priority);
      PlaceBounds(slots, c, LiveCount(c, pending), p, priority);
      EndsOnce(slots, c[0], priority, prev, Before(c, p));
    } else {
      p := |c| - 1;
      LastPlace(slots, c, pending, priority);
      PassesPlace(slots, base, c, pending, priority, p, prev);
    }
  }

  lemma LastPlace(slots: seq<Slot>, c: seq<nat>, pending: bool, priority: int)
    requires Distinct(c, |slots|) && c != [] && !Stops(slots, c, pending, priority)
    ensures pending && IsPlace(slots, c, LiveCount(c, pending), |c| - 1, priority)
  {
  }

  /** What it means that slot s was put behind prev. */
  lemma BehindMeans(slots: seq<Slot>, slots': seq<Slot>, base: int, c: seq<nat>, pending: bool, p: nat, prev: nat,
                    s: nat, x: Call)
    requires |slots| < 0x7f && IsChain(slots, base, c, pending) && c != [] && p <= |c| && s < |slots| && s !in c
    requires prev < |slots|
    requires slots' == LinkedBehind(slots, base, prev, s, x)
    requires IsPlace(slots, c, LiveCount(c, pending), p, x.priority)
    ensures prev == Before(c, p) ==> Added(slots, slots', base, c, p, s, x)
    ensures prev != Before(c, p) && p == |c| - 1 ==> Misplaced(slots, slots', c, s)
  {
    hide LinkedBehind, IsPlace, Added, Misplaced;
    ChainSlots(slots, base, c, pending);
    PlaceBounds(slots, c, LiveCount(c, pending), p, x.priority);
    if prev == Before(c, p) {
      LinkAt(slots, base, c, pending, p - 1);
      hide IsChain;
      BehindIsAdded(slots, slots', base, c, p, s, x);
    } else if p == |c| - 1 {
      hide IsChain;
      BehindIsElsewhere(slots, slots', base, c, prev, s, x);
    }
  }

  lemma LinkAt(slots: seq<Slot>, base: int, c: seq<nat>, pending: bool, k: nat)
    requires IsChain(slots, base, c, pending) && k < LiveCount(c, pending)
    ensures Distinct(c, |slots|) && IsLink(slots, base, c, k)
  {
    hide IsLink, IsTail;
  }

  lemma BehindIsAdded(slots: seq<Slot>, slots': seq<Slot>, base: int, c: seq<nat>, p: nat, s: nat, x: Call)
    requires |slots| < 0x7f && Distinct(c, |slots|) && 0 < p <= |c| && s < |slots| && s !in c
    requires IsLink(slots, base, c, p - 1) && slots' == LinkedBehind(slots, base, c[p - 1], s, x)
    ensures Added(slots, slots', base, c, p, s, x)
  {
    hide MakeBranch, ResolveBranch, Address;
    if p < |c| {
      BranchesReach(base, |slots|, c[p - 1], c[p]);
      ResolveMade(Inst3(base, c[p - 1]), Address(base, c[p]));
    }
  }

  lemma BehindIsElsewhere(slots: seq<Slot>, slots': seq<Slot>, base: int, c: seq<nat>, prev: nat, s: nat, x: Call)
    requires Distinct(c, |slots|) && c != [] && s < |slots| && s !in c && prev < |slots| && prev != Before(c, |c| - 1)
    requires slots' == LinkedBehind(slots, base, prev, s, x)
    ensures Misplaced(slots, slots', c, s)
  {
    hide MakeBranch, ResolveBranch, Address;
  }

  /** Then the chain is broken: nothing leads to the new slot where it belongs. */
  lemma MisplacedBreaks(slots: seq<Slot>, slots': seq<Slot>, base: int, head: int, head': int, vectors: seq<Vector>,
                        v: View, m: nat, p: nat)
    requires Inv(slots, base, head, vectors, v) && m < |v.chains| == |v.pending| && v.free != []
    requires v.free[0] < |v.owner|
    requires v.chains[m] != [] && v.pending[m] && p == |v.chains[m]| - 1 && v.free[0] !in v.chains[m]
    requires Misplaced(slots, slots', v.chains[m], v.free[0])
    ensures !Inv(slots', base, head', vectors, ViewAdd(v, m, p))
  {
    var c, s := v.chains[m], v.free[0];
    var v' := ViewAdd(v, m, p);
    InvParts(slots, base, head, vectors, v, m);
    ViewAddParts(v, m, p);
    if Inv(slots', base, head', vectors, v') {
      InvParts(slots', base, head', vectors, v', m);
      hide Inv, ViewAdd, Owned, IsFree, Elsewhere;
      var c' := c[..p] + [s] + c[p..];
      if p > 0 {
        LinkAt(slots, base, c, true, p - 1);
        LinkAt(slots', base, c', true, p - 1);
      }
      assert false;
    }
  }

  /** The view after an addition. */
  ghost predicate IsAdd(v: View, v': View, m: nat, p: nat) {
    && m < |v.chains| == |v.pending| && p <= |v.chains[m]| && v.free != [] && v.free[0] < |v.owner|
    && v' == ViewAdd(v, m, p)
  }

  /** The changes of irq_add_shared_handler, right or wrong. */
  ghost predicate AddDone(slots: seq<Slot>, slots': seq<Slot>, base: int, vectors: seq<Vector>, vectors': seq<Vector>,
                          v: View, m: nat, p: nat, x: Call)
  {
    && m < |v.chains| == |v.pending| == |vectors| && p <= |v.chains[m]| && v.free != [] && v.free[0] < |slots|
    && if Stops(slots, v.chains[m], v.pending[m], x.priority) then
         && Added(slots, slots', base, v.chains[m], p, v.free[0], x)
         && vectors' == vectors[m := Chain(if p == 0 then v.free[0] else v.chains[m][0])]
       else
         && Misplaced(slots, slots', v.chains[m], v.free[0]) && vectors' == vectors
         && v.pending[m] && v.chains[m] != [] && p == |v.chains[m]| - 1 && v.free[0] !in v.chains[m]
  }

  lemma AddDoneIs(slots: seq<Slot>, slots': seq<Slot>, base: int, vectors: seq<Vector>, vectors': seq<Vector>, v: View,
                  m: nat, p: nat, x: Call)
    requires m < |v.chains| == |v.pending| == |vectors| && p <= |v.chains[m]| && v.free != [] && v.free[0] < |slots|
    requires Stops(slots, v.chains[m], v.pending[m], x.priority) ==>
      && Added(slots, slots', base, v.chains[m], p, v.free[0], x)
      && vectors' == vectors[m := Chain(if p == 0 then v.free[0] else v.chains[m][0])]
    requires !Stops(slots, v.chains[m], v.pending[m], x.priority) ==>
      && Misplaced(slots, slots', v.chains[m], v.free[0]) && vectors' == vectors
      && v.pending[m] && v.chains[m] != [] && p == |v.chains[m]| - 1 && v.free[0] !in v.chains[m]
    ensures AddDone(slots, slots', base, vectors, vectors', v, m, p, x)
  {
    hide Stops, Added, Misplaced;
  }

  lemma BeforePlace(c: seq<nat>, n: nat, p: nat)
    requires Distinct(c, n) && p <= |c|
    ensures Before(c, p) < n && (Before(c, p) < 0 <==> p == 0)
  {
  }

  lemma EmptyStops(slots: seq<Slot>, pending: bool, priority: int)
    ensures Stops(slots, [], false, priority) && LiveCount([], pending) == 0
  {
  }

  lemma AddMeans(slots: seq<Slot>, slots': seq<Slot>, base: int, head: int, head': int, vectors: seq<Vector>,
                 vectors': seq<Vector>, v: View, m: nat, p: nat, x: Call, stops: bool)
    requires Inv(slots, base, head, vectors, v) && m < |v.chains| == |v.pending| && v.free != [] && v.free[0] < |slots|
    requires AddDone(slots, slots', base, vectors, vectors', v, m, p, x) && head' == slots[v.free[0]].link
    requires IsPlace(slots, v.chains[m], LiveCount(v.chains[m], v.pending[m]), p, x.priority)
    requires stops == Stops(slots, v.chains[m], v.pending[m], x.priority)
    ensures p <= |v.chains[m]| && v.free[0] < |v.owner| && IsAdd(v, ViewAdd(v, m, p), m, p)
    ensures Inv(slots', base, head', vectors', ViewAdd(v, m, p)) <==> stops
    ensures stops ==> AddRight(slots, slots', v, ViewAdd(v, m, p), m, x)
    ensures forall i :: 0 <= i < |vectors'| && i < |vectors| && vectors'[i].Raw? ==> vectors[i].Raw?
    ensures |vectors'| == |vectors| && forall i :: 0 <= i < |vectors| && i != m ==> vectors'[i] == vectors[i]
  {
    hide Inv, Added, IsPlace, Inserted, Calls, Stops, Misplaced, IsAdd, Owned, IsFree, IsChain, IsVector, ViewAdd,
      Elsewhere, SameCalls, Distinct;
    PlaceBounds(slots, v.chains[m], LiveCount(v.chains[m], v.pending[m]), p, x.priority);
    InvParts(slots, base, head, vectors, v, m);
    IsAddIs(v, ViewAdd(v, m, p), m, p);
    if stops {
      AddedView(slots, slots', base, head, vectors, vectors', v, m, p, x);
    } else {
      MisplacedBreaks(slots, slots', base, head, head', vectors, v, m, p);
    }
  }

  /** What the interrupts call after a right addition. */
  ghost predicate AddRight(slots: seq<Slot>, slots': seq<Slot>, v: View, v': View, m: nat, x: Call) {
    && m < |v.chains| == |v.pending| && Elsewhere(v, v', m) && v'.pending == v.pending
    && (forall i :: 0 <= i < |v.chains| && i != m ==> SameCalls(slots, slots', Live(v.chains[i], v.pending[i])))
    && Distinct(v'.chains[m], |slots'|) && Distinct(v.chains[m], |slots|)
    && Calls(slots', Live(v'.chains[m], v.pending[m])) == Inserted(Calls(slots, Live(v.chains[m], v.pending[m])), x)
  }

  lemma IsAddIs(v: View, v': View, m: nat, p: nat)
    requires m < |v.chains| == |v.pending| && p <= |v.chains[m]| && v.free != [] && v.free[0] < |v.owner|
    requires v' == ViewAdd(v, m, p)
    ensures IsAdd(v, v', m, p)
  {
  }

  // ----- the code

  /** Where the pool can be; irq_handler_chain.S aligns it to words. */
  type Aligned = x: int | x % 4 == 0 witness 0

  /** The pool of slots and the vector table of a core. */
  class Irq {
    const base: Aligned
    const slots: array<Slot>
    const vectors: array<Vector>
    var freeHead: int
    ghost var view: View

    ghost predicate Valid()
      reads this, slots, vectors
    {
      Inv(slots[..], base, freeHead, vectors[..], view)
    }

    /** The calls that an interrupt makes from now on. */
    ghost function CallsOf(num: nat): seq<Call>
      requires Valid() && num < |view.chains|
      reads this, slots, vectors
    {
      InvParts(slots[..], base, freeHead, vectors[..], view, num);
      Calls(slots[..], Live(view.chains[num], view.pending[num]))
    }

    /** The initial pool, as laid out in irq_handler_chain.S: all slots are free. */
    constructor (base: Aligned, n: nat, irqs: nat)
      requires 0 < n < 0x7f
      ensures Valid() && slots.Length == n && vectors.Length == irqs && |view.free| == n && this.base == base
      ensures fresh(slots) && fresh(vectors)
      ensures |view.chains| == |view.pending| == irqs && forall i :: 0 <= i < n ==> view.free[i] == i
      ensures forall m :: 0 <= m < irqs ==> view.chains[m] == [] && !view.pending[m] && vectors[m] == Unhandled
      ensures forall i :: 0 <= i < n ==> slots[i] == Slot(0, 0, 0, if i + 1 == n then -1 else i + 1, 0, 0)
    {
      this.base := base;
      slots := new Slot[n](i requires 0 <= i < n => Slot(0, 0, 0, if i + 1 == n then -1 else i + 1, 0, 0));
      vectors := new Vector[irqs](_ => Unhandled);
      freeHead := 0;
      view := View(seq(n, i requires 0 <= i < n => i), seq(irqs, _ => []), seq(irqs, _ => false), seq(n, _ => -1));
      new;
      AllFree(slots[..], base, vectors[..], view);
    }

    /** The loop of irq_add_shared_handler: the slot behind which the new one goes, or -1. */
    method FindPlace(num: nat, priority: int) returns (prev: int)
      requires num < vectors.Length && vectors[num].Chain? && WalkEnds(slots[..], vectors[num], priority)
      ensures vectors[num].slot < slots.Length && EndsAt(slots[..], vectors[num].slot, priority, prev)
    {
      var cur := vectors[num].slot;
      ghost var e :| EndsAt(slots[..], cur, priority, e);
      ghost var links: nat :| WalkOn(slots[..], -1, cur, priority, links) == Ended(e);
      ghost var left: nat := links;
      prev := -1;
      while slots[cur].priority > priority
        invariant 0 <= cur < slots.Length && WalkOn(slots[..], prev, cur, priority, left) == Ended(e)
        decreases left
      {
        prev := cur;
        if slots[cur].link < 0 {
          break;
        }
        cur, left := slots[cur].link, left - 1;
      }
      assert prev == e;
    }

    /** A new chain of one slot. */
    method StartChain(num: nat, s: nat, handler: nat, priority: int)
      requires num < vectors.Length && s < slots.Length
      modifies slots, vectors
      ensures Added(old(slots[..]), slots[..], base, [], 0, s, Call(handler, priority))
      ensures vectors[..] == old(vectors[..])[num := Chain(s)]
    {
      slots[s] := Slot(ADD_R1_PC, FirstBranch(base, slots.Length, s), POP_PC, -1, priority, handler);
      vectors[num] := Chain(s);
    }

    /** A slot behind another one. */
    method InsertBehind(prev: nat, s: nat, handler: nat, priority: int)
      requires prev < slots.Length && s < slots.Length
      modifies slots
      ensures slots[..] == LinkedBehind(old(slots[..]), base, prev, s, Call(handler, priority))
    {
      var slot := Slot(LDR_R0, BLX_R0,
                       if slots[prev].link >= 0
                       then MakeBranch(Inst3(base, s), ResolveBranch(slots[prev].inst3, Inst3(base, prev)))
                       else POP_PC,
                       slots[prev].link, priority, handler);
      slots[prev] := slots[prev].(inst3 := NextBranch(base, prev, s), link := s);
      slots[s] := slot;
    }

    /** A new head of the chain. */
    method PutInFront(num: nat, s: nat, handler: nat, priority: int, ghost c: seq<nat>)
      requires num < vectors.Length && c != [] && vectors[num] == Chain(c[0]) && Distinct(c, slots.Length)
      requires s < slots.Length && s !in c
      modifies slots, vectors
      ensures Added(old(slots[..]), slots[..], base, c, 0, s, Call(handler, priority))
      ensures vectors[..] == old(vectors[..])[num := Chain(s)]
    {
      hide IsLink, MakeBranch, Address;
      var head := vectors[num].slot;
      slots[s] := Slot(ADD_R1_PC, FirstBranch(base, slots.Length, s), NextBranch(base, s, head), head, priority,
                       handler);
      slots[head] := slots[head].(inst1 := LDR_R0, inst2 := BLX_R0);
      vectors[num] := Chain(s);
    }

    /** irq_add_shared_handler, if its walk ends; otherwise it reads behind the pool, or does not return. The new
        handler belongs to place p, and there it is, with the pool in order, if and only if the walk was stopped in
        the chain. */
    method Add(num: nat, handler: nat, priority: int) returns (ghost p: nat)
      requires Valid() && num < vectors.Length && freeHead >= 0 && !vectors[num].Raw?
      requires WalkEnds(slots[..], vectors[num], priority)
      modifies this`freeHead, this`view, slots, vectors
      ensures |view.chains| == |view.pending| == vectors.Length && IsAdd(old(view), view, num, p)
      ensures IsPlace(old(slots[..]), old(view).chains[num], LiveCount(old(view).chains[num], view.pending[num]), p,
                      priority)
      ensures Valid() <==> Stops(old(slots[..]), old(view).chains[num], view.pending[num], priority)
      ensures Valid() ==> CallsOf(num) == Inserted(old(CallsOf(num)), Call(handler, priority))
      ensures Valid() ==> forall m :: 0 <= m < vectors.Length && m != num ==> CallsOf(m) == old(CallsOf(m))
      ensures forall m :: 0 <= m < vectors.Length && vectors[m].Raw? ==> old(vectors[m].Raw?)
      ensures forall m :: 0 <= m < vectors.Length && m != num ==> vectors[m] == old(vectors[m])
    {
      hide *;
      CallsAre();
      ghost var before, table, head := slots[..], vectors[..], freeHead;
      ghost var v, stops := view, Stops(before, view.chains[num], view.pending[num], priority);
      InvParts(before, base, head, table, v, num);
      p := AddSlot(num, handler, priority);
      AddMeans(before, slots[..], base, head, freeHead, table, vectors[..], v, num, p, Call(handler, priority), stops);
      ViewAddSizes(v, num, p);
      view := ViewAdd(v, num, p);
      ValidMeans();
      if stops {
        AddedCalls(v, num, before, Call(handler, priority));
      }
    }

    lemma ValidMeans()
      ensures Valid() <==> Inv(slots[..], base, freeHead, vectors[..], view)
    {
      hide Inv;
    }

    /** What the interrupts call, as values. */
    lemma CallsAre()
      requires Valid()
      ensures |view.chains| == |view.pending| == vectors.Length && Inv(slots[..], base, freeHead, vectors[..], view)
      ensures forall m :: 0 <= m < vectors.Length ==>
        && Distinct(view.chains[m], slots.Length)
        && CallsOf(m) == Calls(slots[..], Live(view.chains[m], view.pending[m]))
    {
      forall m | 0 <= m < vectors.Length ensures Distinct(view.chains[m], slots.Length) {
        InvParts(slots[..], base, freeHead, vectors[..], view, m);
      }
      hide Inv, Calls;
    }

    lemma AddedCalls(v: View, num: nat, before: seq<Slot>, x: Call)
      requires Valid() && num < vectors.Length == |v.chains| && AddRight(before, slots[..], v, view, num, x)
      requires forall m :: 0 <= m < vectors.Length ==> Distinct(v.chains[m], |before|)
      ensures |v.pending| == |v.chains| == |view.chains|
      ensures CallsOf(num) == Inserted(Calls(before, Live(v.chains[num], v.pending[num])), x)
      ensures forall m :: 0 <= m < vectors.Length && m != num ==>
        CallsOf(m) == Calls(before, Live(v.chains[m], v.pending[m]))
    {
      hide Inv, Valid, Inserted, Calls, CallsOf, Live, Distinct;
      CallsAre();
      forall m | 0 <= m < vectors.Length && m != num
        ensures CallsOf(m) == Calls(before, Live(v.chains[m], v.pending[m]))
      {
        assert SameCalls(before, slots[..], Live(v.chains[m], v.pending[m]));
      }
    }

    /** The changes that irq_add_shared_handler makes. */
    method AddSlot(num: nat, handler: nat, priority: int) returns (ghost p: nat)
      requires Valid() && num < vectors.Length && freeHead >= 0 && !vectors[num].Raw?
      requires num < |view.chains| == |view.pending| && WalkEnds(slots[..], vectors[num], priority)
      modifies this`freeHead, slots, vectors
      ensures view.free != [] && old(freeHead) == view.free[0] < slots.Length
      ensures freeHead == old(slots[..])[view.free[0]].link
      ensures IsPlace(old(slots[..]), view.chains[num], LiveCount(view.chains[num], view.pending[num]), p, priority)
      ensures AddDone(old(slots[..]), slots[..], base, old(vectors[..]), vectors[..], view, num, p,
                      Call(handler, priority))
    {
      hide *;
      ghost var before, table, x := slots[..], vectors[..], Call(handler, priority);
      ghost var c, pending := view.chains[num], view.pending[num];
      CallsAre();
      InvParts(before, base, freeHead, table, view, num);
      NotInChain(before, base, freeHead, table, view, num);
      ChainOrNot(vectors[num], c);
      PendingNotEmpty(before, base, c, pending);
      var s := freeHead;
      freeHead := slots[s].link;
      p := 0;
      if !vectors[num].Chain? {
        StartChain(num, s, handler, priority);
        EmptyPlace(before, priority);
        EmptyStops(before, pending, priority);
      } else {
        var prev := FindPlace(num, priority);
        p := PlaceFound(before, base, c, pending, priority, prev);
        BeforePlace(c, slots.Length, p);
        if prev >= 0 {
          InsertBehind(prev, s, handler, priority);
          BehindMeans(before, slots[..], base, c, pending, p, prev, s, x);
        } else {
          PutInFront(num, s, handler, priority, c);
        }
      }
      AddDoneIs(before, slots[..], base, table, vectors[..], view, num, p, x);
    }

    /** The loop of irq_remove_handler: the first slot with the handler and the slot before it, or the last slot. */
    method FindHandler(num: nat, handler: nat, ghost c: seq<nat>) returns (prev: int, cur: nat, ghost k: nat)
      requires num < vectors.Length && c != [] && vectors[num] == Chain(c[0]) && IsChain(slots[..], base, c, false)
      ensures k < |c| && cur == c[k] < slots.Length && IsFirst(slots[..], c, k, handler)
      ensures slots[cur].handler == handler ==> prev == if k == 0 then -1 else c[k - 1]
      ensures slots[cur].handler != handler ==> k == |c| - 1
    {
      hide FirstBranch, NextBranch;
      ghost var before := slots[..];
      cur := vectors[num].slot;
      prev, k := -1, 0;
      while slots[cur].handler != handler
        invariant k < |c| && cur == c[k] && prev == (if k == 0 then -1 else c[k - 1])
        invariant forall i :: 0 <= i < k ==> slots[c[i]].handler != handler
        decreases |c| - k
      {
        assert IsLink(before, base, c, k);
        prev := cur;
        if slots[cur].link < 0 {
          break;
        }
        cur, k := slots[cur].link, k + 1;
      }
    }

    /** The next slot is copied over slot k of the chain, and freed. */
    method CopyNext(cur: nat, ghost c: seq<nat>, ghost k: nat)
      requires slots.Length < 0x7f && IsChain(slots[..], base, c, false) && k + 1 < |c| && cur == c[k]
      modifies slots, this`freeHead
      ensures freeHead == c[k + 1] && (forall i :: 0 <= i < |c| ==> c[i] < slots.Length)
      ensures slots[..][c[k]] == Copied(old(slots[..]), base, c, k) && slots[..][c[k + 1]].link == old(freeHead)
      ensures forall i :: 0 <= i < slots.Length && i != c[k] && i != c[k + 1] ==> slots[..][i] == old(slots[..])[i]
    {
      assert IsLink(slots[..], base, c, k);
      assert IsLink(slots[..], base, c, k + 1);
      if k + 2 < |c| {
        BranchesReach(base, slots.Length, c[k + 1], c[k + 2]);
        ResolveMade(Inst3(base, c[k + 1]), Address(base, c[k + 2]));
      }
      hide IsLink, MakeBranch, ResolveBranch, Address;
      var next := slots[cur].link;
      var n := slots[next];
      slots[cur] := slots[cur].(handler := n.handler, priority := n.priority, link := n.link,
        inst3 := if n.link >= 0
                 then MakeBranch(Inst3(base, cur), ResolveBranch(n.inst3, Inst3(base, next)))
                 else POP_PC);
      slots[next] := slots[next].(link := freeHead);
      freeHead := next;
    }

    /** The last slot of the chain is unlinked and freed. */
    method CutTail(num: nat, prev: int, cur: nat, ghost c: seq<nat>)
      requires num < vectors.Length && Distinct(c, slots.Length) && c != [] && cur == c[|c| - 1]
      requires prev == if |c| == 1 then -1 else c[|c| - 2]
      modifies slots, vectors, this`freeHead
      ensures freeHead == cur && Unlinked(old(slots[..]), slots[..], old(freeHead), c)
      ensures vectors[..] == old(vectors[..])[num := if |c| == 1 then Unhandled else old(vectors[..])[num]]
    {
      if prev >= 0 {
        slots[prev] := slots[prev].(link := -1, inst3 := POP_PC);
      } else {
        vectors[num] := Unhandled;
      }
      slots[cur] := slots[cur].(link := freeHead);
      freeHead := cur;
    }

    /** The removed handler is followed by another one. */
    method RemoveInside(num: nat, cur: nat, ghost k: nat)
      requires Valid() && num < vectors.Length == |view.chains| == |view.pending| && !view.pending[num]
      requires k + 1 < |view.chains[num]| && cur == view.chains[num][k]
      modifies this`freeHead, this`view, slots
      ensures Valid() && |view.chains| == |view.pending| == vectors.Length && Elsewhere(old(view), view, num)
      ensures CallsOf(num) == old(CallsOf(num))[..k] + old(CallsOf(num))[k + 1..] && !view.pending[num]
      ensures forall m :: 0 <= m < vectors.Length && m != num ==> CallsOf(m) == old(CallsOf(m))
    {
      hide Inv, Calls, Copied, IsChain, IsFree, Owned, ViewCopy;
      ghost var before, head, c := slots[..], freeHead, view.chains[num];
      InvParts(before, base, head, vectors[..], view, num);
      CopyNext(cur, c, k);
      CopiedView(before, slots[..], base, head, vectors[..], view, num, k);
      view := ViewCopy(view, num, k);
    }

    /** The removed handler is the last one, and not executing. */
    method RemoveLast(num: nat, prev: int, cur: nat)
      requires Valid() && num < vectors.Length == |view.chains| == |view.pending| && !view.pending[num]
      requires view.chains[num] != [] && cur == view.chains[num][|view.chains[num]| - 1]
      requires prev == if |view.chains[num]| == 1 then -1 else view.chains[num][|view.chains[num]| - 2]
      modifies this`freeHead, this`view, slots, vectors
      ensures Valid() && |view.chains| == |view.pending| == vectors.Length && Elsewhere(old(view), view, num)
      ensures CallsOf(num) == old(CallsOf(num))[..|old(view).chains[num]| - 1] && !view.pending[num]
      ensures forall m :: 0 <= m < vectors.Length && m != num ==> CallsOf(m) == old(CallsOf(m))
      ensures forall m :: 0 <= m < vectors.Length && vectors[m].Raw? ==> old(vectors[m].Raw?)
      ensures forall m :: 0 <= m < vectors.Length && m != num ==> vectors[m] == old(vectors[m])
    {
      hide Inv, Calls, Unlinked, IsChain, IsFree, Owned, ViewCut, Distinct;
      ghost var before, head, table, c := slots[..], freeHead, vectors[..], view.chains[num];
      InvParts(before, base, head, table, view, num);
      CutTail(num, prev, cur, c);
      InvCut(before, slots[..], base, head, table, vectors[..], view, num);
      view := ViewCut(view, num);
    }

    /** The removed handler is the last one and executing: insert_branch_and_link replaces its link and priority. */
    method MarkLast(num: nat, cur: nat)
      requires Valid() && num < vectors.Length == |view.chains| == |view.pending| && !view.pending[num]
      requires view.chains[num] != [] && cur == view.chains[num][|view.chains[num]| - 1]
      modifies this`view, slots
      ensures Valid() && |view.chains| == |view.pending| == vectors.Length && Elsewhere(old(view), view, num)
      ensures CallsOf(num) == old(CallsOf(num))[..|old(view).chains[num]| - 1] && view.pending[num]
      ensures view.chains == old(view).chains
      ensures forall m :: 0 <= m < vectors.Length && m != num ==> CallsOf(m) == old(CallsOf(m))
    {
      hide Inv, Calls, IsChain, IsFree, Owned, TailOffset, ViewMark, Live, LiveCount;
      ghost var before, c := slots[..], view.chains[num];
      InvParts(before, base, freeHead, vectors[..], view, num);
      ViewMarkParts(view, num);
      var offset := TailOffset(base, slots.Length, cur);
      var inst4 := 0xf800 + offset % 0x800;
      slots[cur] := slots[cur].(inst3 := 0xf000 + offset / 0x800 % 0x800,
                                link := SignedByte(inst4 % 0x100), priority := inst4 / 0x100);
      InvMark(before, slots[..], base, freeHead, vectors[..], view, num);
      view := ViewMark(view, num);
    }

    /** irq_remove_handler; exception says whether it is called by a handler of this interrupt. */
    method Remove(num: nat, handler: nat, exception: bool)
      requires Valid() && num < vectors.Length && !view.pending[num]
      modifies this`freeHead, this`view, slots, vectors
      ensures Valid() && |view.chains| == |view.pending| == vectors.Length && Elsewhere(old(view), view, num)
      ensures CallsOf(num) == Removed(old(CallsOf(num)), handler)
      ensures forall m :: 0 <= m < vectors.Length && m != num ==> CallsOf(m) == old(CallsOf(m))
      ensures old(vectors[num]) == Raw(handler) ==> vectors[num] == Unhandled
      ensures view.pending[num] <==> exception && RemovesLast(old(CallsOf(num)), handler)
      ensures view.pending[num] ==> view.chains == old(view).chains
      ensures forall m :: 0 <= m < vectors.Length && vectors[m].Raw? ==> old(vectors[m].Raw?)
      ensures forall m :: 0 <= m < vectors.Length && m != num ==> vectors[m] == old(vectors[m])
    {
      ghost var before, table, head, c := slots[..], vectors[..], freeHead, view.chains[num];
      InvParts(before, base, head, table, view, num);
      ChainOrNot(vectors[num], c);
      hide Inv, Removed, RemovesLast, Calls, IsFirst, IsChain, IsFree, Owned, IsTail;
      var v := vectors[num];
      if v != Unhandled && v != Raw(handler) {
        if v.Chain? {
          RemoveShared(num, handler, exception);
        } else {
          NothingRemoved(before, c, handler);
        }
      } else {
        NothingRemoved(before, c, handler);
        vectors[num] := Unhandled;
        NoHandler(before, base, head, table, view, num);
      }
    }

    /** The part of irq_remove_handler for chains. */
    method RemoveShared(num: nat, handler: nat, exception: bool)
      requires Valid() && num < vectors.Length == |view.chains| == |view.pending| && !view.pending[num]
      requires vectors[num].Chain?
      modifies this`freeHead, this`view, slots, vectors
      ensures Valid() && |view.chains| == |view.pending| == vectors.Length && Elsewhere(old(view), view, num)
      ensures CallsOf(num) == Removed(old(CallsOf(num)), handler)
      ensures forall m :: 0 <= m < vectors.Length && m != num ==> CallsOf(m) == old(CallsOf(m))
      ensures view.pending[num] <==> exception && RemovesLast(old(CallsOf(num)), handler)
      ensures view.pending[num] ==> view.chains == old(view).chains
      ensures forall m :: 0 <= m < vectors.Length && vectors[m].Raw? ==> old(vectors[m].Raw?)
      ensures forall m :: 0 <= m < vectors.Length && m != num ==> vectors[m] == old(vectors[m])
    {
      hide *;
      ghost var before, c := slots[..], view.chains[num];
      CallsAre();
      InvParts(before, base, freeHead, vectors[..], view, num);
      ChainOrNot(vectors[num], c);
      AllLive(view, num);
      var prev, cur;
      ghost var k;
      prev, cur, k := FindHandler(num, handler, c);
      LinkOf(before, base, c, k);
      RemovedCall(before, c, k, handler);
      if slots[cur].handler == handler {
        if slots[cur].link >= 0 {
          RemoveInside(num, cur, k);
        } else if !exception {
          RemoveLast(num, prev, cur);
        } else {
          MarkLast(num, cur);
        }
      }
    }

    /** The loop of irq_add_tail_to_free_list: the first slot of the pool whose link is t. */
    method FindLink(t: int) returns (i: nat)
      requires t in Links(slots[..])
      ensures i < slots.Length && slots[i].link == t && forall j :: 0 <= j < i ==> slots[j].link != t
    {
      i := 0;
      while slots[i].link != t
        invariant i < slots.Length && forall j :: 0 <= j < i ==> slots[j].link != t
        invariant t in Links(slots[..])[i..]
        decreases slots.Length - i
      {
        LinkBehind(slots[..], i, t);
        i := i + 1;
      }
    }

    /** irq_add_tail_to_free_list, for the removed tail t of the chain of the executing interrupt. The pool is left in
        order if and only if the search for the slot before t does not come upon another link to t first. */
    method DropTail(num: nat, t: nat)
      requires Valid() && num < vectors.Length && view.pending[num]
      requires view.chains[num] != [] && t == view.chains[num][|view.chains[num]| - 1]
      modifies this`freeHead, this`view, slots, vectors
      ensures t < |old(view).owner| && view == ViewCut(old(view), num)
      ensures Valid() <==> Reaches(old(slots[..]), old(view).chains[num])
      ensures Valid() ==> forall m :: 0 <= m < vectors.Length ==> CallsOf(m) == old(CallsOf(m))
      ensures forall m :: 0 <= m < vectors.Length && vectors[m].Raw? ==> old(vectors[m].Raw?)
      ensures forall m :: 0 <= m < vectors.Length && m != num ==> vectors[m] == old(vectors[m])
    {
      ghost var before, table, head, c := slots[..], vectors[..], freeHead, view.chains[num];
      ghost var n := |c| - 1;
      InvParts(before, base, head, table, view, num);
      ChainOrNot(vectors[num], c);
      hide Inv, Calls, IsChain, IsFree, Owned, Reaches, ViewCut, Elsewhere;
      if vectors[num] == Chain(t) {
        HeadIsTail(before, base, c, view.pending[num]);
        DropHead(num, t);
        ShortReaches(before, c);
      } else {
        TailHasPrevious(before, base, c, t);
        DropBehind(num, t);
      }
    }

    /** The tail is the only slot of its chain. */
    method DropHead(num: nat, t: nat)
      requires Valid() && num < vectors.Length == |view.chains| == |view.pending| && view.pending[num]
      requires |view.chains[num]| == 1 && t == view.chains[num][0] < slots.Length
      modifies this`freeHead, this`view, slots, vectors
      ensures t < |old(view).owner| && view == ViewCut(old(view), num)
      ensures Valid() && forall m :: 0 <= m < vectors.Length ==> CallsOf(m) == old(CallsOf(m))
      ensures forall m :: 0 <= m < vectors.Length && vectors[m].Raw? ==> old(vectors[m].Raw?)
      ensures forall m :: 0 <= m < vectors.Length && m != num ==> vectors[m] == old(vectors[m])
    {
      ghost var before, table, head, c := slots[..], vectors[..], freeHead, view.chains[num];
      InvParts(before, base, head, table, view, num);
      hide Inv, Calls, IsChain, IsFree, Owned, Unlinked, ViewCut, Elsewhere;
      vectors[num] := Unhandled;
      slots[t] := slots[t].(link := freeHead);
      freeHead := t;
      OneUnlinked(before, slots[..], head, c);
      InvCut(before, slots[..], base, head, table, vectors[..], view, num);
      CallsPrefix(before, c, 0);
      view := ViewCut(view, num);
    }

    /** Another slot is before the tail. */
    method DropBehind(num: nat, t: nat)
      requires Valid() && num < vectors.Length == |view.chains| == |view.pending| && view.pending[num]
      requires |view.chains[num]| > 1 && t == view.chains[num][|view.chains[num]| - 1] < slots.Length
      requires t in Links(slots[..])
      modifies this`freeHead, this`view, slots
      ensures t < |old(view).owner| && view == ViewCut(old(view), num)
      ensures Valid() <==> Reaches(old(slots[..]), old(view).chains[num])
      ensures Valid() ==> forall m :: 0 <= m < vectors.Length ==> CallsOf(m) == old(CallsOf(m))
    {
      hide Inv, Calls, IsChain, IsFree, Owned, Reaches, ViewCut, Links, Distinct;
      ghost var before, table, head, c := slots[..], vectors[..], freeHead, view.chains[num];
      InvParts(before, base, head, table, view, num);
      DistinctPrefix(c, slots.Length, |c| - 1);
      var i := FindLink(t);
      slots[i] := slots[i].(link := -1, inst3 := POP_PC);
      slots[t] := slots[t].(link := freeHead);
      freeHead := t;
      Searched(before, slots[..], base, head, table, view, num, i);
      CallsPrefix(before, c, |c| - 1);
      view := ViewCut(view, num);
    }
  }

  function Links(slots: seq<Slot>): (r: seq<int>)
    ensures |r| == |slots|
  {
    seq(|slots|, i requires 0 <= i < |slots| => slots[i].link)
  }

  lemma LinkBehind(slots: seq<Slot>, i: nat, t: int)
    requires i < |slots| && t in Links(slots)[i..] && slots[i].link != t
    ensures i + 1 < |slots| && t in Links(slots)[i + 1..]
  {
    var r := Links(slots)[i..];
    var k :| 0 <= k < |r| && r[k] == t;
    assert k > 0;
    assert Links(slots)[i + 1..][k - 1] == t;
  }

  /** The slot before the tail is the first one in the pool that has a link to it, or there is no slot before it. */
  predicate Reaches(slots: seq<Slot>, c: seq<nat>) {
    |c| <= 1 || forall i :: 0 <= i < c[|c| - 2] && i < |slots| ==> slots[i].link != c[|c| - 1]
  }

  lemma ShortReaches(slots: seq<Slot>, c: seq<nat>)
    requires |c| == 1
    ensures Reaches(slots, c)
  {
  }

  lemma HeadIsTail(slots: seq<Slot>, base: int, c: seq<nat>, pending: bool)
    requires IsChain(slots, base, c, pending) && c != [] && c[0] == c[|c| - 1]
    ensures |c| == 1
  {
  }

  lemma TailHasPrevious(slots: seq<Slot>, base: int, c: seq<nat>, t: nat)
    requires IsChain(slots, base, c, true) && c != [] && t == c[|c| - 1] && c[0] != t
    ensures |c| > 1 && c[|c| - 2] < |slots| && slots[c[|c| - 2]].link == t && c[|c| - 2] != t && t in Links(slots)
  {
    var p := c[|c| - 2];
    assert IsLink(slots, base, c, |c| - 2);
    assert Links(slots)[p] == t;
  }

  lemma OneUnlinked(slots: seq<Slot>, slots': seq<Slot>, head: int, c: seq<nat>)
    requires |c| == 1 && c[0] < |slots| == |slots'| && slots'[c[0]].link == head
    requires forall i :: 0 <= i < |slots| && i != c[0] ==> slots'[i] == slots[i]
    ensures Unlinked(slots, slots', head, c)
  {
  }

  lemma CallsPrefix(slots: seq<Slot>, c: seq<nat>, n: nat)
    requires Distinct(c, |slots|) && n <= |c|
    ensures Calls(slots, c[..n]) == Calls(slots, c)[..n]
  {
  }

  /** What irq_add_tail_to_free_list makes of the slots, when slot i is the one that it finds. */
  ghost predicate Dropped(slots: seq<Slot>, slots': seq<Slot>, head: int, i: nat, t: nat) {
    && i < |slots| && t < |slots| && slots[i].link == t && (forall j :: 0 <= j < i ==> slots[j].link != t)
    && slots' == (var s := slots[i := slots[i].(link := -1, inst3 := POP_PC)]; s[t := s[t].(link := head)])
  }

  lemma DroppedRight(slots: seq<Slot>, slots': seq<Slot>, head: int, c: seq<nat>, i: nat)
    requires Distinct(c, |slots|) && |c| > 1 && Dropped(slots, slots', head, i, c[|c| - 1]) && i == c[|c| - 2]
    ensures Unlinked(slots, slots', head, c) && Reaches(slots, c)
  {
  }

  lemma DroppedWrong(slots: seq<Slot>, slots': seq<Slot>, head: int, c: seq<nat>, i: nat)
    requires Distinct(c, |slots|) && |c| > 1 && Dropped(slots, slots', head, i, c[|c| - 1]) && i != c[|c| - 2]
    requires slots[c[|c| - 2]].link == c[|c| - 1]
    ensures c[|c| - 2] < |slots'| && slots'[c[|c| - 2]].link == c[|c| - 1] && !Reaches(slots, c)
  {
    assert i < c[|c| - 2];
  }

  /** The outcome of the search for a link to the tail. */
  lemma Searched(slots: seq<Slot>, slots': seq<Slot>, base: int, head: int, vectors: seq<Vector>, v: View, m: nat,
                 i: nat)
    requires Inv(slots, base, head, vectors, v) && m < |v.chains| == |vectors| == |v.pending| && v.pending[m]
    requires |v.chains[m]| > 1 && Dropped(slots, slots', head, i, v.chains[m][|v.chains[m]| - 1])
    ensures v.chains[m][|v.chains[m]| - 1] < |v.owner|
    ensures Inv(slots', base, v.chains[m][|v.chains[m]| - 1], vectors, ViewCut(v, m)) <==> Reaches(slots, v.chains[m])
    ensures Reaches(slots, v.chains[m]) ==>
      && Elsewhere(v, ViewCut(v, m), m) && ViewCut(v, m).chains[m] == v.chains[m][..|v.chains[m]| - 1]
      && !ViewCut(v, m).pending[m]
      && (forall i :: 0 <= i < |v.chains| && i != m ==> SameCalls(slots, slots', Live(v.chains[i], v.pending[i])))
      && Distinct(v.chains[m], |slots|) && Distinct(v.chains[m][..|v.chains[m]| - 1], |slots'|)
      && Calls(slots', v.chains[m][..|v.chains[m]| - 1]) == Calls(slots, v.chains[m])[..|v.chains[m]| - 1]
  {
    hide Inv, Owned, IsFree, IsChain, Calls, IsLink, IsVector, SameCalls, Elsewhere, Dropped, Reaches, ViewCut,
      Unlinked;
    InvParts(slots, base, head, vectors, v, m);
    var c := v.chains[m];
    DistinctAt(c, |slots|, |c| - 1);
    TailHasPrevious(slots, base, c, c[|c| - 1]);
    if i == c[|c| - 2] {
      DroppedRight(slots, slots', head, c, i);
      assert vectors[m := vectors[m]] == vectors;
      InvCut(slots, slots', base, head, vectors, vectors, v, m);
    } else {
      DroppedWrong(slots, slots', head, c, i);
      StillLinked(slots', base, vectors, v, m);
    }
  }

  lemma StillLinked(slots: seq<Slot>, base: int, vectors: seq<Vector>, v: View, m: nat)
    requires m < |v.chains| == |v.pending| && |v.chains[m]| > 1 && v.chains[m][|v.chains[m]| - 1] < |v.owner|
    requires v.chains[m][|v.chains[m]| - 2] < |slots|
    requires slots[v.chains[m][|v.chains[m]| - 2]].link == v.chains[m][|v.chains[m]| - 1]
    ensures !Inv(slots, base, v.chains[m][|v.chains[m]| - 1], vectors, ViewCut(v, m))
  {
    hide Inv;
    var t := v.chains[m][|v.chains[m]| - 1];
    var v' := ViewCut(v, m);
    if Inv(slots, base, t, vectors, v') {
      LastLink(slots, base, t, vectors, v', m);
    }
  }

  lemma LastLink(slots: seq<Slot>, base: int, head: int, vectors: seq<Vector>, v: View, m: nat)
    requires Inv(slots, base, head, vectors, v) && m < |v.chains| && v.chains[m] != [] && !v.pending[m]
    ensures v.chains[m][|v.chains[m]| - 1] < |slots| && slots[v.chains[m][|v.chains[m]| - 1]].link == -1
  {
    hide Inv, Owned, IsFree, FirstBranch, NextBranch;
    InvParts(slots, base, head, vectors, v, m);
    var c := v.chains[m];
    assert IsLink(slots, base, c, |c| - 1);
  }

  /** A slot that has a link to the tail of chain m is the one before it, or a removed tail itself, of which the link is
      a part of an instruction. */
  lemma DecoyIsTail(slots: seq<Slot>, base: int, head: int, vectors: seq<Vector>, v: View, m: nat, i: nat)
    requires Inv(slots, base, head, vectors, v) && m < |v.chains| == |v.pending| && |v.chains[m]| > 1
    requires i < |slots| && slots[i].link == v.chains[m][|v.chains[m]| - 1]
    ensures i == v.chains[m][|v.chains[m]| - 2] || slots[i].link == TailLink(base, |slots|, i)
  {
    hide Inv, IsFree, IsChain, TailLink;
    var c := v.chains[m];
    InvParts(slots, base, head, vectors, v, m);
    if v.owner[i] >= 0 {
      var o := v.owner[i];
      var k :| 0 <= k < |v.chains[o]| && v.chains[o][k] == i;
      InvParts(slots, base, head, vectors, v, o);
      LinkInChain(slots, base, v, o, k, m);
    } else {
      FreeLink(slots, v, head, i);
    }
  }

  lemma LinkInChain(slots: seq<Slot>, base: int, v: View, o: nat, k: nat, m: nat)
    requires Owned(|slots|, v.free, v.chains, v.owner) && o < |v.chains| == |v.pending| && k < |v.chains[o]|
    requires IsChain(slots, base, v.chains[o], v.pending[o]) && m < |v.chains| && |v.chains[m]| > 1
    requires slots[v.chains[o][k]].link == v.chains[m][|v.chains[m]| - 1]
    ensures var i := v.chains[o][k];
      i == v.chains[m][|v.chains[m]| - 2] || slots[i].link == TailLink(base, |slots|, i)
  {
    hide TailLink, FirstBranch, NextBranch;
    var d, t := v.chains[o], v.chains[m][|v.chains[m]| - 1];
    assert v.owner[t] == m;
    if k < LiveCount(d, v.pending[o]) {
      assert IsLink(slots, base, d, k);
      assert k + 1 < |d| && d[k + 1] == t;
      assert v.owner[d[k + 1]] == o;
    }
  }

  lemma FreeLink(slots: seq<Slot>, v: View, head: int, i: nat)
    requires Owned(|slots|, v.free, v.chains, v.owner) && IsFree(slots, v.free, head) && i < |slots| && v.owner[i] < 0
    ensures slots[i].link == -1 || (0 <= slots[i].link < |slots| && v.owner[slots[i].link] == -1)
  {
    var k :| 0 <= k < |v.free| && v.free[k] == i;
    if k + 1 < |v.free| {
      assert v.free[k + 1..][0] == v.free[k + 1];
    }
  }

  /** In a pool of up to seven slots no instruction looks like a link, so a removed tail is always unlinked. */
  lemma SmallPoolReaches(slots: seq<Slot>, base: int, head: int, vectors: seq<Vector>, v: View, m: nat)
    requires Inv(slots, base, head, vectors, v) && m < |v.chains| == |v.pending| && v.pending[m] && |slots| <= 7
    ensures Reaches(slots, v.chains[m])
  {
    hide Inv, Owned, IsFree, IsChain;
    var c := v.chains[m];
    InvParts(slots, base, head, vectors, v, m);
    forall i | |c| > 1 && 0 <= i < c[|c| - 2] && i < |slots| ensures slots[i].link != c[|c| - 1] {
      if slots[i].link == c[|c| - 1] {
        DecoyIsTail(slots, base, head, vectors, v, m, i);
        BranchesReach(base, |slots|, i, 0);
        TailLinkIs(base, |slots|, i);
      }
    }
  }

  /** In a pool of 15 slots it can go wrong: slot 13, removed while it executes, links to itself. */
  lemma SelfDecoy(slots: seq<Slot>, base: int, head: int, vectors: seq<Vector>, v: View, m: nat)
    requires Inv(slots, base, head, vectors, v) && |slots| == 15 && m < |v.chains| == |v.pending|
    requires v.pending[m] && v.chains[m] == [14, 13]
    ensures !Reaches(slots, v.chains[m])
  {
    hide Inv, Owned, IsFree, TailLink, TailPriority, TailOffset;
    InvParts(slots, base, head, vectors, v, m);
    TailLinkIs(base, 15, 13);
    assert slots[13].link == 13;
  }

  lemma LinkOf(slots: seq<Slot>, base: int, c: seq<nat>, k: nat)
    requires IsChain(slots, base, c, false) && k < |c|
    ensures c[k] < |slots| && (slots[c[k]].link >= 0 <==> k + 1 < |c|)
  {
    assert IsLink(slots, base, c, k);
  }

  lemma RemovedCall(slots: seq<Slot>, c: seq<nat>, k: nat, handler: nat)
    requires IsFirst(slots, c, k, handler)
    ensures k < |c| && (forall i :: 0 <= i < |c| ==> c[i] < |slots|)
    ensures slots[c[k]].handler == handler ==>
      Removed(Calls(slots, c), handler) == Calls(slots, c)[..k] + Calls(slots, c)[k + 1..]
    ensures slots[c[k]].handler == handler && k + 1 == |c| ==> Removed(Calls(slots, c), handler) == Calls(slots, c)[..k]
    ensures slots[c[k]].handler != handler && k + 1 == |c| ==> Removed(Calls(slots, c), handler) == Calls(slots, c)
    ensures slots[c[k]].handler == handler || k + 1 == |c| ==>
      (RemovesLast(Calls(slots, c), handler) <==> slots[c[k]].handler == handler && k + 1 == |c|)
  {
    var calls := Calls(slots, c);
    if slots[c[k]].handler == handler {
      RemovedAt(calls, handler, k);
      if k + 1 == |c| {
        assert calls[..k] + calls[k + 1..] == calls[..k];
      }
    } else if k + 1 == |c| {
      NotThere(calls, handler);
    }
  }

  lemma NothingRemoved(slots: seq<Slot>, c: seq<nat>, handler: nat)
    requires c == []
    ensures Removed(Calls(slots, c), handler) == Calls(slots, c) && !RemovesLast(Calls(slots, c), handler)
  {
  }

  lemma NoHandler(slots: seq<Slot>, base: int, head: int, vectors: seq<Vector>, v: View, m: nat)
    requires Inv(slots, base, head, vectors, v) && m < |v.chains| && !vectors[m].Chain?
    ensures Inv(slots, base, head, vectors[m := Unhandled], v)
  {
    hide Owned, IsFree, IsChain;
    var vectors' := vectors[m := Unhandled];
    forall i | 0 <= i < |v.chains|
      ensures IsChain(slots, base, v.chains[i], v.pending[i]) && IsVector(vectors'[i], v.chains[i])
    {
      assert IsVector(vectors[i], v.chains[i]);
    }
  }

  /** No slot of the chain before k has the handler. */
  ghost predicate IsFirst(slots: seq<Slot>, c: seq<nat>, k: nat, handler: nat) {
    && k < |c| && (forall i :: 0 <= i < |c| ==> c[i] < |slots|)
    && forall i :: 0 <= i < k ==> slots[c[i]].handler != handler
  }

  lemma PlaceBounds(slots: seq<Slot>, c: seq<nat>, n: nat, p: nat, priority: int)
    requires IsPlace(slots, c, n, p, priority)
    ensures p <= n <= |c|
  {
  }

  /** What the changes of irq_add_shared_handler mean. */
  lemma AddedView(slots: seq<Slot>, slots': seq<Slot>, base: int, head: int, vectors: seq<Vector>,
                  vectors': seq<Vector>,
                  v: View, m: nat, p: nat, x: Call)
    requires Inv(slots, base, head, vectors, v) && m < |v.chains| == |v.pending| && v.free != [] && v.free[0] < |slots|
    requires Added(slots, slots', base, v.chains[m], p, v.free[0], x)
    requires IsPlace(slots, v.chains[m], LiveCount(v.chains[m], v.pending[m]), p, x.priority)
    requires p <= |v.chains[m]| ==> vectors' == vectors[m := Chain(if p == 0 then v.free[0] else v.chains[m][0])]
    ensures p <= |v.chains[m]| && v.free[0] < |v.owner|
    ensures Inv(slots', base, slots[v.free[0]].link, vectors', ViewAdd(v, m, p)) && Elsewhere(v, ViewAdd(v, m, p), m)
    ensures ViewAdd(v, m, p).pending == v.pending
    ensures forall i :: 0 <= i < |v.chains| && i != m ==> SameCalls(slots, slots', Live(v.chains[i], v.pending[i]))
    ensures Distinct(ViewAdd(v, m, p).chains[m], |slots'|) && Distinct(v.chains[m], |slots|)
    ensures Calls(slots', Live(ViewAdd(v, m, p).chains[m], v.pending[m]))
      == Inserted(Calls(slots, Live(v.chains[m], v.pending[m])), x)
  {
    hide *;
    var c := v.chains[m];
    PlaceBounds(slots, c, LiveCount(c, v.pending[m]), p, x.priority);
    InvParts(slots, base, head, vectors, v, m);
    PendingNotEmpty(slots, base, c, v.pending[m]);
    OwnTake(|slots|, v, m, p);
    DistinctInsert(c, |slots|, p, v.free[0]);
    AddedSlots(slots, slots', base, c, p, v.free[0], x);
    InsertedCalls(slots, slots', base, c, v.pending[m], p, v.free[0], x);
    ViewAddParts(v, m, p);
    InvAdd(slots, slots', base, head, vectors, v, m, p, x);
  }

  lemma AddedSlots(slots: seq<Slot>, slots': seq<Slot>, base: int, c: seq<nat>, p: nat, s: nat, x: Call)
    requires Added(slots, slots', base, c, p, s, x)
    ensures s < |slots| == |slots'| && p <= |c| && (forall i :: 0 <= i < |c| ==> c[i] < |slots|)
    ensures slots'[s] == NewSlot(base, |slots|, c, p, s, x)
    ensures forall i :: 0 <= i < |c| ==> slots'[c[i]] == Relinked(slots, base, c, p, s, i)
  {
    hide NewSlot, Relinked;
  }

  lemma ViewAddParts(v: View, m: nat, p: nat)
    requires m < |v.chains| == |v.pending| && p <= |v.chains[m]| && v.free != [] && v.free[0] < |v.owner|
    ensures Elsewhere(v, ViewAdd(v, m, p), m) && ViewAdd(v, m, p).pending == v.pending
    ensures |ViewAdd(v, m, p).chains| == |v.chains|
    ensures ViewAdd(v, m, p).chains[m] == v.chains[m][..p] + [v.free[0]] + v.chains[m][p..]
    ensures (v.chains[m][..p] + [v.free[0]] + v.chains[m][p..])[0] == if p == 0 then v.free[0] else v.chains[m][0]
  {
  }

  lemma ChainOrNot(v: Vector, c: seq<nat>)
    requires IsVector(v, c)
    ensures v.Chain? <==> c != []
    ensures c != [] ==> v == Chain(c[0])
  {
  }

  lemma NotInChain(slots: seq<Slot>, base: int, head: int, vectors: seq<Vector>, v: View, m: nat)
    requires Inv(slots, base, head, vectors, v) && m < |v.chains| && head >= 0
    ensures v.free != [] && head == v.free[0] < |slots| && v.free[0] !in v.chains[m]
  {
    hide Inv, IsFree, IsChain;
    InvParts(slots, base, head, vectors, v, m);
    OwnTake(|slots|, v, m, 0);
  }

  lemma EmptyPlace(slots: seq<Slot>, priority: int)
    ensures IsPlace(slots, [], 0, 0, priority)
  {
  }

  /** The other chains are as they were. */
  ghost predicate Elsewhere(v: View, v': View, num: nat) {
    && |v'.chains| == |v.chains| && |v'.pending| == |v.pending|
    && (forall m :: 0 <= m < |v.chains| && m != num ==> v'.chains[m] == v.chains[m])
    && (forall m :: 0 <= m < |v.pending| && m != num ==> v'.pending[m] == v.pending[m])
  }

  lemma AllFree(slots: seq<Slot>, base: int, vectors: seq<Vector>, v: View)
    requires 0 < |slots| < 0x7f && |v.free| == |slots| == |v.owner| && |v.chains| == |v.pending| == |vectors|
    requires forall i :: 0 <= i < |slots| ==> v.free[i] == i && v.owner[i] == -1
    requires forall i :: 0 <= i < |slots| ==> slots[i].link == if i + 1 == |slots| then -1 else i + 1
    requires forall m :: 0 <= m < |vectors| ==> vectors[m] == Unhandled && v.chains[m] == [] && !v.pending[m]
    ensures Inv(slots, base, 0, vectors, v)
  {
    hide Owned, IsFree, IsLink, IsTail;
    FreeInOrder(slots, v.free);
    OwnedByNone(|slots|, v.free, v.chains, v.owner);
  }

  lemma FreeInOrder(slots: seq<Slot>, free: seq<nat>)
    requires |free| == |slots| > 0 && forall i :: 0 <= i < |slots| ==> free[i] == i
    requires forall i :: 0 <= i < |slots| ==> slots[i].link == if i + 1 == |slots| then -1 else i + 1
    ensures IsFree(slots, free, 0)
  {
    forall k | 0 <= k < |slots| ensures slots[free[k]].link == FirstOf(free[k + 1..]) {
      if k + 1 < |slots| {
        assert free[k + 1..][0] == k + 1;
      }
    }
  }

  lemma OwnedByNone(n: nat, free: seq<nat>, chains: seq<seq<nat>>, owner: seq<int>)
    requires |free| == n == |owner| && forall i :: 0 <= i < n ==> free[i] == i && owner[i] == -1
    requires forall m :: 0 <= m < |chains| ==> chains[m] == []
    ensures Owned(n, free, chains, owner)
  {
    forall x | 0 <= x < n ensures x in free {
      assert free[x] == x;
    }
  }
}
