/** Shared interrupt handlers over whole runs: additions, removals, and interrupts that end in a removed tail. */
module IrqRuns {
  import opened IrqChains

  // ----- every slot is somewhere

  function Total(chains: seq<seq<nat>>): nat {
    if chains == [] then 0 else Total(chains[..|chains| - 1]) + |chains[|chains| - 1]|
  }

  /** The slots that belong to the free list or to one of the first k interrupts. */
  ghost function Upto(n: nat, owner: seq<int>, k: nat): set<nat>
    requires |owner| == n
  {
    set x | 0 <= x < n && -1 <= owner[x] < k
  }

  function Members(c: seq<nat>): set<nat> {
    if c == [] then {} else Members(c[..|c| - 1]) + {c[|c| - 1]}
  }

  lemma {:induction false} InMembers(c: seq<nat>, x: nat)
    ensures x in Members(c) <==> x in c
  {
    if c != [] {
      var m := |c| - 1;
      InMembers(c[..m], x);
      assert c == c[..m] + [c[m]];
    }
  }

  lemma {:induction false} MembersSize(c: seq<nat>, n: nat)
    requires Distinct(c, n)
    ensures |Members(c)| == |c|
  {
    if c != [] {
      var m := |c| - 1;
      DistinctPrefix(c, n, m);
      MembersSize(c[..m], n);
      LastIsNew(c, n);
      InMembers(c[..m], c[m]);
    }
  }

  lemma LastIsNew(c: seq<nat>, n: nat)
    requires Distinct(c, n) && c != []
    ensures c[|c| - 1] !in c[..|c| - 1]
  {
  }

  /** The numbers below n. */
  function Range(n: nat): set<nat> { if n == 0 then {} else Range(n - 1) + {n - 1} }

  lemma {:induction false} InRange(n: nat, x: nat)
    ensures x in Range(n) <==> x < n
  {
    if n > 0 {
      InRange(n - 1, x);
    }
  }

  lemma {:induction false} RangeSize(n: nat)
    ensures |Range(n)| == n
  {
    if n > 0 {
      RangeSize(n - 1);
      InRange(n - 1, n - 1);
    }
  }

  lemma {:induction false} UptoSize(slots: seq<Slot>, base: int, head: int, vectors: seq<Vector>, v: View, k: nat)
    requires Inv(slots, base, head, vectors, v) && k <= |v.chains| && |v.owner| == |slots|
    ensures |Upto(|slots|, v.owner, k)| == |v.free| + Total(v.chains[..k])
    decreases k
  {
    hide *;
    var n := |slots|;
    if k == 0 {
      InvOwned(slots, base, head, vectors, v);
      OwnedFree(n, v);
      MembersSize(v.free, n);
      NoTotal(v.chains);
    } else {
      UptoSize(slots, base, head, vectors, v, k - 1);
      InvParts(slots, base, head, vectors, v, k - 1);
      OwnedChain(n, v, k - 1);
      MembersSize(v.chains[k - 1], n);
      TotalStep(v.chains, k);
    }
  }

  lemma NoTotal(chains: seq<seq<nat>>)
    ensures Total(chains[..0]) == 0
  {
  }

  lemma TotalStep(chains: seq<seq<nat>>, k: nat)
    requires 0 < k <= |chains|
    ensures Total(chains[..k]) == Total(chains[..k - 1]) + |chains[k - 1]|
  {
    assert chains[..k][..k - 1] == chains[..k - 1];
  }

  lemma InvOwned(slots: seq<Slot>, base: int, head: int, vectors: seq<Vector>, v: View)
    requires Inv(slots, base, head, vectors, v)
    ensures Distinct(v.free, |slots|) && Owned(|slots|, v.free, v.chains, v.owner) && |v.owner| == |slots|
    ensures head >= 0 <==> v.free != []
  {
    hide IsChain, IsVector;
  }

  lemma OwnedFree(n: nat, v: View)
    requires |v.owner| == n && Owned(n, v.free, v.chains, v.owner)
    ensures Upto(n, v.owner, 0) == Members(v.free)
  {
    forall x: nat ensures x in Upto(n, v.owner, 0) <==> x in Members(v.free) {
      InMembers(v.free, x);
    }
  }

  lemma OwnedChain(n: nat, v: View, k: nat)
    requires Owned(n, v.free, v.chains, v.owner) && k < |v.chains| && |v.owner| == n
    ensures |Upto(n, v.owner, k + 1)| == |Upto(n, v.owner, k)| + |Members(v.chains[k])|
  {
    var a, b := Upto(n, v.owner, k), Members(v.chains[k]);
    forall x: nat
      ensures x in Upto(n, v.owner, k + 1) <==> x in a || x in b
      ensures !(x in a && x in b)
    {
      InMembers(v.chains[k], x);
    }
    assert Upto(n, v.owner, k + 1) == a + b && a !! b;
  }

  lemma UptoAll(n: nat, v: View)
    requires Owned(n, v.free, v.chains, v.owner) && |v.owner| == n
    ensures Upto(n, v.owner, |v.chains|) == Range(n)
  {
    forall x: nat ensures x in Upto(n, v.owner, |v.chains|) <==> x in Range(n) {
      InRange(n, x);
    }
  }

  /** Every slot is in the free list or in one chain. */
  lemma AllSlots(slots: seq<Slot>, base: int, head: int, vectors: seq<Vector>, v: View)
    requires Inv(slots, base, head, vectors, v)
    ensures |v.free| + Total(v.chains) == |slots| && (head >= 0 <==> v.free != [])
  {
    hide *;
    InvOwned(slots, base, head, vectors, v);
    UptoSize(slots, base, head, vectors, v, |v.chains|);
    UptoAll(|slots|, v);
    RangeSize(|slots|);
    assert v.chains[..|v.chains|] == v.chains;
  }

  // ----- executing a chain

  /** The handlers of the slots of c. */
  function Handlers(slots: seq<Slot>, c: seq<nat>): (r: seq<nat>)
    requires forall i :: 0 <= i < |c| ==> c[i] < |slots|
    ensures |r| == |c|
  {
    seq(|c|, i requires 0 <= i < |c| => slots[c[i]].handler)
  }

  /** A slot of a chain before the last one branches to the next one; the last one does not branch. */
  lemma NextInstruction(slots: seq<Slot>, base: int, c: seq<nat>, pending: bool, k: nat)
    requires IsChain(slots, base, c, pending) && k < |c| && |slots| < 0x7f
    ensures c[k] < |slots| && (IsBranch(slots[c[k]].inst3) <==> k + 1 < |c|)
    ensures k + 1 < |c| ==> ResolveBranch(slots[c[k]].inst3, Inst3(base, c[k])) == Address(base, c[k + 1])
  {
    if k + 1 < |c| {
      assert IsLink(slots, base, c, k);
      BranchesReach(base, |slots|, c[k], c[k + 1]);
      ResolveMade(Inst3(base, c[k]), Address(base, c[k + 1]));
      hide ResolveBranch, MakeBranch, IsBranch, Address;
    } else if pending {
      BranchesReach(base, |slots|, c[k], 0);
      hide TailOffset, TailLink, TailPriority, ResolveBranch;
    } else {
      assert IsLink(slots, base, c, k);
      hide ResolveBranch;
    }
  }

  lemma InPool(c: seq<nat>, n: nat)
    requires Distinct(c, n)
    ensures forall i :: 0 <= i < |c| ==> c[i] < n
  {
  }

  lemma AddressOf(base: int, i: nat)
    // SLOT_SIZE
    ensures (Address(base, i) - base) / 12 == i
  {
  }

  /** The handler of a slot and its third instruction, by their addresses. */
  lemma FieldsOf(base: int, i: nat)
    // SLOT_SIZE
    ensures (Address(base, i) + 8 - 8 - base) / 12 == i && (Inst3(base, i) - 4 - base) / 12 == i
  {
  }

  lemma NoHandlers(slots: seq<Slot>, c: seq<nat>)
    requires forall i :: 0 <= i < |c| ==> c[i] < |slots|
    ensures Handlers(slots, c[..0]) == []
  {
  }

  lemma MoreHandlers(slots: seq<Slot>, c: seq<nat>, k: nat)
    requires k < |c| && forall i :: 0 <= i < |c| ==> c[i] < |slots|
    ensures Handlers(slots, c[..k + 1]) == Handlers(slots, c[..k]) + [slots[c[k]].handler]
  {
  }

  lemma HandlersAreCalls(slots: seq<Slot>, c: seq<nat>, pending: bool)
    requires c != [] && Distinct(c, |slots|)
    ensures var calls := Calls(slots, Live(c, pending));
      && |c| == |calls| + (if pending then 1 else 0)
      && forall i :: 0 <= i < |calls| ==> Handlers(slots, c)[i] == calls[i].handler
  {
  }

  /** Align(PC, 4) for an instruction at this address. */
  function AlignedPc(at: int): int { (at + 4) / 4 * 4 }

  // the instructions of a slot, as the ARMv6-M Architecture Reference Manual encodes them (section A6.7): LDR of a
  // literal into r0, ADR into r1, BLX of r0, and POP of pc alone
  predicate LoadsR0(inst: int) { inst / 0x100 == 0x48 }

  predicate AddsPcToR1(inst: int) { inst / 0x100 == 0xa1 }

  predicate CallsR0(inst: int) { inst == 0x4780 }

  predicate PopsPc(inst: int) { inst == 0xbd00 }

  /** What the first two instructions of a slot come to: the word that the address of the handler is loaded from, the
      address that the handler returns to, and whether the return address of the interrupt has been saved on the way. */
  datatype Entry = Entry(word: int, back: int, saved: bool) | Undefined

  function Enter(slots: seq<Slot>, base: int, i: nat): Entry
    requires i < |slots|
  {
    var at, s := Address(base, i), slots[i];
    if LoadsR0(s.inst1) && CallsR0(s.inst2) then Entry(AlignedPc(at) + 4 * (s.inst1 % 0x100), at + 4, false)
    else if AddsPcToR1(s.inst1) && IsBranch(s.inst2)
            && ResolveBranch(s.inst2, at + 2) == FirstSlotCode(base, |slots|) then
      // push {lr}; ldr r0, [r1, #4]; adds r1, #1; mov lr, r1; bx r0
      var r1 := AlignedPc(at) + 4 * (s.inst1 % 0x100);
      Entry(r1 + 4, r1, true)
    else Undefined
  }

  /** Every slot of a chain loads the word behind its four half words, the address of its handler, which returns to
      inst3; only the first one saves the return address of the interrupt. */
  lemma EntersRight(slots: seq<Slot>, base: Aligned, c: seq<nat>, pending: bool, k: nat)
    requires IsChain(slots, base, c, pending) && k < |c| && |slots| < 0x7f
    ensures c[k] < |slots|
    ensures Enter(slots, base, c[k]) == Entry(Address(base, c[k]) + 8, Inst3(base, c[k]), k == 0)
  {
    EntryOf(slots, base, c, pending, k);
    BranchesReach(base, |slots|, c[k], 0);
    ResolveMade(Inst2(base, c[k]), FirstSlotCode(base, |slots|));
    AlignedSlot(base, c[k]);
    hide IsChain, MakeBranch, ResolveBranch, IsBranch;
  }

  lemma EntryOf(slots: seq<Slot>, base: int, c: seq<nat>, pending: bool, k: nat)
    requires IsChain(slots, base, c, pending) && k < |c|
    ensures c[k] < |slots| && IsEntry(slots, base, c, k)
  {
    hide IsTail, IsEntry;
    if k < LiveCount(c, pending) {
      assert IsLink(slots, base, c, k);
    }
  }

  lemma AlignedSlot(base: Aligned, i: nat)
    ensures AlignedPc(Address(base, i)) == Address(base, i) + 4
  {
  }

  /** What the last instruction does: it returns from the interrupt, or calls the code that unlinks a removed tail. */
  lemma EndsRight(slots: seq<Slot>, base: int, c: seq<nat>, pending: bool)
    requires IsChain(slots, base, c, pending) && c != [] && |slots| < 0x7f
    ensures c[|c| - 1] < |slots|
    ensures Ends(slots, base, c[|c| - 1], pending)
  {
    hide TailOffset, TailLink, TailPriority, FirstBranch, NextBranch, RemoveTailCode, CallTarget;
    if pending {
      TailCalls(slots, base, c[|c| - 1]);
    } else {
      assert IsLink(slots, base, c, |c| - 1);
    }
  }

  predicate Ends(slots: seq<Slot>, base: int, t: nat, pending: bool)
    requires t < |slots|
  {
    var s := slots[t];
    if pending
    then CallTarget(s.inst3, s.link % 0x100 + 0x100 * s.priority, Inst3(base, t)) == RemoveTailCode(base, |slots|)
    else PopsPc(s.inst3)
  }

  /** What the processor does on interrupt num, instruction by instruction: from the slot in the vector table on, inst1
      and inst2 of a slot call its handler, which returns to inst3, and that branches to the next slot, or not. The way
      leads through all slots of the chain, and all of its handlers are called in order. The return address of the
      interrupt is saved exactly once, and the last instruction takes it back, or calls the code that unlinks a removed
      tail. */
  method Execute(irq: Irq, num: nat) returns (called: seq<nat>, way: seq<nat>, saved: nat)
    requires irq.Valid() && num < irq.vectors.Length && irq.vectors[num].Chain?
    ensures num < |irq.view.chains| && irq.view.chains[num] != []
    ensures forall i :: 0 <= i < |irq.view.chains[num]| ==> irq.view.chains[num][i] < irq.slots.Length
    ensures way == irq.view.chains[num] && saved == 1
    ensures called == Handlers(irq.slots[..], irq.view.chains[num])
    ensures |called| == |irq.CallsOf(num)| + if irq.view.pending[num] then 1 else 0
    ensures forall i :: 0 <= i < |irq.CallsOf(num)| ==> called[i] == irq.CallsOf(num)[i].handler
    ensures Ends(irq.slots[..], irq.base, way[|way| - 1], irq.view.pending[num])
  {
    hide *;
    irq.CallsAre();
    ghost var slots, c, pending := irq.slots[..], irq.view.chains[num], irq.view.pending[num];
    InvParts(slots, irq.base, irq.freeHead, irq.vectors[..], irq.view, num);
    ChainOrNot(irq.vectors[num], c);
    InPool(c, |slots|);
    called, way, saved := [], [], 0;
    var t := irq.vectors[num].slot;
    ghost var k := 0;
    NoHandlers(slots, c);
    while true
      invariant k < |c| && t == c[k] && saved == (if k == 0 then 0 else 1)
      invariant called == Handlers(slots, c[..k]) && way == c[..k]
      decreases |c| - k
    {
      EntersRight(slots, irq.base, c, pending, k);
      NextInstruction(slots, irq.base, c, pending, k);
      FieldsOf(irq.base, t);
      var entry := Enter(irq.slots[..], irq.base, t);
      called := called + [irq.slots[(entry.word - 8 - irq.base) / 12].handler];
      way := way + [t];
      saved := saved + if entry.saved then 1 else 0;
      MoreHandlers(slots, c, k);
      var inst3 := irq.slots[(entry.back - 4 - irq.base) / 12].inst3;
      if !IsBranch(inst3) {
        break;
      }
      AddressOf(irq.base, c[k + 1]);
      t := (ResolveBranch(inst3, entry.back) - irq.base) / 12;
      k := k + 1;
    }
    assert c[..k + 1] == c;
    HandlersAreCalls(slots, c, pending);
    EndsRight(slots, irq.base, c, pending);
  }

  // ----- runs

  /** What an interrupt calls from now on, and whether a removed tail is executing. */
  datatype Line = Line(calls: seq<Call>, tail: bool)

  datatype Operation =
    | AddShared(num: nat, handler: nat, priority: int)
    | RemoveHandler(num: nat, handler: nat, exception: bool)
    | Return(num: nat)

  /** How many slots the lines take. */
  function Used(lines: seq<Line>): nat {
    if lines == [] then 0
    else
      var l := lines[|lines| - 1];
      Used(lines[..|lines| - 1]) + |l.calls| + if l.tail then 1 else 0
  }

  /** The same operation on lists of calls. */
  function Next(lines: seq<Line>, op: Operation): seq<Line>
    requires op.num < |lines|
  {
    var l := lines[op.num];
    match op
    case AddShared(num, handler, priority) => lines[num := Line(Inserted(l.calls, Call(handler, priority)), l.tail)]
    case RemoveHandler(num, handler, exception) =>
      lines[num := Line(Removed(l.calls, handler), exception && RemovesLast(l.calls, handler))]
    case Return(num) => lines[num := Line(l.calls, false)]
  }

  function NextAll(lines: seq<Line>, ops: seq<Operation>): (r: seq<Line>)
    requires forall i :: 0 <= i < |ops| ==> ops[i].num < |lines|
    ensures |r| == |lines|
  {
    if ops == [] then lines else Next(NextAll(lines, ops[..|ops| - 1]), ops[|ops| - 1])
  }

  /** What the operation needs, told from the lists of calls only: an addition needs a slot, and a call of a priority
      that is not above if a removed tail is executing; a removal needs that none is, and a return that one is, in a
      pool of up to seven slots. */
  predicate Allowed(lines: seq<Line>, n: nat, op: Operation) {
    op.num < |lines| &&
    var l := lines[op.num];
    match op
    case AddShared(_, _, priority) =>
      Used(lines) < n && (l.tail ==> exists i :: 0 <= i < |l.calls| && l.calls[i].priority <= priority)
    case RemoveHandler(_, _, _) => !l.tail
    case Return(_) => l.tail && n <= 7
  }

  predicate AllAllowed(lines: seq<Line>, n: nat, ops: seq<Operation>)
    decreases |ops|
  {
    ops == [] || (Allowed(lines, n, ops[0]) && AllAllowed(Next(lines, ops[0]), n, ops[1..]))
  }

  /** What the operation needs, whatever the pool: an addition needs a slot and a walk that is stopped, a removal that
      no removed tail of the interrupt is executing, and a return from one that the search for the slot before it is
      right. */
  ghost predicate Possible(irq: Irq, op: Operation)
    reads irq, irq.slots, irq.vectors
  {
    op.num < |irq.view.chains| && op.num < |irq.view.pending| &&
    var c, tail := irq.view.chains[op.num], irq.view.pending[op.num];
    match op
    case AddShared(_, _, priority) => irq.freeHead >= 0 && Stops(irq.slots[..], c, tail, priority)
    case RemoveHandler(_, _, _) => !tail
    case Return(_) => tail && Reaches(irq.slots[..], c)
  }

  /** No raw handlers are in the vector table. */
  predicate NoRaw(vectors: seq<Vector>) {
    forall m :: 0 <= m < |vectors| ==> !vectors[m].Raw?
  }

  /** The pool is in order, and these are its lines. */
  ghost predicate Shows(irq: Irq, lines: seq<Line>)
    reads irq, irq.slots, irq.vectors
  {
    && irq.Valid() && NoRaw(irq.vectors[..])
    && |lines| == irq.vectors.Length == |irq.view.chains| == |irq.view.pending|
    && forall m :: 0 <= m < |lines| ==> lines[m] == Line(irq.CallsOf(m), irq.view.pending[m])
  }

  lemma {:induction false} UsedIsTotal(lines: seq<Line>, chains: seq<seq<nat>>)
    requires |lines| == |chains|
    requires forall m :: 0 <= m < |lines| ==> |chains[m]| == |lines[m].calls| + if lines[m].tail then 1 else 0
    ensures Used(lines) == Total(chains)
  {
    if lines != [] {
      UsedIsTotal(lines[..|lines| - 1], chains[..|chains| - 1]);
    }
  }

  /** There is a free slot, as long as the lines do not take all of them. */
  lemma HasFree(irq: Irq, lines: seq<Line>)
    requires Shows(irq, lines) && Used(lines) < irq.slots.Length
    ensures irq.freeHead >= 0
  {
    irq.CallsAre();
    forall m | 0 <= m < |lines|
      ensures |irq.view.chains[m]| == |lines[m].calls| + if lines[m].tail then 1 else 0
    {
      assert lines[m] == Line(irq.CallsOf(m), irq.view.pending[m]);
      LiveSize(irq, m);
    }
    UsedIsTotal(lines, irq.view.chains);
    AllSlots(irq.slots[..], irq.base, irq.freeHead, irq.vectors[..], irq.view);
    hide *;
  }

  lemma LiveSize(irq: Irq, m: nat)
    requires irq.Valid() && m < |irq.view.chains| == irq.vectors.Length
    ensures |irq.view.chains[m]| == |irq.CallsOf(m)| + if irq.view.pending[m] then 1 else 0
  {
    hide Inv, IsChain, Owned, IsFree;
    InvParts(irq.slots[..], irq.base, irq.freeHead, irq.vectors[..], irq.view, m);
    PendingNotEmpty(irq.slots[..], irq.base, irq.view.chains[m], irq.view.pending[m]);
  }

  /** A call of a priority that is not above stops the walk, which ends then. */
  lemma CallStops(irq: Irq, lines: seq<Line>, num: nat, priority: int)
    requires Shows(irq, lines) && num < |lines|
    requires lines[num].tail ==> exists i :: 0 <= i < |lines[num].calls| && lines[num].calls[i].priority <= priority
    ensures Stops(irq.slots[..], irq.view.chains[num], irq.view.pending[num], priority)
    ensures WalkEnds(irq.slots[..], irq.vectors[num], priority)
  {
    var slots, c, pending := irq.slots[..], irq.view.chains[num], irq.view.pending[num];
    ShowsParts(irq, lines);
    irq.CallsAre();
    InvParts(slots, irq.base, irq.freeHead, irq.vectors[..], irq.view, num);
    ChainOrNot(irq.vectors[num], c);
    hide *;
    CallsStop(slots, c, pending, lines[num].calls, priority);
    StopEnds(slots, irq.base, c, pending, irq.vectors[num], priority);
  }

  lemma CallsStop(slots: seq<Slot>, c: seq<nat>, pending: bool, calls: seq<Call>, priority: int)
    requires Distinct(c, |slots|) && calls == Calls(slots, Live(c, pending))
    requires pending ==> exists i :: 0 <= i < |calls| && calls[i].priority <= priority
    ensures Stops(slots, c, pending, priority)
  {
    if pending {
      var i :| 0 <= i < |calls| && calls[i].priority <= priority;
      CallInChain(slots, c, pending, calls, i);
      assert slots[c[i]].priority <= priority;
    }
  }

  lemma StopEnds(slots: seq<Slot>, base: int, c: seq<nat>, pending: bool, vector: Vector, priority: int)
    requires IsChain(slots, base, c, pending) && Distinct(c, |slots|) && Stops(slots, c, pending, priority)
    requires (vector.Chain? <==> c != []) && (c != [] ==> vector == Chain(c[0]))
    ensures WalkEnds(slots, vector, priority)
  {
    hide IsChain, Stops, EndsAt;
    if c != [] {
      var p := StopsInPlace(slots, base, c, pending, priority);
    }
  }

  lemma CallInChain(slots: seq<Slot>, c: seq<nat>, pending: bool, calls: seq<Call>, i: nat)
    requires Distinct(c, |slots|) && calls == Calls(slots, Live(c, pending)) && i < |calls|
    ensures i < |c| && c[i] < |slots| && calls[i].priority == slots[c[i]].priority
  {
  }

  // ----- the operations on lines

  lemma ShowsParts(irq: Irq, lines: seq<Line>)
    requires Shows(irq, lines)
    ensures irq.Valid() && |lines| == irq.vectors.Length == |irq.view.chains| == |irq.view.pending|
    ensures forall m :: 0 <= m < |lines| ==> lines[m].calls == irq.CallsOf(m) && lines[m].tail == irq.view.pending[m]
    ensures forall m :: 0 <= m < |lines| ==> !irq.vectors[m].Raw?
  {
    hide Irq.Valid, Irq.CallsOf;
    forall m | 0 <= m < |lines| ensures !irq.vectors[m].Raw? {
      assert !irq.vectors[..][m].Raw?;
    }
  }

  /** One line has changed. */
  lemma ShowsNext(irq: Irq, lines: seq<Line>, num: nat, line: Line)
    requires irq.Valid() && num < |lines| == irq.vectors.Length == |irq.view.chains| == |irq.view.pending|
    requires forall m :: 0 <= m < |lines| ==> !irq.vectors[m].Raw?
    requires forall m :: 0 <= m < |lines| && m != num ==>
      lines[m].calls == irq.CallsOf(m) && lines[m].tail == irq.view.pending[m]
    requires line.calls == irq.CallsOf(num) && line.tail == irq.view.pending[num]
    ensures Shows(irq, lines[num := line])
  {
    hide Irq.Valid, Irq.CallsOf;
  }

  lemma AddMakes(lines: seq<Line>, num: nat, handler: nat, priority: int) returns (line: Line)
    requires num < |lines|
    ensures line == Line(Inserted(lines[num].calls, Call(handler, priority)), lines[num].tail)
    ensures Next(lines, AddShared(num, handler, priority)) == lines[num := line]
  {
    hide Inserted;
    line := Line(Inserted(lines[num].calls, Call(handler, priority)), lines[num].tail);
  }

  lemma AddKeepsPending(v: View, v': View, m: nat, p: nat)
    requires IsAdd(v, v', m, p)
    ensures v'.pending == v.pending
  {
  }

  method PerformAdd(irq: Irq, num: nat, handler: nat, priority: int, ghost lines: seq<Line>)
    requires Shows(irq, lines) && num < |lines| && Possible(irq, AddShared(num, handler, priority))
    modifies irq, irq.slots, irq.vectors
    ensures Shows(irq, Next(lines, AddShared(num, handler, priority)))
  {
    hide *;
    ghost var v := irq.view;
    ghost var line := AddMakes(lines, num, handler, priority);
    ShowsParts(irq, lines);
    AddPossible(irq, num, handler, priority);
    ghost var p := irq.Add(num, handler, priority);
    AddKeepsPending(v, irq.view, num, p);
    ShowsNext(irq, lines, num, line);
  }

  lemma AddPossible(irq: Irq, num: nat, handler: nat, priority: int)
    requires irq.Valid() && num < irq.vectors.Length && Possible(irq, AddShared(num, handler, priority))
    ensures irq.freeHead >= 0 && num < |irq.view.chains| == |irq.view.pending|
    ensures Stops(irq.slots[..], irq.view.chains[num], irq.view.pending[num], priority)
    ensures WalkEnds(irq.slots[..], irq.vectors[num], priority)
  {
    hide Stops, Inv, IsChain, Owned, IsFree, WalkEnds;
    var slots, c := irq.slots[..], irq.view.chains[num];
    irq.CallsAre();
    InvParts(slots, irq.base, irq.freeHead, irq.vectors[..], irq.view, num);
    ChainOrNot(irq.vectors[num], c);
    StopEnds(slots, irq.base, c, irq.view.pending[num], irq.vectors[num], priority);
  }

  method PerformRemove(irq: Irq, num: nat, handler: nat, exception: bool, ghost lines: seq<Line>)
    requires Shows(irq, lines) && num < |lines| && Possible(irq, RemoveHandler(num, handler, exception))
    modifies irq, irq.slots, irq.vectors
    ensures Shows(irq, Next(lines, RemoveHandler(num, handler, exception)))
  {
    hide Irq.Valid, Irq.CallsOf, Removed, RemovesLast, Used;
    irq.Remove(num, handler, exception);
  }

  /** The interrupt returns through the removed tail. */
  method PerformReturn(irq: Irq, num: nat, ghost lines: seq<Line>)
    requires Shows(irq, lines) && num < |lines| && Possible(irq, Return(num))
    modifies irq, irq.slots, irq.vectors
    ensures Shows(irq, Next(lines, Return(num)))
  {
    hide *;
    ghost var v := irq.view;
    ghost var line := ReturnMakes(lines, num);
    ShowsParts(irq, lines);
    ReturnPossible(irq, num);
    var _, way, _ := Execute(irq, num);
    irq.DropTail(num, way[|way| - 1]);
    CutKeepsPending(v, num);
    ShowsNext(irq, lines, num, line);
  }

  lemma ReturnPossible(irq: Irq, num: nat)
    requires irq.Valid() && num < irq.vectors.Length && Possible(irq, Return(num))
    ensures num < |irq.view.chains| == |irq.view.pending| && irq.view.pending[num]
    ensures irq.view.chains[num] != [] && irq.vectors[num].Chain? && Reaches(irq.slots[..], irq.view.chains[num])
  {
    hide IsChain, Owned, IsFree, Reaches, Inv;
    var slots, c := irq.slots[..], irq.view.chains[num];
    irq.CallsAre();
    InvParts(slots, irq.base, irq.freeHead, irq.vectors[..], irq.view, num);
    PendingNotEmpty(slots, irq.base, c, irq.view.pending[num]);
    ChainOrNot(irq.vectors[num], c);
  }

  lemma ReturnMakes(lines: seq<Line>, num: nat) returns (line: Line)
    requires num < |lines|
    ensures line == Line(lines[num].calls, false)
    ensures Next(lines, Return(num)) == lines[num := line]
  {
    line := Line(lines[num].calls, false);
  }

  lemma CutKeepsPending(v: View, m: nat)
    requires m < |v.chains| == |v.pending| && v.chains[m] != [] && v.chains[m][|v.chains[m]| - 1] < |v.owner|
    ensures |ViewCut(v, m).chains| == |v.chains| == |ViewCut(v, m).pending| && !ViewCut(v, m).pending[m]
    ensures forall i :: 0 <= i < |v.pending| && i != m ==> ViewCut(v, m).pending[i] == v.pending[i]
  {
  }

  /** What the lists of calls allow is possible. */
  lemma AllowedIsPossible(irq: Irq, lines: seq<Line>, op: Operation)
    requires Shows(irq, lines) && Allowed(lines, irq.slots.Length, op)
    ensures Possible(irq, op)
  {
    hide Irq.Valid, Irq.CallsOf, Stops, Reaches, Used, WalkEnds;
    ShowsParts(irq, lines);
    match op {
      case AddShared(num, handler, priority) =>
        HasFree(irq, lines);
        CallStops(irq, lines, num, priority);
      case RemoveHandler(num, handler, exception) =>
      case Return(num) => SmallReaches(irq, num);
    }
  }

  lemma SmallReaches(irq: Irq, num: nat)
    requires irq.Valid() && num < irq.vectors.Length && irq.slots.Length <= 7
    requires num < |irq.view.pending| && irq.view.pending[num]
    ensures num < |irq.view.chains| && Reaches(irq.slots[..], irq.view.chains[num])
  {
    hide IsChain, Owned, IsFree, Reaches, Inv;
    irq.CallsAre();
    var slots, c := irq.slots[..], irq.view.chains[num];
    InvParts(slots, irq.base, irq.freeHead, irq.vectors[..], irq.view, num);
    PendingNotEmpty(slots, irq.base, c, irq.view.pending[num]);
    SmallPoolReaches(slots, irq.base, irq.freeHead, irq.vectors[..], irq.view, num);
  }

  /** The slots of an interrupt, and whether the last one is a removed tail. */
  method Look(irq: Irq, num: nat) returns (way: seq<nat>, tail: bool)
    requires irq.Valid() && num < irq.vectors.Length
    ensures num < |irq.view.chains| == |irq.view.pending|
    ensures way == irq.view.chains[num] && tail == irq.view.pending[num]
  {
    hide *;
    irq.CallsAre();
    ghost var slots, c, pending := irq.slots[..], irq.view.chains[num], irq.view.pending[num];
    InvParts(slots, irq.base, irq.freeHead, irq.vectors[..], irq.view, num);
    ChainOrNot(irq.vectors[num], c);
    PendingNotEmpty(slots, irq.base, c, pending);
    way, tail := [], false;
    if irq.vectors[num].Chain? {
      var _, w, _ := Execute(irq, num);
      LastInstruction(slots, irq.base, c, pending);
      way, tail := w, irq.slots[w[|w| - 1]].inst3 != 0xbd00;
    }
  }

  lemma LastInstruction(slots: seq<Slot>, base: int, c: seq<nat>, pending: bool)
    requires IsChain(slots, base, c, pending) && c != [] && |slots| < 0x7f
    // POP_PC
    ensures c[|c| - 1] < |slots| && (slots[c[|c| - 1]].inst3 != 0xbd00 <==> pending)
  {
    hide TailOffset, TailLink, TailPriority, FirstBranch, NextBranch;
    if !pending {
      assert IsLink(slots, base, c, |c| - 1);
    }
  }

  method IsPossible(irq: Irq, op: Operation) returns (possible: bool)
    requires irq.Valid() && op.num < irq.vectors.Length
    ensures possible == Possible(irq, op)
  {
    hide Irq.Valid, Stops, Reaches;
    var way, tail := Look(irq, op.num);
    possible := match op
      case AddShared(_, _, priority) => irq.freeHead >= 0 && Stops(irq.slots[..], way, tail, priority)
      case RemoveHandler(_, _, _) => !tail
      case Return(_) => tail && Reaches(irq.slots[..], way);
  }

  method Perform(irq: Irq, op: Operation, ghost lines: seq<Line>)
    requires Shows(irq, lines) && op.num < |lines| && Possible(irq, op)
    modifies irq, irq.slots, irq.vectors
    ensures Shows(irq, Next(lines, op))
  {
    hide Shows, Possible, Next;
    match op {
      case AddShared(num, handler, priority) => PerformAdd(irq, num, handler, priority, lines);
      case RemoveHandler(num, handler, exception) => PerformRemove(irq, num, handler, exception, lines);
      case Return(num) => PerformReturn(irq, num, lines);
    }
  }

  /** Any run of additions, removals and returns, up to the first one that is not possible: the pool stays in order, and
      the interrupts call what the same run on lists of calls comes to. A run that the lists of calls allow has no such
      operation. */
  method Run(irq: Irq, ops: seq<Operation>, ghost lines: seq<Line>) returns (done: nat)
    requires Shows(irq, lines) && forall i :: 0 <= i < |ops| ==> ops[i].num < |lines|
    modifies irq, irq.slots, irq.vectors
    ensures done <= |ops| && Shows(irq, NextAll(lines, ops[..done]))
    ensures done < |ops| ==> !Possible(irq, ops[done])
    ensures AllAllowed(lines, irq.slots.Length, ops) ==> done == |ops|
  {
    hide *;
    ghost var n := irq.slots.Length;
    ghost var now := lines;
    done := 0;
    NothingNext(lines);
    assert ops[0..] == ops && ops[..0] == [];
    while done < |ops|
      invariant done <= |ops| && |now| == |lines| && Shows(irq, now) && now == NextAll(lines, ops[..done])
      invariant AllAllowed(lines, n, ops) ==> AllAllowed(now, n, ops[done..])
    {
      ShowsParts(irq, now);
      var possible := IsPossible(irq, ops[done]);
      if AllAllowed(lines, n, ops) {
        NextAllowed(now, n, ops, done);
        AllowedIsPossible(irq, now, ops[done]);
      }
      if !possible {
        return;
      }
      Perform(irq, ops[done], now);
      NextOne(lines, ops, done);
      now := Next(now, ops[done]);
      done := done + 1;
    }
  }

  lemma NothingNext(lines: seq<Line>)
    ensures NextAll(lines, []) == lines
  {
  }

  lemma NextAllowed(now: seq<Line>, n: nat, ops: seq<Operation>, i: nat)
    requires i < |ops| && AllAllowed(now, n, ops[i..])
    ensures Allowed(now, n, ops[i]) && ops[i].num < |now| && AllAllowed(Next(now, ops[i]), n, ops[i + 1..])
  {
    hide Used, Next;
    assert ops[i..][0] == ops[i] && ops[i..][1..] == ops[i + 1..];
  }

  lemma NextOne(lines: seq<Line>, ops: seq<Operation>, i: nat)
    requires i < |ops| && forall i :: 0 <= i < |ops| ==> ops[i].num < |lines|
    ensures NextAll(lines, ops[..i + 1]) == Next(NextAll(lines, ops[..i]), ops[i])
  {
    hide Next;
    assert ops[..i + 1][..i] == ops[..i];
  }

  /** The initial pool shows empty lines. */
  method Start(base: Aligned, n: nat, irqs: nat) returns (irq: Irq)
    requires 0 < n < 0x7f
    ensures Shows(irq, seq(irqs, _ => Line([], false))) && irq.slots.Length == n && irq.vectors.Length == irqs
    ensures fresh(irq) && fresh(irq.slots) && fresh(irq.vectors)
  {
    hide Irq.Valid;
    irq := new Irq(base, n, irqs);
  }

  // ----- a pool in which the search for the slot before a removed tail goes wrong

  /** The view on the way there: so many slots are taken, and c are those on interrupt 0. */
  ghost predicate FilledView(v: View, taken: nat, c: seq<nat>) {
    && |v.chains| == |v.pending| == 2 && !v.pending[0] && !v.pending[1] && v.chains[0] == c
    && |v.free| + taken == 15 && forall i :: 0 <= i < |v.free| ==> v.free[i] == taken + i
  }

  ghost predicate Filled(irq: Irq, taken: nat, c: seq<nat>)
    reads irq, irq.slots, irq.vectors
  {
    && irq.Valid() && irq.slots.Length == 15 && irq.vectors.Length == 2
    && !irq.vectors[0].Raw? && !irq.vectors[1].Raw? && FilledView(irq.view, taken, c)
  }

  lemma FilledParts(irq: Irq, taken: nat, c: seq<nat>)
    requires Filled(irq, taken, c)
    ensures irq.Valid() && Inv(irq.slots[..], irq.base, irq.freeHead, irq.vectors[..], irq.view)
    ensures irq.slots.Length == 15 && irq.vectors.Length == 2 && !irq.vectors[0].Raw? && !irq.vectors[1].Raw?
    ensures FilledView(irq.view, taken, c) && |irq.view.chains| == |irq.view.pending| == 2
    ensures !irq.view.pending[0] && !irq.view.pending[1] && irq.view.chains[0] == c
    ensures taken < 15 ==> irq.view.free != [] && irq.view.free[0] == taken
  {
    hide Inv;
  }

  lemma FilledIs(irq: Irq, taken: nat, c: seq<nat>)
    requires irq.Valid() && irq.slots.Length == 15 && irq.vectors.Length == 2
    requires !irq.vectors[0].Raw? && !irq.vectors[1].Raw? && FilledView(irq.view, taken, c)
    ensures Filled(irq, taken, c)
  {
    hide Irq.Valid, FilledView;
  }

  lemma EmptyView(v: View)
    requires |v.chains| == |v.pending| == 2 && v.chains[0] == [] && !v.pending[0] && !v.pending[1]
    requires |v.free| == 15 && forall i :: 0 <= i < 15 ==> v.free[i] == i
    ensures FilledView(v, 0, [])
  {
  }

  lemma AddView(v: View, v': View, m: nat, p: nat, taken: nat, c: seq<nat>)
    requires IsAdd(v, v', m, p) && FilledView(v, taken, c) && taken < 15 && m < 2
    ensures m == 0 ==> p <= |c|
    ensures FilledView(v', taken + 1, if m == 0 then c[..p] + [taken] + c[p..] else c)
  {
  }

  /** An addition to an interrupt on which no removed tail executes. */
  method FillOne(irq: Irq, num: nat, handler: nat, priority: int, ghost taken: nat,
                 ghost c: seq<nat>) returns (ghost p: nat)
    requires Filled(irq, taken, c) && taken < 15 && num < 2
    modifies irq, irq.slots, irq.vectors
    ensures num == 0 ==> p <= |c| && IsPlace(old(irq.slots[..]), c, LiveCount(c, false), p, priority)
    ensures Filled(irq, taken + 1, if num == 0 then c[..p] + [taken] + c[p..] else c)
    ensures irq.Valid() && |irq.view.chains| == 2
    ensures irq.CallsOf(num) == Inserted(old(irq.CallsOf(num)), Call(handler, priority))
  {
    hide *;
    FilledParts(irq, taken, c);
    ghost var v, slots := irq.view, irq.slots[..];
    InvOwned(slots, irq.base, irq.freeHead, irq.vectors[..], v);
    InvParts(slots, irq.base, irq.freeHead, irq.vectors[..], v, num);
    ChainOrNot(irq.vectors[num], v.chains[num]);
    NotPendingStops(slots, v.chains[num], priority);
    StopEnds(slots, irq.base, v.chains[num], false, irq.vectors[num], priority);
    p := irq.Add(num, handler, priority);
    AddView(v, irq.view, num, p, taken, c);
    AddKeepsPending(v, irq.view, num, p);
    FilledIs(irq, taken + 1, if num == 0 then c[..p] + [taken] + c[p..] else c);
  }

  lemma NotPendingStops(slots: seq<Slot>, c: seq<nat>, priority: int)
    ensures Stops(slots, c, false, priority)
  {
  }

  lemma NoCalls(irq: Irq, taken: nat)
    requires Filled(irq, taken, [])
    ensures irq.CallsOf(0) == []
  {
    hide Irq.Valid, Irq.CallsOf;
    LiveSize(irq, 0);
  }

  /** The first call of a chain of one slot is that of the slot. */
  lemma OneCall(irq: Irq, taken: nat, s: nat, x: Call)
    requires Filled(irq, taken, [s]) && irq.CallsOf(0) == [x]
    ensures s < irq.slots.Length && irq.slots[..][s].priority == x.priority
  {
    irq.CallsAre();
    var l := Live(irq.view.chains[0], irq.view.pending[0]);
    assert l == [s] && irq.CallsOf(0)[0].priority == irq.slots[..][l[0]].priority;
  }

  lemma InFront(slots: seq<Slot>, s: nat, p: nat, priority: int)
    requires s < |slots| && slots[s].priority <= priority && IsPlace(slots, [s], LiveCount([s], false), p, priority)
    ensures p == 0
  {
    assert [s][0] == s;
  }

  lemma TwoCalls(x: Call, y: Call)
    requires x.priority < y.priority && x.handler != y.handler
    ensures Inserted([], x) == [x] && Inserted([x], y) == [y, x] && RemovesLast([y, x], x.handler)
  {
  }

  /** A pool of 15 slots: 13 handlers on interrupt 1, two on interrupt 0, of which the last one removes itself while it
      executes. When it returns, the search comes upon the removed tail itself, and the pool is left out of order. */
  method Misled(base: Aligned) returns (irq: Irq)
    ensures !irq.Valid()
  {
    hide *;
    irq := new Irq(base, 15, 2);
    EmptyView(irq.view);
    FilledIs(irq, 0, []);
    for k := 0 to 13
      invariant Filled(irq, k, []) && fresh(irq) && fresh(irq.slots) && fresh(irq.vectors)
    {
      ghost var _ := FillOne(irq, 1, k, 0x80, k, []);
    }
    NoCalls(irq, 13);
    ghost var x, y := Call(100, 0x80), Call(101, 0x90);
    TwoCalls(x, y);
    ghost var p := FillOne(irq, 0, 100, 0x80, 13, []);
    assert p == 0 && [][..0] + [13] + [][0..] == [13];
    OneCall(irq, 14, 13, x);
    ghost var slots := irq.slots[..];
    p := FillOne(irq, 0, 101, 0x90, 14, [13]);
    InFront(slots, 13, p, 0x90);
    assert [13][..0] + [14] + [13][0..] == [14, 13];
    RemoveAndReturn(irq, [y, x]);
  }

  method RemoveAndReturn(irq: Irq, ghost calls: seq<Call>)
    requires Filled(irq, 15, [14, 13]) && irq.CallsOf(0) == calls && RemovesLast(calls, 100)
    modifies irq, irq.slots, irq.vectors
    ensures !irq.Valid()
  {
    hide Irq.CallsOf, Removed, RemovesLast, Reaches, Inv;
    irq.Remove(0, 100, true);
    SelfDecoy(irq.slots[..], irq.base, irq.freeHead, irq.vectors[..], irq.view, 0);
    irq.DropTail(0, 13);
  }
}
