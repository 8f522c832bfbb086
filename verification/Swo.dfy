/** The SWO trace ring: filled by receive interrupts, emptied by SWO_Data, on indices that run freely modulo 2^32. */
module Swo {
  import opened Bits
  import opened Words

  // the number of values of an index
  const WRAP: nat := 0x1_0000_0000

  const TRACE_BLOCK_SIZE: nat := 64

  /** A count as a 32-bit index. */
  function Wrap(n: int): (w: nat)
    ensures w < WRAP
  {
    n % WRAP
  }

  lemma WrapAdd(a: int, b: int)
    ensures Wrap(Wrap(a) + b) == Wrap(a + b)
  {
  }

  /** The difference of two indices is that of the counts, while these are less than 2^32 apart. */
  lemma WrapDifference(a: nat, b: nat)
    requires b <= a < b + WRAP
    ensures Wrap(Wrap(a) - Wrap(b)) == a - b
  {
  }

  /** The size of the ring is a power of two. */
  predicate IsRing(size: nat) { size > 0 && size < WRAP && size % TRACE_BLOCK_SIZE == 0 && WRAP % size == 0 }

  function Rem(a: nat, n: nat): nat
    requires n > 0
  {
    a % n
  }

  lemma RemStep(a: nat, n: nat)
    requires n > 0
    ensures Rem(a + n, n) == Rem(a, n)
    ensures a < n ==> Rem(a, n) == a
  {
    DivModStep(a, n);
  }

  lemma {:induction false} SameRem(a: nat, d: nat, n: nat)
    requires n > 0 && Divides(n, d)
    ensures Rem(a + d, n) == Rem(a, n)
    decreases d
  {
    hide Rem, Divides;
    MultipleBelow(d, n);
    if d > 0 {
      SameRem(a, d - n, n);
      RemStep(a + d - n, n);
    }
  }

  /** The remainder of a remainder. */
  lemma {:induction false} RemOfRem(a: nat, d: nat, n: nat)
    requires n > 0 && d > 0 && Divides(n, d)
    ensures Rem(Rem(a, d), n) == Rem(a, n)
    decreases a
  {
    hide Rem, Divides;
    RemStep(a, d);
    if a >= d {
      RemStep(a - d, d);
      RemOfRem(a - d, d, n);
      SameRem(a - d, d, n);
    }
  }

  /** The place of a count in the ring, from its index. */
  lemma PlaceOf(a: nat, size: nat)
    requires IsRing(size)
    ensures Wrap(a) % size == a % size && Wrap(a) % TRACE_BLOCK_SIZE == a % TRACE_BLOCK_SIZE
  {
    RemOfRem(a, WRAP, size);
    RemOfRem(a, WRAP, TRACE_BLOCK_SIZE);
  }

  /** Positions in a stretch that does not wrap around. */
  lemma PlaceInBlock(a: nat, g: nat, size: nat)
    requires size > 0 && a % size + g < size
    ensures (a + g) % size == a % size + g
  {
    assert a + g == size * (a / size) + (a % size + g);
    DivUnique(a + g, size, a / size, a % size + g);
  }

  /** Within one ring size, different counts have different places. */
  lemma PlacesDiffer(a: nat, b: nat, size: nat)
    requires size > 0 && a < b < a + size
    ensures a % size != b % size
  {
    var r, g := a % size, b - a;
    if r + g < size {
      PlaceInBlock(a, g, size);
    } else {
      assert b == size * (a / size) + r + g;
      assert b == size * (a / size + 1) + (r + g - size);
      DivUnique(b, size, a / size + 1, r + g - size);
    }
  }

  /** A block up to the next multiple of the block size does not wrap around. */
  lemma BlockFits(a: nat, size: nat)
    requires IsRing(size)
    ensures a % size + (TRACE_BLOCK_SIZE - a % TRACE_BLOCK_SIZE) <= size
  {
    RemOfRem(a, size, TRACE_BLOCK_SIZE);
    var off := a % size;
    assert off % TRACE_BLOCK_SIZE == a % TRACE_BLOCK_SIZE;
    NextMultiple(off, size);
  }

  lemma {:induction false} NextMultiple(off: nat, size: nat)
    requires off < size && size % TRACE_BLOCK_SIZE == 0
    ensures off + (TRACE_BLOCK_SIZE - off % TRACE_BLOCK_SIZE) <= size
  {
  }

  /** The bytes between two counts are in the ring. */
  ghost predicate InRing(buf: seq<byte>, received: seq<byte>, from: nat) {
    |buf| > 0 && forall k :: from <= k < |received| ==> buf[k % |buf|] == received[k]
  }

  lemma StoreByte(buf: seq<byte>, received: seq<byte>, from: nat, b: byte)
    requires |buf| > 0 && InRing(buf, received, from) && from <= |received| < from + |buf|
    ensures InRing(buf[|received| % |buf| := b], received + [b], from)
  {
    var buf', received' := buf[|received| % |buf| := b], received + [b];
    forall k | from <= k < |received'| ensures buf'[k % |buf'|] == received'[k] {
      if k < |received| {
        PlacesDiffer(k, |received|, |buf|);
      }
    }
  }

  /** The bytes from a count on to the next multiple of the block size. */
  function BlockLeft(n: nat): nat { TRACE_BLOCK_SIZE - n % TRACE_BLOCK_SIZE }

  /** The trace buffer, its indices, and the USART that fills it. */
  class Trace {
    const size: nat
    const buf: array<byte>
    var indexI: nat
    var indexO: nat
    var blockSize: nat
    var active: bool
    var paused: bool
    var update: bool
    var transport: nat
    // the USART: a receive of rxNum bytes to buf[rxOff..] is under way, and rxGot of them have come
    var ready: bool
    var rxBusy: bool
    var rxOff: nat
    var rxNum: nat
    var rxGot: nat
    // what the wire is going to bring, burst by burst, between the steps of the code below
    var arrivals: seq<seq<byte>>
    // all bytes captured and all bytes handed out since the capture was started
    ghost var received: seq<byte>
    ghost var handed: seq<byte>

    constructor (size: nat, transport: nat, arrivals: seq<seq<byte>>)
      requires IsRing(size)
      ensures Valid() && this.size == size && !active && received == [] && handed == [] && this.arrivals == arrivals
      ensures !paused && !update && ready && !rxBusy && this.transport == transport
    {
      this.size := size;
      buf := new byte[size](_ => 0);
      indexI, indexO, blockSize := 0, 0, 0;
      active, paused, update, ready, this.transport := false, false, false, true, transport;
      rxBusy, rxOff, rxNum, rxGot := false, 0, 0, 0;
      this.arrivals := arrivals;
      received, handed := [], [];
    }

    /** The bytes received so far that the incoming index counts: all but those of the block under way. */
    ghost function Counted(): int
      reads `received, `rxBusy, `rxGot
    {
      |received| - (if rxBusy then rxGot else 0)
    }

    /** Everything that has not been handed out is in the ring, the block under way is contiguous and has room, and what
        was handed out are the received bytes, in order. */
    ghost predicate Safe()
      reads `received, `handed, `indexI, `indexO, `blockSize, `rxBusy, `rxOff, `rxNum, `rxGot, buf
    {
      && IsRing(size) && buf.Length == size && handed <= received && Counted() >= 0
      && indexI == Wrap(Counted()) && indexO == Wrap(|handed|)
      && Counted() + (if rxBusy then rxNum else 0) <= |handed| + size
      && (rxBusy ==> rxGot < rxNum == blockSize && rxOff == Counted() % size && rxOff + rxNum <= size)
      && InRing(buf[..], received, |handed|)
    }

    /** After a completed receive, between blocks or at the start of one. */
    lemma IsSafe()
      requires IsRing(size) && buf.Length == size && handed <= received && indexO == Wrap(|handed|)
      requires (rxBusy ==> rxGot == 0) && indexI == Wrap(|received|)
      requires |received| + (if rxBusy then rxNum else 0) <= |handed| + size
      requires rxBusy ==> 0 < rxNum == blockSize && rxOff == |received| % size && rxOff + rxNum <= size
      requires InRing(buf[..], received, |handed|)
      ensures Safe()
    {
      hide IsRing, InRing, Wrap;
    }

    ghost predicate Valid()
      reads `received, `handed, `indexI, `indexO, `blockSize, `rxBusy, `rxOff, `rxNum, `rxGot, `active, `paused, buf
    {
      Safe() && (rxBusy ==> active && !paused)
    }

    /** A capture that is neither stopped nor paused receives, and no burst brings as many bytes as the ring has. */
    ghost predicate Goes()
      reads `active, `paused, `rxBusy, `arrivals
    {
      (active && !paused ==> rxBusy) && Short(arrivals, size)
    }

    /** The ring has no room for the rest of a block. */
    ghost predicate Full()
      reads `received, `handed
    {
      |received| + BlockLeft(|received|) > |handed| + size
    }

    /** The receive of the USART driver. */
    method Receive(off: nat, num: nat)
      requires num > 0
      modifies this`rxBusy, this`rxOff, this`rxNum, this`rxGot
      ensures rxBusy && rxOff == off && rxNum == num && rxGot == 0
    {
      rxBusy, rxOff, rxNum, rxGot := true, off, num, 0;
    }

    /** USART_Callback on completion of a receive. */
    method Complete()
      requires IsRing(size) && buf.Length == size && handed <= received && !rxBusy && blockSize <= |received|
      requires indexI == Wrap(|received| - blockSize) && indexO == Wrap(|handed|) && |received| <= |handed| + size
      requires InRing(buf[..], received, |handed|)
      modifies this`indexI, this`blockSize, this`active, this`paused, this`update, this`rxBusy, this`rxOff,
        this`rxNum, this`rxGot
      ensures Safe() && update
      ensures rxBusy <==> !Full()
      ensures if rxBusy
        then rxNum == BlockLeft(|received|) && rxGot == 0 && active == old(active) && paused == old(paused)
        else active && paused
    {
      hide IsRing, InRing, Wrap, BlockLeft, Safe;
      var o := indexO;
      WrapAdd(|received| - blockSize, blockSize);
      var i := Wrap(indexI + blockSize);
      indexI := i;
      RingFits(|received|, |handed|, size);
      assert i == Wrap(|received|);
      var num := TRACE_BLOCK_SIZE - i % TRACE_BLOCK_SIZE;
      var count := Wrap(i - o);
      assert num == BlockLeft(|received|) && count == |received| - |handed|;
      if count <= size - num {
        blockSize := num;
        Receive(i % size, num);
      } else {
        active, paused := true, true;
      }
      update := true;
      IsSafe();
    }

    /** A byte comes in on the wire. */
    method Arrive(b: byte)
      requires Safe()
      modifies this`indexI, this`blockSize, this`active, this`paused, this`update, this`rxBusy, this`rxOff, this`rxNum,
        this`rxGot, this`received, buf
      ensures Safe() && received == if old(rxBusy) then old(received) + [b] else old(received)
      ensures old(Valid()) ==> Valid()
      ensures if old(rxBusy) then rxBusy || (active && paused && Full())
        else !rxBusy && active == old(active) && paused == old(paused)
      ensures !update ==> indexI == old(indexI) && rxBusy == old(rxBusy) && Counted() == old(Counted()) && !old(update)
    {
      if rxBusy {
        Keep(b);
        if rxGot == rxNum {
          rxBusy := false;
          Complete();
        }
      }
    }

    /** The USART stores a byte. */
    method Keep(b: byte)
      requires Safe() && rxBusy
      modifies this`rxGot, this`received, buf
      ensures rxGot == old(rxGot) + 1 <= rxNum && received == old(received) + [b] && handed <= received
      ensures |received| - rxGot == old(|received| - rxGot) && InRing(buf[..], received, |handed|)
    {
      hide IsRing, InRing, Wrap;
      PlaceInBlock(Counted(), rxGot, size);
      StoreByte(buf[..], received, |handed|, b);
      buf[rxOff + rxGot] := b;
      rxGot := rxGot + 1;
      received := received + [b];
    }

    /** The receive interrupts between two steps of the code. */
    method Tick()
      requires Safe()
      modifies this`indexI, this`blockSize, this`active, this`paused, this`update, this`rxBusy, this`rxOff, this`rxNum,
        this`rxGot, this`received, this`arrivals, buf
      ensures Safe() && old(received) <= received && |arrivals| <= |old(arrivals)|
      ensures (old(Valid()) ==> Valid()) && (old(Goes()) ==> Goes())
      ensures Short(old(arrivals), size) ==> Short(arrivals, size) && |received| < |old(received)| + size
      ensures if old(arrivals) == [] then received == old(received) && arrivals == []
        else arrivals == old(arrivals)[1..] && (old(rxBusy) && rxBusy ==> received == old(received) + old(arrivals)[0])
      ensures !update ==> indexI == old(indexI) && rxBusy == old(rxBusy) && Counted() == old(Counted()) && !old(update)
      ensures update && !old(update) ==> |arrivals| < |old(arrivals)|
      ensures if old(rxBusy) then rxBusy || (active && paused && Full()) else !rxBusy && received == old(received)
    {
      hide Trace.Safe, Trace.Full, Trace.Counted, Short;
      RingHasRoom();
      if arrivals == [] {
        return;
      }
      if Short(arrivals, size) {
        ShortRest(arrivals, size);
      }
      Burst(arrivals[0]);
      arrivals := arrivals[1..];
    }

    lemma RingHasRoom()
      requires Safe()
      ensures size > 0
    {
    }

    /** The receive interrupts of one burst. */
    method Burst(burst: seq<byte>)
      requires Safe()
      modifies this`indexI, this`blockSize, this`active, this`paused, this`update, this`rxBusy, this`rxOff, this`rxNum,
        this`rxGot, this`received, buf
      ensures Safe() && old(received) <= received <= old(received) + burst
      ensures old(rxBusy) && rxBusy ==> received == old(received) + burst
      ensures (old(Valid()) ==> Valid()) && (old(active && !paused ==> rxBusy) ==> active && !paused ==> rxBusy)
      ensures !update ==> indexI == old(indexI) && rxBusy == old(rxBusy) && Counted() == old(Counted()) && !old(update)
      ensures if old(rxBusy) then rxBusy || (active && paused && Full()) else !rxBusy && received == old(received)
    {
      hide Trace.Safe, Trace.Full, Trace.Counted;
      ghost var before := received;
      for i := 0 to |burst|
        invariant Safe() && before <= received <= before + burst && |received| <= |before| + i
        invariant old(rxBusy) && rxBusy ==> received == before + burst[..i]
        invariant if old(rxBusy) then rxBusy || (active && paused && Full()) else !rxBusy && received == before
        invariant old(Valid()) ==> Valid()
        invariant old(active && !paused ==> rxBusy) ==> active && !paused ==> rxBusy
        invariant !update ==> indexI == old(indexI) && rxBusy == old(rxBusy)
        invariant !update ==> Counted() == old(Counted()) && !old(update)
      {
        ghost var r := received;
        Arrive(burst[i]);
        PrefixTwice(before, r, received);
        OneMoreCaptured(before, burst, i);
      }
    }

    /** UART_SWO_GetCount. */
    function PendingCount(): nat
      reads this
    {
      if rxBusy then rxGot else 0
    }

    /** GetTraceCount: all bytes that had been received when it was called, and maybe some that came in since. */
    method GetTraceCount() returns (count: nat)
      requires Valid()
      modifies this`indexI, this`blockSize, this`active, this`paused, this`update, this`rxBusy, this`rxOff, this`rxNum,
        this`rxGot, this`received, this`arrivals, buf
      ensures Valid() && old(received) <= received && |old(received)| <= |handed| + count <= |received|
      ensures old(Goes()) ==> Goes()
    {
      hide IsRing, InRing, Wrap;
      if active && !paused {
        ghost var start := received;
        while true
          invariant Valid() && start <= received && (old(Goes()) ==> Goes())
          decreases |arrivals|
        {
          ghost var r := received;
          count := CountOnce();
          PrefixTwice(start, r, received);
          if !update {
            break;
          }
        }
      } else {
        Distance(Counted(), |handed|, 0, size);
        count := Wrap(indexI - indexO);
      }
    }

    lemma ValidIsSafe()
      ensures Valid() ==> Safe()
    {
    }

    lemma SafeMeans()
      requires Safe()
      ensures IsRing(size) && handed <= received && |received| <= |handed| + size
      ensures indexI == Wrap(Counted()) && indexO == Wrap(|handed|) && Counted() >= 0
      ensures Counted() + PendingCount() == |received|
    {
      hide IsRing, InRing, Wrap;
    }

    /** One round of the loop of GetTraceCount; it counts if no block was completed meanwhile. */
    method CountOnce() returns (count: nat)
      requires Valid()
      modifies this`indexI, this`blockSize, this`active, this`paused, this`update, this`rxBusy, this`rxOff, this`rxNum,
        this`rxGot, this`received, this`arrivals, buf
      ensures Valid() && old(received) <= received && (old(Goes()) ==> Goes())
      ensures update ==> |arrivals| < |old(arrivals)|
      ensures !update ==> |old(received)| <= |handed| + count <= |received|
    {
      hide *;
      ghost var r0 := received;
      ValidIsSafe();
      update := false;
      Tick();
      SafeMeans();
      ghost var r1, c1 := received, Counted();
      count := Wrap(indexI - indexO);
      Tick();
      SafeMeans();
      ghost var r2, c2, g := received, Counted(), PendingCount();
      count := Wrap(count + PendingCount());
      Tick();
      PrefixTwice(r0, r1, r2);
      PrefixTwice(r0, r2, received);
      if !update {
        Distance(c2, |handed|, g, size);
      }
    }

    /** ResumeTrace: a paused capture goes on as soon as there is room. */
    method Resume()
      requires Valid()
      modifies this`blockSize, this`paused, this`rxBusy, this`rxOff, this`rxNum, this`rxGot
      ensures Valid() && (old(Goes()) ==> Goes())
      ensures if old(active && paused) && |received| < |handed| + size then rxBusy && rxNum == 1 && !paused
        else rxBusy == old(rxBusy) && paused == old(paused)
    {
      hide InRing, Wrap, BlockLeft;
      if active && paused {
        RingFits(|received|, |handed|, size);
        if Wrap(indexI - indexO) < size {
          paused := false;
          blockSize := 1;
          Receive(indexI % size, 1);
        }
      }
    }

    /** SWO_Data for a host that asks for up to n bytes: the next received bytes; and all that had been received, if
        these are fewer than what fits into the reply. Afterwards the capture is paused only if the ring is full. */
    method Data(n: nat, packetSize: nat) returns (out: seq<byte>)
      requires Valid() && packetSize >= 4
      modifies this`indexO, this`handed, this`indexI, this`blockSize, this`active, this`paused, this`update,
        this`rxBusy, this`rxOff, this`rxNum, this`rxGot, this`received, this`arrivals, buf
      ensures Valid() && old(received) <= received && handed == old(handed) + out
      ensures |out| <= n && |out| <= packetSize - 4 && (transport != 1 ==> out == [])
      ensures transport == 1 && |out| < n && |out| < packetSize - 4 ==> |old(received)| <= |handed|
      ensures old(Goes()) ==> Goes()
      ensures transport == 1 && |received| < |handed| + size ==> !(active && paused)
    {
      hide *;
      var count := GetTraceCount();
      if transport == 1 {
        var m := if n > packetSize - 4 then packetSize - 4 else n;
        if count > m {
          count := m;
        }
      } else {
        count := 0;
      }
      out := [];
      if transport == 1 {
        var index := indexO;
        ghost var r := received;
        out := Copy(index, count);
        PrefixTwice(old(received), r, received);
        HandOut(count, out);
        r := received;
        Tick();
        PrefixTwice(old(received), r, received);
        Resume();
      }
    }

    /** The loop of SWO_Data. */
    method Copy(index: nat, count: nat) returns (out: seq<byte>)
      requires Valid() && index == indexO && |handed| + count <= |received|
      modifies this`indexI, this`blockSize, this`active, this`paused, this`update, this`rxBusy, this`rxOff, this`rxNum,
        this`rxGot, this`received, this`arrivals, buf
      ensures Valid() && old(received) <= received && |handed| + count <= |received| && (old(Goes()) ==> Goes())
      ensures out == received[|handed|..|handed| + count]
    {
      hide IsRing, Wrap, InRing, Place, SamePlace, Trace.Valid, Trace.Safe, Trace.Goes;
      ghost var h := |handed|;
      out := [];
      var i: nat := index;
      OutPlace();
      for j := 0 to count
        invariant Valid() && old(received) <= received && h + count <= |received| && |handed| == h
        invariant old(Goes()) ==> Goes()
        invariant out == received[h..h + j] && SamePlace(i, h + j, size)
      {
        ghost var r := received;
        var b := ReadOne(i, h + j);
        PrefixTwice(old(received), r, received);
        SamePrefix(r, received, h, h + j);
        out := out + [b];
        NextPlace(i, h + j, size);
        i := Place(i, size) + 1;
      }
    }

    /** One byte out of the ring. */
    method ReadOne(i: nat, ghost k: nat) returns (b: byte)
      requires Valid() && |handed| <= k < |received| && SamePlace(i, k, size)
      modifies this`indexI, this`blockSize, this`active, this`paused, this`update, this`rxBusy, this`rxOff, this`rxNum,
        this`rxGot, this`received, this`arrivals, buf
      ensures Valid() && old(received) <= received && k < |received| && b == received[k] && (old(Goes()) ==> Goes())
    {
      hide IsRing, Wrap;
      Tick();
      b := buf[Place(i, size)];
      assert buf[..][k % |buf[..]|] == received[k];
    }

    lemma OutPlace()
      requires Valid()
      ensures size > 0 && SamePlace(indexO, |handed|, size)
    {
      hide IsRing, Wrap, SamePlace, InRing;
      RingPlace(|handed|, size);
    }

    /** TraceIndexO = index + count. */
    method HandOut(count: nat, ghost out: seq<byte>)
      requires Valid() && |handed| + count <= |received| && out == received[|handed|..|handed| + count]
      modifies this`indexO, this`handed
      ensures Safe() && Valid() && handed == old(handed) + out && (old(Goes()) ==> Goes())
    {
      hide IsRing, Wrap;
      WrapAdd(|handed|, count);
      indexO := Wrap(indexO + count);
      handed := handed + out;
    }

    /** SWO_Control in UART mode, without errors of the driver. Starting clears the trace; stopping loses nothing of
        it. */
    method Control(want: bool) returns (ok: bool)
      requires Valid()
      modifies this`indexO, this`handed, this`indexI, this`blockSize, this`active, this`paused, this`update,
        this`rxBusy, this`rxOff, this`rxNum, this`rxGot, this`received, this`arrivals, buf
      ensures Valid() && (ok <==> !want || old(active) || ready) && (ok ==> active == want) && (!want ==> !rxBusy)
      ensures ok && want && !old(active) ==> !paused && (rxBusy || Full())
      ensures old(Goes()) ==> Goes()
      ensures if want && !old(active) then handed == [] else old(received) <= received && handed == old(handed)
    {
      hide InRing, Wrap;
      ok := true;
      if want != active {
        if want {
          ClearTrace();
          ok := StartUart();
        } else {
          StopUart();
        }
        if ok {
          active, paused := want, false;
        }
      }
    }

    /** ClearTrace, while nothing is being captured. */
    method ClearTrace()
      requires Valid() && !active
      modifies this`indexI, this`indexO, this`received, this`handed
      ensures Safe() && received == [] && handed == [] && !rxBusy
    {
      indexI, indexO := 0, 0;
      received, handed := [], [];
    }

    /** The active branch of UART_SWO_Control; receive interrupts can come before the caller sets the status. */
    method StartUart() returns (ok: bool)
      requires Safe() && received == [] && handed == [] && !rxBusy
      modifies this`indexI, this`blockSize, this`active, this`paused, this`update, this`rxBusy, this`rxOff, this`rxNum,
        this`rxGot, this`received, this`arrivals, buf
      ensures Safe() && ok == ready && (if ok then rxBusy || Full() else !rxBusy && active == old(active))
      ensures Short(old(arrivals), size) ==> Short(arrivals, size) && (ok ==> rxBusy)
    {
      hide InRing, Wrap;
      if !ready {
        return false;
      }
      blockSize := 1;
      Receive(0, 1);
      FirstBlock(size);
      Tick();
      ShortFits(|received|, size);
      ok := true;
    }

    /** The other branch of UART_SWO_Control: the bytes of the block under way are counted. */
    method StopUart()
      requires Valid()
      modifies this`indexI, this`blockSize, this`active, this`paused, this`update, this`rxBusy, this`rxOff, this`rxNum,
        this`rxGot, this`received, this`arrivals, buf
      ensures Safe() && old(received) <= received && !rxBusy
      ensures Short(old(arrivals), size) ==> Short(arrivals, size)
    {
      hide InRing, Wrap;
      Tick();
      if rxBusy {
        WrapAdd(Counted(), rxGot);
        indexI := Wrap(indexI + rxGot);
        rxBusy := false;
      }
    }

    /** Any run of commands, under any receive interrupts: what has been handed out since the capture was started is a
        prefix of what has been captured. When the last command reads out and leaves room in the ring, the next byte is
        captured too. */
    method Session(commands: seq<Command>, packetSize: nat) returns (out: seq<byte>)
      requires Valid() && handed == [] && packetSize >= 4
      modifies this`indexO, this`handed, this`indexI, this`blockSize, this`active, this`paused, this`update,
        this`rxBusy, this`rxOff, this`rxNum, this`rxGot, this`received, this`arrivals, buf
      ensures Valid() && out == handed <= received
      ensures old(Goes()) ==> Goes()
      ensures old(Goes()) && active && transport == 1 && EndsWithReading(commands) ==>
        rxBusy || |received| == |handed| + size
    {
      out := [];
      for i := 0 to |commands|
        invariant Valid() && out == handed && (old(Goes()) ==> Goes())
        invariant EndsWithReading(commands[..i]) && transport == 1 && |received| < |handed| + size ==>
          !(active && paused)
      {
        match commands[i] {
          case ReadOut(n) =>
            var bytes := Data(n, packetSize);
            out := out + bytes;
          case Capture(on) =>
            var starts := on && !active;
            var ok := Control(on);
            if starts {
              out := [];
            }
        }
      }
    }
  }

  datatype Command = ReadOut(n: nat) | Capture(on: bool)

  predicate EndsWithReading(commands: seq<Command>) { commands != [] && commands[|commands| - 1].ReadOut? }

  /** No burst brings as many bytes as the ring has. */
  predicate Short(arrivals: seq<seq<byte>>, size: nat) { forall b :: b in arrivals ==> |b| < size }

  lemma ShortRest(arrivals: seq<seq<byte>>, size: nat)
    requires arrivals != [] && Short(arrivals, size)
    ensures Short(arrivals[1..], size) && |arrivals[0]| < size
  {
    assert arrivals[0] in arrivals;
  }

  lemma ShortFits(received: nat, size: nat)
    requires IsRing(size)
    ensures received < size ==> received + BlockLeft(received) <= size
  {
    BlockFits(received, size);
  }

  lemma FirstBlock(size: nat)
    requires IsRing(size)
    ensures 0 % size == 0 && Wrap(0) == 0 && size >= 1
  {
  }

  lemma PrefixTwice(a: seq<byte>, b: seq<byte>, c: seq<byte>)
    ensures a <= b && b <= c ==> a <= c
  {
  }

  lemma OneMoreCaptured(before: seq<byte>, burst: seq<byte>, i: nat)
    requires i < |burst|
    ensures before + burst[..i] + [burst[i]] == before + burst[..i + 1] <= before + burst
    ensures burst[..|burst|] == burst
  {
  }

  lemma SamePrefix(a: seq<byte>, b: seq<byte>, from: nat, to: nat)
    requires a <= b && from <= to <= |a|
    ensures a[from..to] == b[from..to]
  {
  }

  lemma RingPlace(h: nat, size: nat)
    requires IsRing(size)
    ensures SamePlace(Wrap(h), h, size)
  {
    PlaceOf(h, size);
  }

  function Place(i: nat, size: nat): nat
    requires size > 0
  {
    i % size
  }

  predicate SamePlace(i: nat, k: nat, size: nat) { size > 0 && i % size == k % size }

  lemma NextPlace(i: nat, k: nat, size: nat)
    requires SamePlace(i, k, size)
    ensures size > 0 && SamePlace(Place(i, size) + 1, k + 1, size)
  {
    AfterPlace(k, size);
    assert Place(i, size) == k % size;
  }

  lemma AfterPlace(k: nat, size: nat)
    requires size > 0
    ensures (k % size + 1) % size == (k + 1) % size
  {
    var r := k % size;
    if r + 1 < size {
      PlaceInBlock(k, 1, size);
    } else {
      WholeTurn(k / size, size);
      assert k + 1 == size * (k / size + 1);
    }
  }

  lemma WholeTurn(q: nat, size: nat)
    requires size > 0
    ensures size % size == 0 && (size * (q + 1)) % size == 0
  {
    DivUnique(size * (q + 1), size, q + 1, 0);
  }

  lemma WrapMinus(a: nat, b: nat)
    ensures Wrap(Wrap(a) - Wrap(b)) == Wrap(a - b)
  {
  }

  lemma WrapSmall(n: nat)
    requires n < WRAP
    ensures Wrap(n) == n
  {
  }

  /** The distance of the outgoing index from the bytes received, when got of them are not counted yet. */
  lemma Distance(counted: nat, handed: nat, got: nat, size: nat)
    requires IsRing(size) && handed <= counted + got <= handed + size
    ensures Wrap(Wrap(Wrap(counted) - Wrap(handed)) + got) == counted + got - handed
    ensures got == 0 ==> Wrap(Wrap(counted) - Wrap(handed)) == counted - handed
  {
    hide Wrap;
    WrapMinus(counted, handed);
    WrapAdd(counted - handed, got);
    WrapSmall(counted + got - handed);
  }

  lemma RingFits(received: nat, handed: nat, size: nat)
    requires IsRing(size) && handed <= received <= handed + size
    ensures Wrap(Wrap(received) - Wrap(handed)) == received - handed
    ensures Wrap(received) % size == received % size < size
    ensures TRACE_BLOCK_SIZE - Wrap(received) % TRACE_BLOCK_SIZE == BlockLeft(received) > 0
    ensures received % size + BlockLeft(received) <= size
  {
    hide Wrap;
    WrapDifference(received, handed);
    PlaceOf(received, size);
    BlockFits(received, size);
  }
}
