/** DAP_Transfer and DAP_TransferBlock on an SW-DP: posted AP reads in a pipeline, against one access at a time. */
module Dap {
  import opened Words

  // ----- requests

  // bits of a request byte
  predicate IsAp(value: nat) { value % 2 == 1 }

  predicate IsRead(value: nat) { value / 2 % 2 == 1 }

  function Register(value: nat): nat { value / 4 % 4 }

  predicate HasMatchValue(value: nat) { value / 16 % 2 == 1 }

  predicate HasMatchMask(value: nat) { value / 32 % 2 == 1 }

  /** The bits of a request byte: APnDP, RnW, A2 and A3, and the two match bits. */
  lemma RequestByte(value: nat)
    requires value < 64
    ensures value == (if IsAp(value) then 1 else 0) + (if IsRead(value) then 2 else 0) + 4 * Register(value)
                     + (if HasMatchValue(value) then 16 else 0) + (if HasMatchMask(value) then 32 else 0)
    ensures Register(value) < 4
  {
    assert value / 4 == value / 2 / 2 && value / 16 == value / 4 / 4 && value / 32 == value / 16 / 2 < 2;
  }

  // DP_RDBUFF | DAP_TRANSFER_RnW
  const READ_BUFFER: nat := 0x0e

  // the register number of RDBUFF
  const RDBUFF: nat := 3

  function Number(b: byte): nat { b as nat }

  datatype Request = Request(value: nat, data: nat)

  /** Bytes behind the request byte. */
  function Extra(value: nat): nat { if IsRead(value) then (if HasMatchValue(value) then 4 else 0) else 4 }

  /** The first n requests of a command. */
  function Requests(bytes: seq<byte>, pos: nat, n: nat): (qs: seq<Request>)
    requires Fits(bytes, pos, n)
    ensures |qs| == n
    decreases n
  {
    if n == 0 then []
    else
      var v := Number(bytes[pos]);
      var q := Request(v, if Extra(v) == 4 then UnLeNat(bytes[pos + 1..pos + 5]) else 0);
      [q] + Requests(bytes, pos + 1 + Extra(v), n - 1)
  }

  /** The command has all the bytes of its requests. */
  predicate Fits(bytes: seq<byte>, pos: nat, n: nat)
    decreases n
  {
    n == 0 || (pos < |bytes| && pos + 1 + Extra(Number(bytes[pos])) <= |bytes|
               && Fits(bytes, pos + 1 + Extra(Number(bytes[pos])), n - 1))
  }

  /** Where the requests end. */
  function End(bytes: seq<byte>, pos: nat, n: nat): nat
    requires Fits(bytes, pos, n)
    decreases n
  {
    if n == 0 then pos else End(bytes, pos + 1 + Extra(Number(bytes[pos])), n - 1)
  }

  lemma NextRequest(bytes: seq<byte>, pos: nat, n: nat)
    requires n > 0 && Fits(bytes, pos, n)
    ensures pos < |bytes|
    ensures var next := pos + 1 + Extra(Number(bytes[pos]));
      next <= |bytes| && Fits(bytes, next, n - 1) && End(bytes, pos, n) == End(bytes, next, n - 1)
  {
    hide Number, Extra;
  }

  /** DAP_Dummy_Transfer: how many bytes of the command are consumed. */
  method DummyTransfer(bytes: seq<byte>) returns (consumed: nat)
    requires |bytes| >= 2 && Fits(bytes, 2, Number(bytes[1]))
    ensures consumed == End(bytes, 2, Number(bytes[1]))
  {
    hide Fits, End, Number;
    var pos: nat, count: nat := 2, Number(bytes[1]);
    while count != 0
      invariant Fits(bytes, pos, count) && End(bytes, pos, count) == End(bytes, 2, Number(bytes[1]))
    {
      NextRequest(bytes, pos, count);
      var value := Number(bytes[pos]);
      pos := pos + 1;
      if IsRead(value) {
        if HasMatchValue(value) {
          pos := pos + 4;
        }
      } else {
        pos := pos + 4;
      }
      count := count - 1;
    }
    EndHere(bytes, pos);
    consumed := pos;
  }

  // ----- the target

  /** What the accesses that a target acknowledges do to it, but for the posting of AP reads. */
  datatype Behaviour<!S> = Behaviour(apRead: (S, nat) -> (S, nat), dpRead: (S, nat) -> (S, nat),
                                     apWrite: (S, nat, nat) -> S, dpWrite: (S, nat, nat) -> S)

  /** The state of a target, and the result of the last AP read. */
  datatype Target<S> = Target(state: S, buffer: nat)

  /** An access as the target sees it. */
  datatype Access = Access(ap: bool, read: bool, register: nat, data: nat)

  function AccessOf(value: nat, data: nat): Access {
    Access(IsAp(value), IsRead(value), Register(value), if IsRead(value) then 0 else data)
  }

  /** One acknowledged access (chapter B4 of Arm ADIv5.2): an AP read returns the result of the previous one, and RDBUFF
      returns it without another access. */
  function Effect<S>(b: Behaviour<S>, t: Target<S>, a: Access): (Target<S>, nat) {
    if a.ap && a.read then
      var (s, v) := b.apRead(t.state, a.register);
      (Target(s, v), t.buffer)
    else if a.read && a.register == RDBUFF then (t, t.buffer)
    else if a.read then
      var (s, v) := b.dpRead(t.state, a.register);
      (Target(s, t.buffer), v)
    else if a.ap then (Target(b.apWrite(t.state, a.register, a.data), t.buffer), 0)
    else (Target(b.dpWrite(t.state, a.register, a.data), t.buffer), 0)
  }

  // ----- one request at a time

  /** The target, the match mask, and the words read so far. */
  datatype Run<S> = Run(target: Target<S>, mask: nat, words: seq<nat>)

  /** A request carried out by itself: an AP read is followed by a read of RDBUFF. */
  function Step<S>(b: Behaviour<S>, r: Run<S>, q: Request): Run<S> {
    var a := AccessOf(q.value, q.data);
    if !a.read && HasMatchMask(q.value) then r.(mask := q.data)
    else
      var (t, v) := Effect(b, r.target, a);
      if !a.read then r.(target := t)
      else if a.ap then
        var (t', v') := Effect(b, t, AccessOf(READ_BUFFER, 0));
        Run(t', r.mask, r.words + [v'])
      else Run(t, r.mask, r.words + [v])
  }

  function Steps<S>(b: Behaviour<S>, r: Run<S>, qs: seq<Request>): Run<S> {
    if qs == [] then r else Step(b, Steps(b, r, qs[..|qs| - 1]), qs[|qs| - 1])
  }

  /** The accesses of the pipeline: RDBUFF is read where an AP read is followed by something else. */
  function Pipeline(qs: seq<Request>): seq<Access> {
    if qs == [] then []
    else
      var before, q := qs[..|qs| - 1], qs[|qs| - 1];
      Pipeline(before)
      + (if Posted(before) && !IsApRead(q) then [AccessOf(READ_BUFFER, 0)] else [])
      + (if IsMask(q) then [] else [AccessOf(q.value, q.data)])
  }

  predicate IsApRead(q: Request) { IsAp(q.value) && IsRead(q.value) }

  predicate IsMask(q: Request) { !IsRead(q.value) && HasMatchMask(q.value) }

  /** An AP read has been posted and its result not been read. */
  predicate Posted(qs: seq<Request>) { qs != [] && IsApRead(qs[|qs| - 1]) }

  /** The access that fetches what has been posted. */
  function Pending(qs: seq<Request>): seq<Access> { if Posted(qs) then [AccessOf(READ_BUFFER, 0)] else [] }

  /** A write has been the last access. */
  predicate Unchecked(qs: seq<Request>) {
    if qs == [] then false
    else
      var q := qs[|qs| - 1];
      if IsMask(q) then Unchecked(qs[..|qs| - 1]) else !IsRead(q.value)
  }

  /** All accesses of a command: a read of RDBUFF ends it if there is a result to fetch or a write to check. */
  function Accesses(qs: seq<Request>): seq<Access> {
    Pipeline(qs) + (if Posted(qs) || Unchecked(qs) then [AccessOf(READ_BUFFER, 0)] else [])
  }

  /** The bytes of a reply. */
  function WordBytes(words: seq<nat>): seq<byte> {
    if words == [] then [] else WordBytes(words[..|words| - 1]) + LeNat(words[|words| - 1])
  }

  lemma {:induction false} ReplyLength(words: seq<nat>)
    ensures |WordBytes(words)| == 4 * |words|
  {
    if words != [] {
      ReplyLength(words[..|words| - 1]);
    }
  }

  /** A host that reads little-endian words out of a reply gets what has been read from the target. */
  lemma {:induction false} ReplyRoundTrip(words: seq<nat>, from: nat)
    requires from <= |words| && forall i :: 0 <= i < |words| ==> words[i] < 0x1_0000_0000
    ensures |WordBytes(words)| == 4 * |words|
    ensures WordsAt(WordBytes(words), 4 * from, |words| - from) == words[from..]
    decreases |words| - from
  {
    hide LeNat, UnLeNat, WordBytes;
    ReplyLength(words);
    if from < |words| {
      ReplyRoundTrip(words, from + 1);
      ReplyWord(words, from);
      LeNatRoundTrip(words[from]);
      assert words[from..] == [words[from]] + words[from + 1..];
    }
  }

  lemma {:induction false} ReplyWord(words: seq<nat>, j: nat)
    requires j < |words|
    ensures |WordBytes(words)| == 4 * |words| && WordBytes(words)[4 * j..4 * j + 4] == LeNat(words[j])
  {
    hide LeNat;
    var n := |words| - 1;
    ReplyLength(words[..n]);
    ReplyLength(words);
    if j < n {
      ReplyWord(words[..n], j);
    }
  }

  /** The words follow each other in the reply, the lowest byte of each one first. */
  lemma ReplyBytes(words: seq<nat>, j: nat, k: nat)
    requires j < |words| && k < 4
    ensures |WordBytes(words)| == 4 * |words| && Number(WordBytes(words)[4 * j + k]) == Digit(words[j], k)
  {
    hide LeNat, WordBytes, Digit;
    ReplyWord(words, j);
    LowByteFirst(words[j], k);
    assert WordBytes(words)[4 * j..4 * j + 4][k] == WordBytes(words)[4 * j + k];
  }

  // ----- acknowledges

  const OK: nat := 1
  const WAIT: nat := 2
  const ERROR: nat := 8

  /** The answer with which the loop around an access ends; a target that has no more answers does not answer. */
  function FinalAck(acks: seq<nat>, retry: nat): nat {
    if acks == [] then ERROR
    else if acks[0] == WAIT && retry > 0 then FinalAck(acks[1..], retry - 1)
    else acks[0]
  }

  /** The answers that are left. */
  function Rest(acks: seq<nat>, retry: nat): seq<nat> {
    if acks == [] then []
    else if acks[0] == WAIT && retry > 0 then Rest(acks[1..], retry - 1)
    else acks[1..]
  }

  /** The answers that are left after k accesses. */
  function After(acks: seq<nat>, retry: nat, k: nat): seq<nat> {
    if k == 0 then acks else Rest(After(acks, retry, k - 1), retry)
  }

  /** The first k accesses finally succeed. */
  predicate AllOk(acks: seq<nat>, retry: nat, k: nat) {
    k == 0 || (AllOk(acks, retry, k - 1) && FinalAck(After(acks, retry, k - 1), retry) == OK)
  }

  lemma {:induction false} AllOkPrefix(acks: seq<nat>, retry: nat, k: nat, m: nat)
    requires k <= m && AllOk(acks, retry, m)
    ensures AllOk(acks, retry, k)
    decreases m
  {
    if k < m {
      AllOkPrefix(acks, retry, k, m - 1);
    }
  }

  /** The debug probe and the target it is connected to. */
  class Probe<S> {
    const behaviour: Behaviour<S>
    const retryCount: nat
    var target: Target<S>
    var mask: nat
    // how the target is going to answer
    var acks: seq<nat>
    // the accesses that it has acknowledged
    ghost var log: seq<Access>

    constructor (behaviour: Behaviour<S>, retryCount: nat, target: Target<S>, acks: seq<nat>)
      ensures this.behaviour == behaviour && this.retryCount == retryCount && this.target == target && this.acks == acks
      ensures log == [] && mask == 0
    {
      this.behaviour := behaviour;
      this.retryCount := retryCount;
      this.target := target;
      this.acks := acks;
      mask := 0;
      log := [];
    }

    /** SWD_Transfer: one try of one access. */
    method Swd(value: nat, data: nat) returns (ack: nat, out: nat)
      modifies this`target, this`acks, this`log
      ensures ack == if old(acks) == [] then ERROR else old(acks)[0]
      ensures acks == if old(acks) == [] then [] else old(acks)[1..]
      ensures ack == OK ==> (target, out) == Effect(behaviour, old(target), AccessOf(value, data))
                            && log == old(log) + [AccessOf(value, data)]
      ensures ack != OK ==> target == old(target) && log == old(log)
    {
      out := 0;
      if acks == [] {
        return ERROR, 0;
      }
      ack := acks[0];
      acks := acks[1..];
      if ack == OK {
        var (t, v) := Effect(behaviour, target, AccessOf(value, data));
        target, out := t, v;
        log := log + [AccessOf(value, data)];
      }
    }

    /** The loop around SWD_Transfer. */
    method Retry(value: nat, data: nat) returns (ack: nat, out: nat)
      modifies this`target, this`acks, this`log
      ensures ack == FinalAck(old(acks), retryCount) && acks == Rest(old(acks), retryCount)
      ensures ack == OK ==> (target, out) == Effect(behaviour, old(target), AccessOf(value, data))
                            && log == old(log) + [AccessOf(value, data)]
      ensures ack != OK ==> target == old(target) && log == old(log)
    {
      var retry := retryCount;
      ack, out := Swd(value, data);
      while ack == WAIT && retry > 0
        invariant ack == OK ==> (target, out) == Effect(behaviour, old(target), AccessOf(value, data))
                                && log == old(log) + [AccessOf(value, data)]
        invariant ack != OK ==> target == old(target) && log == old(log)
        invariant FinalAck(old(acks), retryCount) == if ack == WAIT && retry > 0 then FinalAck(acks, retry - 1) else ack
        invariant Rest(old(acks), retryCount) == if ack == WAIT && retry > 0 then Rest(acks, retry - 1) else acks
        decreases retry
      {
        retry := retry - 1;
        ack, out := Swd(value, data);
      }
    }

    /** The accesses done so far have all succeeded. */
    ghost predicate Logged(acks0: seq<nat>, log0: seq<Access>, done: seq<Access>)
      reads `log, `acks
    {
      log == log0 + done && AllOk(acks0, retryCount, |done|) && acks == After(acks0, retryCount, |done|)
    }

    /** The next access. */
    method Do(value: nat, data: nat, ghost acks0: seq<nat>, ghost log0: seq<Access>, ghost done: seq<Access>)
      returns (ack: nat, out: nat)
      requires Logged(acks0, log0, done)
      modifies this`target, this`acks, this`log
      ensures ack == OK ==> (target, out) == Effect(behaviour, old(target), AccessOf(value, data))
                            && Logged(acks0, log0, done + [AccessOf(value, data)])
      ensures ack != OK ==> !AllOk(acks0, retryCount, |done| + 1)
    {
      hide Effect, FinalAck, Rest;
      ack, out := Retry(value, data);
      assert log0 + done + [AccessOf(value, data)] == log0 + (done + [AccessOf(value, data)]);
    }

    /** After the requests qs: the target is where one request at a time leads, and the reply lacks only the word of
        an AP read that is still posted. */
    ghost predicate At(qs: seq<Request>, r0: Run<S>, acks0: seq<nat>, log0: seq<Access>, post: bool, check: bool,
                       out: seq<byte>)
      reads this
    {
      && post == Posted(qs) && check == Unchecked(qs)
      && target == Steps(behaviour, r0, qs).target && mask == Steps(behaviour, r0, qs).mask
      && Logged(acks0, log0, Pipeline(qs)) && Replied(Steps(behaviour, r0, qs), post, out)
    }

    /** The first part of a request when an AP read has been posted and another kind of access follows. */
    method Fetch(post: bool, out: seq<byte>, ghost r: Run<S>, ghost acks0: seq<nat>, ghost log0: seq<Access>,
                 ghost done: seq<Access>)
      returns (ack: nat, out': seq<byte>)
      requires Logged(acks0, log0, done) && target == r.target && Replied(r, post, out) && mask == r.mask
      modifies this`target, this`acks, this`log
      ensures ack == OK ==>
        && Logged(acks0, log0, done + (if post then [AccessOf(READ_BUFFER, 0)] else []))
        && target == r.target && out' == WordBytes(r.words)
      ensures ack != OK ==> post && !AllOk(acks0, retryCount, |done| + 1)
    {
      hide WordBytes, After, AllOk, Logged;
      out' := out;
      ack := OK;
      if post {
        var data;
        ack, data := Do(READ_BUFFER, 0, acks0, log0, done);
        ReadsBuffer(behaviour, r.target);
        if ack == OK {
          out' := out + LeNat(data);
          LastWord(r.words);
        }
      } else {
        assert done + [] == done;
      }
    }

    /** An AP read: it fetches the result of the one posted before, if there is one, and is posted itself. */
    method PostRead(value: nat, post: bool, out: seq<byte>, ghost qs: seq<Request>, ghost r0: Run<S>,
                    ghost acks0: seq<nat>, ghost log0: seq<Access>, ghost check: bool)
      returns (ack: nat, out': seq<byte>)
      requires At(qs, r0, acks0, log0, post, check, out) && IsAp(value) && IsRead(value)
      modifies this`target, this`acks, this`log
      ensures ack == OK ==> At(qs + [Request(value, 0)], r0, acks0, log0, true, false, out')
      ensures ack != OK ==> !AllOk(acks0, retryCount, |Pipeline(qs + [Request(value, 0)])|)
    {
      hide WordBytes, After, AllOk, Logged, Steps, Pipeline, Posted, Unchecked, Effect;
      ghost var q, r := Request(value, 0), Steps(behaviour, r0, qs);
      Snoc(behaviour, r0, qs, q);
      ApReadStep(behaviour, r, q);
      var data;
      ack, data := Do(value, 0, acks0, log0, Pipeline(qs));
      out' := out;
      if ack == OK && post {
        out' := out + LeNat(data);
        LastWord(r.words);
      }
      OneMore(Pipeline(qs), AccessOf(value, 0));
    }

    /** A DP read behind everything that was posted. */
    method ReadDp(value: nat, out: seq<byte>, ghost qs: seq<Request>, ghost r0: Run<S>,
                  ghost acks0: seq<nat>, ghost log0: seq<Access>, ghost done: seq<Access>)
      returns (ack: nat, out': seq<byte>)
      requires !IsAp(value) && IsRead(value) && Logged(acks0, log0, done)
      requires done == Pipeline(qs) + Pending(qs)
      requires target == Steps(behaviour, r0, qs).target && mask == Steps(behaviour, r0, qs).mask
      requires out == WordBytes(Steps(behaviour, r0, qs).words)
      modifies this`target, this`acks, this`log
      ensures ack == OK ==> At(qs + [Request(value, 0)], r0, acks0, log0, false, false, out')
      ensures ack != OK ==> !AllOk(acks0, retryCount, |Pipeline(qs + [Request(value, 0)])|)
    {
      hide WordBytes, After, AllOk, Logged, Steps, Pipeline, Posted, Unchecked, Effect;
      ghost var q, r := Request(value, 0), Steps(behaviour, r0, qs);
      Snoc(behaviour, r0, qs, q);
      DpReadStep(behaviour, r, q);
      var data;
      ack, data := Do(value, 0, acks0, log0, done);
      out' := out;
      if ack == OK {
        out' := out + LeNat(data);
        WordsSnoc(r.words, data);
      }
    }

    /** A write behind everything that was posted; or a new match mask, which is no access. */
    method Write(value: nat, data: nat, check: bool, out: seq<byte>, ghost qs: seq<Request>, ghost r0: Run<S>,
                 ghost acks0: seq<nat>, ghost log0: seq<Access>, ghost done: seq<Access>)
      returns (ack: nat, check': bool)
      requires !IsRead(value) && Logged(acks0, log0, done) && check == Unchecked(qs)
      requires done == Pipeline(qs) + Pending(qs)
      requires target == Steps(behaviour, r0, qs).target && mask == Steps(behaviour, r0, qs).mask
      requires out == WordBytes(Steps(behaviour, r0, qs).words)
      modifies this`target, this`acks, this`log, this`mask
      ensures ack == OK ==> At(qs + [Request(value, data)], r0, acks0, log0, false, check', out)
      ensures ack != OK ==> !AllOk(acks0, retryCount, |Pipeline(qs + [Request(value, data)])|)
    {
      hide WordBytes, After, AllOk, Logged, Steps, Pipeline, Posted, Unchecked, Effect;
      ghost var q, r := Request(value, data), Steps(behaviour, r0, qs);
      Snoc(behaviour, r0, qs, q);
      WriteStep(behaviour, r, q);
      check' := check;
      if HasMatchMask(value) {
        mask := data;
        ack := OK;
        assert done + [] == done;
      } else {
        var v;
        ack, v := Do(value, data, acks0, log0, done);
        check' := true;
      }
    }

    /** One round of the loop of DAP_SWD_Transfer. */
    method One(value: nat, data: nat, post: bool, check: bool, out: seq<byte>, ghost qs: seq<Request>, ghost r0: Run<S>,
               ghost acks0: seq<nat>, ghost log0: seq<Access>)
      returns (ack: nat, post': bool, check': bool, out': seq<byte>)
      requires At(qs, r0, acks0, log0, post, check, out) && (IsRead(value) ==> !HasMatchValue(value) && data == 0)
      modifies this`target, this`acks, this`log, this`mask
      ensures ack == OK ==> At(qs + [Request(value, data)], r0, acks0, log0, post', check', out')
      ensures ack != OK ==> !AllOk(acks0, retryCount, |Pipeline(qs + [Request(value, data)])|)
    {
      hide WordBytes, After, AllOk, Logged, Steps, Pipeline, Unchecked, Replied;
      post', check' := post, check;
      if IsRead(value) && IsAp(value) {
        ack, out' := PostRead(value, post, out, qs, r0, acks0, log0, check);
        post', check' := true, false;
        return;
      }
      ghost var r := Steps(behaviour, r0, qs);
      ack, out' := Fetch(post, out, r, acks0, log0, Pipeline(qs));
      if ack != OK {
        LongerPipeline(qs, Request(value, data), acks0, retryCount);
        return;
      }
      post' := false;
      ghost var done := Pipeline(qs) + (if post then [AccessOf(READ_BUFFER, 0)] else []);
      if IsRead(value) {
        ack, out' := ReadDp(value, out', qs, r0, acks0, log0, done);
        check' := false;
      } else {
        ack, check' := Write(value, data, check, out', qs, r0, acks0, log0, done);
      }
    }

    /** DAP_SWD_Transfer, for requests without match values and timestamps: the reply's count, value and words, and how
        many bytes of the command are consumed if all is well. */
    method Transfer(bytes: seq<byte>) returns (count: nat, value: nat, out: seq<byte>, consumed: nat)
      requires |bytes| >= 2 && Fits(bytes, 2, Number(bytes[1])) && NoMatches(Requests(bytes, 2, Number(bytes[1])))
      modifies this`target, this`acks, this`log, this`mask
      ensures var qs := Requests(bytes, 2, Number(bytes[1]));
        && (value == OK <==> qs != [] && AllOk(old(acks), retryCount, |Accesses(qs)|))
        && (value == OK ==>
              && target == Steps(behaviour, Run(old(target), old(mask), []), qs).target
              && mask == Steps(behaviour, Run(old(target), old(mask), []), qs).mask
              && out == WordBytes(Steps(behaviour, Run(old(target), old(mask), []), qs).words)
              && log == old(log) + Accesses(qs)
              && count == Number(bytes[1]) && consumed == End(bytes, 2, Number(bytes[1])))
    {
      hide Steps, Pipeline, AllOk, After, Posted, Unchecked, WordBytes, Accesses, At, Logged, Number;
      ghost var r0, acks0, log0, qs := Run(target, mask, []), acks, log, Requests(bytes, 2, Number(bytes[1]));
      var post, check;
      count, value, post, check, out, consumed := Loop(bytes, qs, r0, acks0, log0);
      if value == OK {
        value, out := Finish(post, check, out, qs, r0, acks0, log0);
        if value == OK {
          LoggedOk(acks0, log0, Accesses(qs));
        }
      }
    }

    /** The loop of DAP_SWD_Transfer. */
    method Loop(bytes: seq<byte>, ghost qs: seq<Request>, ghost r0: Run<S>, ghost acks0: seq<nat>,
                ghost log0: seq<Access>)
      returns (count: nat, value: nat, post: bool, check: bool, out: seq<byte>, pos: nat)
      requires |bytes| >= 2 && Fits(bytes, 2, Number(bytes[1])) && qs == Requests(bytes, 2, Number(bytes[1]))
      requires NoMatches(qs)
      requires r0 == Run(target, mask, []) && acks0 == acks && log0 == log
      modifies this`target, this`acks, this`log, this`mask
      ensures value == OK ==>
        && qs != [] && At(qs, r0, acks0, log0, post, check, out)
        && count == Number(bytes[1]) && pos == End(bytes, 2, Number(bytes[1]))
      ensures value != OK && qs != [] ==> !AllOk(acks0, retryCount, |Accesses(qs)|)
    {
      hide Steps, Pipeline, AllOk, After, Posted, Unchecked, WordBytes, Accesses, At, Logged, Requests, End, Fits,
        UnLeNat, NoMatches, Number;
      var n := Number(bytes[1]);
      pos, post, check := 2, false, false;
      count, value, out := 0, 0, [];
      Begin(r0, acks0, log0);
      while count < n
        invariant count <= n && Fits(bytes, pos, n - count) && qs[count..] == Requests(bytes, pos, n - count)
        invariant |qs| == n
        invariant End(bytes, pos, n - count) == End(bytes, 2, n) && value == if count == 0 then 0 else OK
        invariant At(qs[..count], r0, acks0, log0, post, check, out)
      {
        RequestAt(bytes, pos, n - count, qs, count);
        var v := Number(bytes[pos]);
        pos := pos + 1;
        var data := 0;
        if !IsRead(v) {
          data := UnLeNat(bytes[pos..pos + 4]);
          pos := pos + 4;
        }
        value, post, check, out := One(v, data, post, check, out, qs[..count], r0, acks0, log0);
        assert qs[..count] + [Request(v, data)] == qs[..count + 1];
        if value != OK {
          PipelineGrows(qs, count + 1, acks0, retryCount);
          return;
        }
        count := count + 1;
      }
      assert qs[..count] == qs;
      EndHere(bytes, pos);
    }

    lemma Begin(r0: Run<S>, acks0: seq<nat>, log0: seq<Access>)
      requires r0 == Run(target, mask, []) && acks0 == acks && log0 == log
      ensures At([], r0, acks0, log0, false, false, [])
    {
    }

    /** The last access of DAP_SWD_Transfer. */
    method Finish(post: bool, check: bool, out: seq<byte>, ghost qs: seq<Request>, ghost r0: Run<S>,
                  ghost acks0: seq<nat>,
                  ghost log0: seq<Access>)
      returns (ack: nat, out': seq<byte>)
      requires At(qs, r0, acks0, log0, post, check, out)
      modifies this`target, this`acks, this`log
      ensures ack == OK <==> AllOk(acks0, retryCount, |Accesses(qs)|)
      ensures ack == OK ==>
        && target == Steps(behaviour, r0, qs).target && mask == Steps(behaviour, r0, qs).mask
        && out' == WordBytes(Steps(behaviour, r0, qs).words) && Logged(acks0, log0, Accesses(qs))
    {
      hide WordBytes, After, AllOk, Logged, Steps, Pipeline, Unchecked, Posted, Replied;
      ghost var r := Steps(behaviour, r0, qs);
      out' := out;
      ack := OK;
      if post {
        ack, out' := Fetch(true, out, r, acks0, log0, Pipeline(qs));
      } else if check {
        ReadsBuffer(behaviour, r.target);
        NotPosted(r, out);
        var data;
        ack, data := Do(READ_BUFFER, 0, acks0, log0, Pipeline(qs));
      } else {
        NotPosted(r, out);
        assert Pipeline(qs) + [] == Pipeline(qs);
      }
      if ack == OK {
        LoggedOk(acks0, log0, Accesses(qs));
      }
    }

    lemma LoggedOk(acks0: seq<nat>, log0: seq<Access>, done: seq<Access>)
      requires Logged(acks0, log0, done)
      ensures AllOk(acks0, retryCount, |done|) && log == log0 + done
    {
      hide AllOk, After;
    }

    /** A block of AP reads: the first one is posted, and the last result comes from RDBUFF. */
    method BlockOfApReads(value: nat, n: nat, ghost r0: Run<S>, ghost acks0: seq<nat>, ghost log0: seq<Access>)
      returns (count: nat, ack: nat, out: seq<byte>)
      requires IsAp(value) && IsRead(value) && n > 0 && At([], r0, acks0, log0, false, false, [])
      modifies this`target, this`acks, this`log
      ensures Done(Copies(value, n), r0, acks0, log0, ack, out) && (ack == OK ==> count == n)
    {
      hide Steps, Pipeline, AllOk, After, Posted, Unchecked, WordBytes, Accesses, At, Logged, Done;
      ghost var qs := Copies(value, n);
      count, out := 0, [];
      assert qs[..0] == [] && qs[..0] + [Request(value, 0)] == qs[..1];
      ack, out := PostRead(value, false, out, qs[..0], r0, acks0, log0, false);
      if ack != OK {
        PipelineGrows(qs, 1, acks0, retryCount);
        Failed(qs, r0, acks0, log0, ack, out);
        return;
      }
      while count + 1 < n
        invariant count < n && At(qs[..count + 1], r0, acks0, log0, true, false, out)
      {
        assert qs[..count + 1] + [Request(value, 0)] == qs[..count + 2];
        ack, out := PostRead(value, true, out, qs[..count + 1], r0, acks0, log0, false);
        if ack != OK {
          PipelineGrows(qs, count + 2, acks0, retryCount);
          Failed(qs, r0, acks0, log0, ack, out);
          return;
        }
        count := count + 1;
      }
      assert qs[..count + 1] == qs;
      ack, out := Finish(true, false, out, qs, r0, acks0, log0);
      Finished(qs, r0, acks0, log0, ack, out);
      if ack == OK {
        count := count + 1;
      }
    }

    /** A block of DP reads. */
    method BlockOfDpReads(value: nat, n: nat, ghost r0: Run<S>, ghost acks0: seq<nat>, ghost log0: seq<Access>)
      returns (count: nat, ack: nat, out: seq<byte>)
      requires !IsAp(value) && IsRead(value) && n > 0 && At([], r0, acks0, log0, false, false, [])
      modifies this`target, this`acks, this`log
      ensures Done(Copies(value, n), r0, acks0, log0, ack, out) && (ack == OK ==> count == n)
    {
      hide Steps, Pipeline, AllOk, After, Posted, Unchecked, WordBytes, Accesses, At, Logged, Done;
      ghost var qs := Copies(value, n);
      count, ack, out := 0, OK, [];
      assert qs[..0] == [];
      while count < n
        invariant count <= n && ack == OK && At(qs[..count], r0, acks0, log0, false, false, out)
      {
        AtParts(qs[..count], r0, acks0, log0, false, out);
        assert qs[..count] + [Request(value, 0)] == qs[..count + 1];
        ack, out := ReadDp(value, out, qs[..count], r0, acks0, log0, Pipeline(qs[..count]));
        if ack != OK {
          PipelineGrows(qs, count + 1, acks0, retryCount);
          Failed(qs, r0, acks0, log0, ack, out);
          return;
        }
        count := count + 1;
      }
      assert qs[..count] == qs;
      NothingLeft(qs, r0, acks0, log0, out);
    }

    /** A block of writes, the last of which is checked. */
    method BlockOfWrites(value: nat, words: seq<nat>, ghost r0: Run<S>, ghost acks0: seq<nat>, ghost log0: seq<Access>)
      returns (count: nat, ack: nat, out: seq<byte>)
      requires !IsRead(value) && !HasMatchMask(value) && words != [] && At([], r0, acks0, log0, false, false, [])
      modifies this`target, this`acks, this`log, this`mask
      ensures Done(Writes(value, words), r0, acks0, log0, ack, out) && (ack == OK ==> count == |words|)
    {
      hide Steps, Pipeline, AllOk, After, Posted, Unchecked, WordBytes, Accesses, At, Logged, Done;
      ghost var qs := Writes(value, words);
      count, ack, out := 0, OK, [];
      var check := false;
      assert qs[..0] == [];
      while count < |words|
        invariant count <= |words| && ack == OK && At(qs[..count], r0, acks0, log0, false, check, out)
      {
        AtParts(qs[..count], r0, acks0, log0, check, out);
        assert qs[..count] + [Request(value, words[count])] == qs[..count + 1];
        ack, check := Write(value, words[count], check, out, qs[..count], r0, acks0, log0, Pipeline(qs[..count]));
        if ack != OK {
          PipelineGrows(qs, count + 1, acks0, retryCount);
          Failed(qs, r0, acks0, log0, ack, out);
          return;
        }
        count := count + 1;
      }
      assert qs[..count] == qs;
      ack, out := Finish(false, check, out, qs, r0, acks0, log0);
      Finished(qs, r0, acks0, log0, ack, out);
    }

    /** The outcome of the requests qs: success if and only if all their accesses finally succeed; and then the accesses
        are those of the pipeline, and state and words are those of one request at a time. */
    ghost predicate Done(qs: seq<Request>, r0: Run<S>, acks0: seq<nat>, log0: seq<Access>, ack: nat, out: seq<byte>)
      reads this
    {
      && (ack == OK <==> AllOk(acks0, retryCount, |Accesses(qs)|))
      && (ack == OK ==>
            && target == Steps(behaviour, r0, qs).target && mask == Steps(behaviour, r0, qs).mask
            && out == WordBytes(Steps(behaviour, r0, qs).words) && log == log0 + Accesses(qs))
    }

    lemma Failed(qs: seq<Request>, r0: Run<S>, acks0: seq<nat>, log0: seq<Access>, ack: nat, out: seq<byte>)
      requires ack != OK && !AllOk(acks0, retryCount, |Accesses(qs)|)
      ensures Done(qs, r0, acks0, log0, ack, out)
    {
      hide Steps, AllOk, WordBytes, Accesses;
    }

    lemma Finished(qs: seq<Request>, r0: Run<S>, acks0: seq<nat>, log0: seq<Access>, ack: nat, out: seq<byte>)
      requires ack == OK <==> AllOk(acks0, retryCount, |Accesses(qs)|)
      requires ack == OK ==>
        && target == Steps(behaviour, r0, qs).target && mask == Steps(behaviour, r0, qs).mask
        && out == WordBytes(Steps(behaviour, r0, qs).words) && Logged(acks0, log0, Accesses(qs))
      ensures Done(qs, r0, acks0, log0, ack, out)
    {
      hide Steps, AllOk, WordBytes, Accesses, After;
    }

    lemma AtParts(qs: seq<Request>, r0: Run<S>, acks0: seq<nat>, log0: seq<Access>, check: bool, out: seq<byte>)
      requires At(qs, r0, acks0, log0, false, check, out)
      ensures !Posted(qs) && check == Unchecked(qs) && Logged(acks0, log0, Pipeline(qs))
      ensures Pipeline(qs) == Pipeline(qs) + Pending(qs)
      ensures target == Steps(behaviour, r0, qs).target && mask == Steps(behaviour, r0, qs).mask
      ensures out == WordBytes(Steps(behaviour, r0, qs).words)
    {
      hide Steps, WordBytes, Pipeline, Logged, Unchecked;
    }

    /** Behind a DP read nothing has to be fetched or checked. */
    lemma NothingLeft(qs: seq<Request>, r0: Run<S>, acks0: seq<nat>, log0: seq<Access>, out: seq<byte>)
      requires At(qs, r0, acks0, log0, false, false, out)
      ensures Done(qs, r0, acks0, log0, OK, out)
    {
      AtParts(qs, r0, acks0, log0, false, out);
      LoggedOk(acks0, log0, Pipeline(qs));
      assert Accesses(qs) == Pipeline(qs);
      hide Steps, AllOk, WordBytes, Accesses, After, Pipeline, At, Logged;
    }

    /** DAP_SWD_TransferBlock: a number of equal requests, in which match bits mean nothing. */
    method TransferBlock(bytes: seq<byte>) returns (count: nat, value: nat, out: seq<byte>)
      requires |bytes| >= 3 && BlockFits(bytes)
      modifies this`target, this`acks, this`log, this`mask
      ensures BlockCount(bytes) == 0 ==>
        count == 0 && value == 0 && out == [] && target == old(target) && log == old(log)
      ensures BlockCount(bytes) > 0 ==>
        && Done(BlockRequests(bytes), Run(old(target), old(mask), []), old(acks), old(log), value, out)
        && (value == OK ==> count == BlockCount(bytes))
      // the low byte of the count comes first
      ensures value == OK ==> Digit(count, 0) == Number(bytes[1]) && Digit(count, 1) == Number(bytes[2])
    {
      hide Number, BlockCount, WordsAt, Done, At;
      CountDigits(bytes);
      if BlockCount(bytes) > 0 {
        PlainBits(Number(bytes[3]));
      }
      count, value, out := 0, 0, [];
      var n := BlockCount(bytes);
      if n == 0 {
        return;
      }
      ghost var r0, acks0, log0 := Run(target, mask, []), acks, log;
      Begin(r0, acks0, log0);
      var v := Plain(Number(bytes[3]));
      if IsRead(v) {
        if IsAp(v) {
          count, value, out := BlockOfApReads(v, n, r0, acks0, log0);
        } else {
          count, value, out := BlockOfDpReads(v, n, r0, acks0, log0);
        }
      } else {
        count, value, out := BlockOfWrites(v, WordsAt(bytes, 4, n), r0, acks0, log0);
      }
    }
  }

  function Copies(value: nat, n: nat): (qs: seq<Request>)
    ensures |qs| == n
  {
    seq(n, _ => Request(value, 0))
  }

  function Writes(value: nat, words: seq<nat>): (qs: seq<Request>)
    ensures |qs| == |words|
  {
    seq(|words|, i requires 0 <= i < |words| => Request(value, words[i]))
  }

  function BlockCount(bytes: seq<byte>): nat
    requires |bytes| >= 3
  {
    Number(bytes[1]) + 0x100 * Number(bytes[2])
  }

  lemma CountDigits(bytes: seq<byte>)
    requires |bytes| >= 3
    ensures Digit(BlockCount(bytes), 0) == Number(bytes[1]) && Digit(BlockCount(bytes), 1) == Number(bytes[2])
  {
    hide Number;
    SmallNumber(bytes[1]);
    SmallNumber(bytes[2]);
    TwoDigits(Number(bytes[1]), Number(bytes[2]));
  }

  lemma SmallNumber(b: byte)
    ensures Number(b) < 256
  {
  }

  lemma TwoDigits(low: nat, high: nat)
    requires low < 256 && high < 256
    ensures Digit(low + 256 * high, 0) == low && Digit(low + 256 * high, 1) == high
  {
    assert (low + 256 * high) / 256 == high;
    assert Digit(low + 256 * high, 1) == Digit(high, 0);
  }

  /** The bits of a request that an access goes by. */
  function Plain(value: nat): (v: nat)
    ensures forall data :: AccessOf(v, data) == AccessOf(value, data)
    ensures !HasMatchValue(v) && !HasMatchMask(v)
  {
    PlainBits(value);
    value % 16
  }

  lemma PlainBits(value: nat)
    ensures var v := value % 16;
      && IsAp(v) == IsAp(value) && IsRead(v) == IsRead(value) && Register(v) == Register(value)
      && !HasMatchValue(v) && !HasMatchMask(v)
  {
    var q, v := value / 16, value % 16;
    Halves(q, v);
    assert v / 16 == 0 && v / 32 == 0;
  }

  lemma Halves(q: nat, v: nat)
    requires v < 16
    ensures (16 * q + v) % 2 == v % 2
    ensures (16 * q + v) / 2 % 2 == v / 2 % 2
    ensures (16 * q + v) / 4 % 4 == v / 4 % 4
  {
    Half(8 * q, v);
    Half(4 * q, v / 2);
    Quarter(4 * q, v);
    Quarter(q, v / 4);
    assert 16 * q + v == 2 * (8 * q) + v == 4 * (4 * q) + v && 8 * q == 2 * (4 * q);
  }

  lemma Half(n: nat, v: nat)
    ensures (2 * n + v) / 2 == n + v / 2 && (2 * n + v) % 2 == v % 2
  {
  }

  lemma Quarter(n: nat, v: nat)
    ensures (4 * n + v) / 4 == n + v / 4 && (4 * n + v) % 4 == v % 4
  {
  }

  /** The command has all its bytes. */
  predicate BlockFits(bytes: seq<byte>)
    requires |bytes| >= 3
  {
    BlockCount(bytes) > 0 ==>
      |bytes| >= 4 && (!IsRead(Number(bytes[3])) ==> |bytes| >= 4 + 4 * BlockCount(bytes))
  }

  /** Little-endian words. */
  function WordsAt(bytes: seq<byte>, pos: nat, n: nat): (words: seq<nat>)
    requires |bytes| >= pos + 4 * n
    ensures |words| == n
    decreases n
  {
    if n == 0 then [] else [UnLeNat(bytes[pos..pos + 4])] + WordsAt(bytes, pos + 4, n - 1)
  }

  /** The requests that a block stands for. */
  function BlockRequests(bytes: seq<byte>): seq<Request>
    requires |bytes| >= 3 && BlockFits(bytes)
  {
    if BlockCount(bytes) == 0 then []
    else
      var v := Plain(Number(bytes[3]));
      assert IsRead(v) == IsRead(Number(bytes[3])) by {
        PlainBits(Number(bytes[3]));
      }
      if IsRead(v) then Copies(v, BlockCount(bytes)) else Writes(v, WordsAt(bytes, 4, BlockCount(bytes)))
  }

  predicate NoMatches(qs: seq<Request>) {
    forall i :: 0 <= i < |qs| && IsRead(qs[i].value) ==> !HasMatchValue(qs[i].value)
  }

  lemma Snoc<S>(b: Behaviour<S>, r: Run<S>, qs: seq<Request>, q: Request)
    ensures Steps(b, r, qs + [q]) == Step(b, Steps(b, r, qs), q)
    ensures Pipeline(qs + [q]) == Pipeline(qs) + (if Posted(qs) && !IsApRead(q) then [AccessOf(READ_BUFFER, 0)] else [])
                                  + (if IsMask(q) then [] else [AccessOf(q.value, q.data)])
    ensures Posted(qs + [q]) == IsApRead(q)
    ensures Unchecked(qs + [q]) == if IsMask(q) then Unchecked(qs) else !IsRead(q.value)
  {
    hide Step, Posted, IsApRead, IsMask, AccessOf, IsRead;
    assert (qs + [q])[..|qs|] == qs;
    assert Posted(qs + [q]) == IsApRead(q) by {
      PostedLast(qs, q);
    }
  }

  lemma PostedLast(qs: seq<Request>, q: Request)
    ensures Posted(qs + [q]) == IsApRead(q)
  {
    hide IsApRead;
  }

  lemma ApReadStep<S>(b: Behaviour<S>, r: Run<S>, q: Request)
    requires IsApRead(q)
    ensures var (t, v) := Effect(b, r.target, AccessOf(q.value, q.data));
      v == r.target.buffer && Step(b, r, q) == Run(t, r.mask, r.words + [t.buffer])
  {
    var (t, v) := Effect(b, r.target, AccessOf(q.value, q.data));
    ReadsBuffer(b, t);
  }

  lemma DpReadStep<S>(b: Behaviour<S>, r: Run<S>, q: Request)
    requires IsRead(q.value) && !IsAp(q.value)
    ensures var (t, v) := Effect(b, r.target, AccessOf(q.value, q.data));
      Step(b, r, q) == Run(t, r.mask, r.words + [v])
  {
    hide Effect;
  }

  lemma WriteStep<S>(b: Behaviour<S>, r: Run<S>, q: Request)
    requires !IsRead(q.value)
    ensures HasMatchMask(q.value) ==> Step(b, r, q) == r.(mask := q.data)
    ensures !HasMatchMask(q.value) ==>
      var (t, v) := Effect(b, r.target, AccessOf(q.value, q.data)); Step(b, r, q) == r.(target := t)
  {
    hide Effect;
  }

  lemma OneMore(done: seq<Access>, a: Access)
    ensures done + [] + [a] == done + [a]
  {
  }

  lemma WordsSnoc(words: seq<nat>, v: nat)
    ensures WordBytes(words + [v]) == WordBytes(words) + LeNat(v)
  {
    assert (words + [v])[..|words|] == words;
  }

  lemma LongerPipeline(qs: seq<Request>, q: Request, acks: seq<nat>, retry: nat)
    requires Posted(qs) && !IsApRead(q) && !AllOk(acks, retry, |Pipeline(qs)| + 1)
    ensures !AllOk(acks, retry, |Pipeline(qs + [q])|)
  {
    hide AllOk, After;
    assert (qs + [q])[..|qs|] == qs;
    if AllOk(acks, retry, |Pipeline(qs + [q])|) {
      AllOkPrefix(acks, retry, |Pipeline(qs)| + 1, |Pipeline(qs + [q])|);
    }
  }

  /** The reply has the words read so far, but for the last one while it is posted. */
  ghost predicate Replied<S>(r: Run<S>, post: bool, out: seq<byte>) {
    if post
    then r.words != [] && r.words[|r.words| - 1] == r.target.buffer && out == WordBytes(r.words[..|r.words| - 1])
    else out == WordBytes(r.words)
  }

  lemma ReadsBuffer<S>(b: Behaviour<S>, t: Target<S>)
    ensures Effect(b, t, AccessOf(READ_BUFFER, 0)) == (t, t.buffer)
  {
  }

  lemma LastWord(words: seq<nat>)
    requires words != []
    ensures WordBytes(words) == WordBytes(words[..|words| - 1]) + LeNat(words[|words| - 1])
  {
  }

  lemma NotPosted<S>(r: Run<S>, out: seq<byte>)
    ensures Replied(r, false, out) <==> out == WordBytes(r.words)
  {
    hide WordBytes;
  }

  lemma EndHere(bytes: seq<byte>, pos: nat)
    ensures Fits(bytes, pos, 0) && End(bytes, pos, 0) == pos
  {
  }

  lemma RequestAt(bytes: seq<byte>, pos: nat, n: nat, qs: seq<Request>, i: nat)
    requires n > 0 && Fits(bytes, pos, n) && i <= |qs| && qs[i..] == Requests(bytes, pos, n) && NoMatches(qs)
    ensures i < |qs| && pos < |bytes|
    ensures var v := Number(bytes[pos]);
      var size := if IsRead(v) then 0 else 4;
      && v == qs[i].value && (IsRead(v) ==> !HasMatchValue(v)) && pos + 1 + size <= |bytes|
      && qs[i].data == (if IsRead(v) then 0 else UnLeNat(bytes[pos + 1..pos + 5]))
      && Fits(bytes, pos + 1 + size, n - 1) && qs[i + 1..] == Requests(bytes, pos + 1 + size, n - 1)
      && End(bytes, pos, n) == End(bytes, pos + 1 + size, n - 1)
  {
    hide UnLeNat;
    assert qs[i..][0] == qs[i] && qs[i + 1..] == qs[i..][1..];
  }

  /** A failing access is one that the whole command needs. */
  lemma PipelineGrows(qs: seq<Request>, k: nat, acks: seq<nat>, retry: nat)
    requires k <= |qs| && !AllOk(acks, retry, |Pipeline(qs[..k])|)
    ensures !AllOk(acks, retry, |Accesses(qs)|)
  {
    hide AllOk, After, Pipeline;
    PipelinePrefix(qs, k);
    if AllOk(acks, retry, |Accesses(qs)|) {
      AllOkPrefix(acks, retry, |Pipeline(qs[..k])|, |Accesses(qs)|);
    }
  }

  lemma {:induction false} PipelinePrefix(qs: seq<Request>, k: nat)
    requires k <= |qs|
    ensures |Pipeline(qs[..k])| <= |Pipeline(qs)|
    decreases |qs|
  {
    if k == |qs| {
      assert qs[..k] == qs;
    } else {
      assert qs[..|qs| - 1][..k] == qs[..k];
      PipelinePrefix(qs[..|qs| - 1], k);
    }
  }
}
