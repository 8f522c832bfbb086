/** The JTAG engine of the debug probe, driving a chain of devices through TCK, TMS, TDI and TDO. */
module Jtag {
  import opened Bits

  /** The states of the TAP controllers of all devices, which share TCK and TMS (section 6.1 of IEEE 1149.1-2001). */
  datatype Tap =
    | Reset | Idle
    | SelectDR | CaptureDR | ShiftDR | Exit1DR | PauseDR | Exit2DR | UpdateDR
    | SelectIR | CaptureIR | ShiftIR | Exit1IR | PauseIR | Exit2IR | UpdateIR

  function Next(s: Tap, tms: bool): Tap {
    match s
    case Reset => if tms then Reset else Idle
    case Idle => if tms then SelectDR else Idle
    case SelectDR => if tms then SelectIR else CaptureDR
    case CaptureDR => if tms then Exit1DR else ShiftDR
    case ShiftDR => if tms then Exit1DR else ShiftDR
    case Exit1DR => if tms then UpdateDR else PauseDR
    case PauseDR => if tms then Exit2DR else PauseDR
    case Exit2DR => if tms then UpdateDR else ShiftDR
    case UpdateDR => if tms then SelectDR else Idle
    case SelectIR => if tms then Reset else CaptureIR
    case CaptureIR => if tms then Exit1IR else ShiftIR
    case ShiftIR => if tms then Exit1IR else ShiftIR
    case Exit1IR => if tms then UpdateIR else PauseIR
    case PauseIR => if tms then Exit2IR else PauseIR
    case Exit2IR => if tms then UpdateIR else ShiftIR
    case UpdateIR => if tms then SelectDR else Idle
  }

  predicate Captures(s: Tap) { s == CaptureIR || s == CaptureDR }

  predicate Shifts(s: Tap) { s == ShiftIR || s == ShiftDR }

  predicate ScansIR(s: Tap) { s == ShiftIR || s == Exit1IR || s == PauseIR || s == Exit2IR }

  predicate ScansDR(s: Tap) { s == ShiftDR || s == Exit1DR || s == PauseDR || s == Exit2DR }

  /** Scans begin with a capture and end with an update. */
  lemma NextScans(t: Tap, tms: bool)
    ensures ScansIR(Next(t, tms)) ==> t == CaptureIR || (ScansIR(t) && !Captures(t))
    ensures ScansDR(Next(t, tms)) ==> t == CaptureDR || (ScansDR(t) && !Captures(t))
    ensures Next(t, tms) == UpdateIR ==> ScansIR(t) && !ScansDR(UpdateIR) && !ScansIR(UpdateIR)
    ensures Next(t, tms) == UpdateDR ==> ScansDR(t) && !ScansDR(UpdateDR) && !ScansIR(UpdateDR)
    ensures (t == CaptureIR || t == CaptureDR) == Captures(t) && !(Captures(t) && Shifts(t))
    ensures Next(t, tms) == UpdateIR || Next(t, tms) == UpdateDR ==> !Captures(t) && !Shifts(t)
  {
  }

  /** Registers, the bit nearest to TDO first. */
  type Register = seq<bool>

  /** An instruction of ones only selects the bypass register. */
  predicate IsBypass(ir: Register) { forall i :: 0 <= i < |ir| ==> ir[i] }

  /** Registers in a row as one shift register: device 0 is nearest to TDO. */
  function Flat(regs: seq<Register>): Register {
    if regs == [] then [] else Flat(regs[..|regs| - 1]) + regs[|regs| - 1]
  }

  /** Where the bits of device j begin in the row. */
  function Offset(regs: seq<Register>, j: nat): nat
    requires j <= |regs|
  {
    |Flat(regs[..j])|
  }

  lemma {:induction false} FlatConcat(a: seq<Register>, b: seq<Register>)
    ensures Flat(a + b) == Flat(a) + Flat(b)
    decreases |b|
  {
    if b == [] {
      assert a + b == a;
    } else {
      var n := |b| - 1;
      assert (a + b)[..|a + b| - 1] == a + b[..n];
      FlatConcat(a, b[..n]);
      assert Flat(a) + (Flat(b[..n]) + b[n]) == Flat(a) + Flat(b[..n]) + b[n];
    }
  }

  lemma FlatParts(regs: seq<Register>, j: nat)
    requires j < |regs|
    ensures Offset(regs, j + 1) == Offset(regs, j) + |regs[j]| <= |Flat(regs)|
    ensures Flat(regs)[Offset(regs, j)..Offset(regs, j + 1)] == regs[j]
  {
    var a, b, c := regs[..j], [regs[j]], regs[j + 1..];
    assert regs == a + b + c && regs[..j + 1] == a + b;
    FlatConcat(a + b, c);
    FlatConcat(a, b);
    FlatOne(regs[j]);
    var f := Flat(a) + regs[j] + Flat(c);
    assert f[|Flat(a)|..|Flat(a)| + |regs[j]|] == regs[j];
  }

  lemma FlatOne(r: Register)
    ensures Flat([r]) == r
  {
    assert [r][..0] == [];
    assert [] + r == r;
  }

  ghost predicate SameShape(a: seq<Register>, b: seq<Register>) {
    |a| == |b| && forall j :: 0 <= j < |a| ==> |a[j]| == |b[j]|
  }

  lemma {:induction false} SameLengths(a: seq<Register>, b: seq<Register>)
    requires SameShape(a, b)
    ensures |Flat(a)| == |Flat(b)|
    ensures forall j :: 0 <= j <= |a| ==> Offset(a, j) == Offset(b, j)
  {
    if a != [] {
      var n := |a| - 1;
      SameLengths(a[..n], b[..n]);
      forall j | 0 <= j <= |a| ensures Offset(a, j) == Offset(b, j) {
        if j <= n {
          assert a[..n][..j] == a[..j] && b[..n][..j] == b[..j];
          assert Offset(a[..n], j) == Offset(b[..n], j);
        } else {
          assert a[..j] == a && b[..j] == b;
        }
      }
    }
  }

  /** The row cut into registers of this shape. */
  function Cut(row: Register, shape: seq<Register>): (regs: seq<Register>)
    requires |row| == |Flat(shape)|
    ensures |regs| == |shape|
  {
    seq(|shape|, j requires 0 <= j < |shape| => FlatParts(shape, j); row[Offset(shape, j)..Offset(shape, j + 1)])
  }

  lemma CutFlat(regs: seq<Register>, shape: seq<Register>)
    requires SameShape(regs, shape)
    ensures |Flat(regs)| == |Flat(shape)| && Cut(Flat(regs), shape) == regs
  {
    hide Flat, Offset, Cut;
    SameLengths(regs, shape);
    var c := Cut(Flat(regs), shape);
    forall j | 0 <= j < |regs| ensures c[j] == regs[j] {
      CutPart(Flat(regs), shape, j);
      FlatParts(regs, j);
    }
  }

  lemma CutPart(row: Register, shape: seq<Register>, j: nat)
    requires |row| == |Flat(shape)| && j < |shape|
    ensures 0 <= Offset(shape, j) <= Offset(shape, j + 1) <= |row|
    ensures Cut(row, shape)[j] == row[Offset(shape, j)..Offset(shape, j + 1)]
  {
    hide Flat, Offset;
    FlatParts(shape, j);
  }

  // ----- numbers as bits

  /** The low n bits of a number, the lowest first. */
  function LowBits(v: nat, n: nat): (r: Register)
    ensures |r| == n
  {
    if n == 0 then [] else [v % 2 == 1] + LowBits(v / 2, n - 1)
  }

  function Value(bits: Register): nat {
    if bits == [] then 0 else (if bits[0] then 1 else 0) + 2 * Value(bits[1..])
  }

  lemma {:induction false} ValueOfBits(v: nat, n: nat)
    requires v < Pow2(n)
    ensures Value(LowBits(v, n)) == v
  {
    if n > 0 {
      ValueOfBits(v / 2, n - 1);
      assert LowBits(v, n)[1..] == LowBits(v / 2, n - 1);
    }
  }

  lemma {:induction false} BitsOfValue(bits: Register)
    ensures LowBits(Value(bits), |bits|) == bits && Value(bits) < Pow2(|bits|)
  {
    if bits != [] {
      BitsOfValue(bits[1..]);
      assert bits == [bits[0]] + bits[1..];
    }
  }

  lemma {:induction false} ValueSnoc(bits: Register, b: bool)
    ensures Value(bits + [b]) == Value(bits) + (if b then Pow2(|bits|) else 0)
  {
    if bits == [] {
      assert [] + [b] == [b];
    } else {
      ValueSnoc(bits[1..], b);
      assert (bits + [b])[1..] == bits[1..] + [b];
    }
  }

  // ----- the devices and the wires to them

  /** The registers of the devices: the instructions in force, the data registers that they select (if they do not
      select the bypass register), and what was last written into the selected registers. */
  datatype Devices = Devices(irs: seq<Register>, regs: seq<Register>, written: seq<Register>)

  /** The data registers between TDI and TDO; the bypass register captures a zero. */
  function DataRegs(d: Devices): seq<Register>
    requires |d.irs| == |d.regs|
  {
    seq(|d.irs|, j requires 0 <= j < |d.irs| => if IsBypass(d.irs[j]) then [false] else d.regs[j])
  }

  /** The chain with its pins. TMS, TDI are driven and TDO is read by the probe; a clock is one pulse on TCK. */
  class Wire {
    // what the instruction registers capture
    const irCapture: seq<Register>
    var dev: Devices
    var tap: Tap
    var tms: bool
    var tdi: bool
    // the shift register stages between TDI and TDO
    var path: Register
    // what the last Capture state loaded into them, and what was shifted in since
    ghost var captured: Register
    ghost var shifted: Register
    // how many pulses there have been
    ghost var clocks: nat

    ghost predicate Valid()
      reads `dev, `tap, `path, `captured, `shifted
    {
      && SameShape(dev.irs, irCapture) && |dev.regs| == |dev.irs| == |irCapture|
      && |path| == |captured| && path == (captured + shifted)[|shifted|..]
      && (ScansIR(tap) ==> captured == Flat(irCapture))
      && (ScansDR(tap) ==> captured == Flat(DataRegs(dev)))
    }

    lemma ScanPath(t: Tap, cap: Register, s: Register, d: Devices)
      requires Scanning(t, cap, s, d)
      ensures captured == cap && shifted == s && |path| == |captured| && path == (captured + shifted)[|shifted|..]
    {
      hide SameShape, Flat, DataRegs, ScansIR, ScansDR;
    }

    /** Where a scan stands. */
    ghost predicate Scanning(t: Tap, cap: Register, s: Register, d: Devices)
      reads `dev, `tap, `path, `captured, `shifted
    {
      Valid() && tap == t && captured == cap && shifted == s && dev == d
    }

    /** TDO shows the stage nearest to it. */
    function Tdo(): bool
      reads this
    {
      |path| > 0 && path[0]
    }

    /** One pulse on TCK, as all TAP controllers see it. */
    method Clock()
      requires Valid()
      modifies this`dev, this`tap, this`path, this`captured, this`shifted, this`clocks
      ensures Valid() && tap == Next(old(tap), tms) && clocks == old(clocks) + 1
      ensures old(tap) == CaptureIR ==> captured == Flat(irCapture) && shifted == []
      ensures old(tap) == CaptureDR ==> captured == Flat(DataRegs(dev)) && shifted == []
      ensures Shifts(old(tap)) ==> captured == old(captured) && shifted == old(shifted) + [tdi]
      ensures !Captures(old(tap)) && !Shifts(old(tap)) ==> captured == old(captured) && shifted == old(shifted)
      ensures !Captures(old(tap)) && !Shifts(old(tap)) ==> path == old(path)
      ensures tap == UpdateIR ==>
        |path| == |Flat(irCapture)| && dev == old(dev).(irs := Cut(path, irCapture))
      ensures tap == UpdateDR ==>
        |path| == |Flat(DataRegs(old(dev)))| && dev == old(dev).(written := Cut(path, DataRegs(old(dev))))
      ensures tap != UpdateIR && tap != UpdateDR ==> dev == old(dev)
    {
      hide Flat, Cut, DataRegs, SameShape, IsBypass, Next, ScansIR, ScansDR, Captures, Shifts;
      NextScans(tap, tms);
      Move();
      clocks := clocks + 1;
      tap := Next(tap, tms);
      if tap == UpdateIR {
        CutShape(path, irCapture);
        dev := dev.(irs := Cut(path, irCapture));
      } else if tap == UpdateDR {
        SameDataRegs(dev, Cut(path, DataRegs(dev)));
        dev := dev.(written := Cut(path, DataRegs(dev)));
      }
    }

    /** A clock that leaves the registers and the stages alone. */
    method Step()
      requires Valid() && !Captures(tap) && !Shifts(tap) && Next(tap, tms) != UpdateIR && Next(tap, tms) != UpdateDR
      modifies this`dev, this`tap, this`path, this`captured, this`shifted, this`clocks
      ensures Valid() && tap == Next(old(tap), tms) && clocks == old(clocks) + 1
      ensures dev == old(dev) && captured == old(captured) && shifted == old(shifted)
    {
      hide Valid;
      Clock();
    }

    /** What the clock does to the shift register stages. */
    method Move()
      requires Valid()
      modifies this`path, this`captured, this`shifted
      ensures |path| == |captured| && path == (captured + shifted)[|shifted|..]
      ensures tap == CaptureIR ==> captured == Flat(irCapture) && shifted == []
      ensures tap == CaptureDR ==> captured == Flat(DataRegs(dev)) && shifted == []
      ensures Shifts(tap) ==> captured == old(captured) && shifted == old(shifted) + [tdi]
      ensures !Captures(tap) && !Shifts(tap) ==>
        captured == old(captured) && shifted == old(shifted) && path == old(path)
    {
      hide Flat, DataRegs, SameShape, IsBypass;
      if tap == CaptureIR {
        path := Flat(irCapture);
        captured, shifted := path, [];
      } else if tap == CaptureDR {
        path := Flat(DataRegs(dev));
        captured, shifted := path, [];
      } else if tap == ShiftIR || tap == ShiftDR {
        ShiftOne(captured, shifted, tdi, path);
        path := (path + [tdi])[1..];
        shifted := shifted + [tdi];
      }
    }
  }

  lemma CutShape(row: Register, shape: seq<Register>)
    requires |row| == |Flat(shape)|
    ensures SameShape(Cut(row, shape), shape)
  {
    hide Flat, Offset;
    forall j | 0 <= j < |shape| ensures |Cut(row, shape)[j]| == |shape[j]| {
      FlatParts(shape, j);
    }
  }

  lemma SameDataRegs(d: Devices, written: seq<Register>)
    requires |d.irs| == |d.regs|
    ensures DataRegs(d.(written := written)) == DataRegs(d)
  {
  }

  lemma ShiftOne(captured: Register, shifted: Register, b: bool, path: Register)
    requires |path| == |captured| && path == (captured + shifted)[|shifted|..]
    ensures (path + [b])[1..] == (captured + (shifted + [b]))[|shifted| + 1..] && |(path + [b])[1..]| == |captured|
  {
  }

  /** The next bit on TDO is the next one of what was captured. */
  lemma NextOut(captured: Register, shifted: Register, path: Register)
    requires |path| == |captured| && path == (captured + shifted)[|shifted|..] && |shifted| < |captured|
    ensures path[0] == captured[|shifted|]
  {
  }

  /** After as many clocks as there are stages, the stages hold what was shifted in. */
  lemma ShiftedThrough(captured: Register, shifted: Register, path: Register)
    requires |path| == |captured| && path == (captured + shifted)[|shifted|..] && |shifted| == |captured|
    ensures path == shifted
  {
  }

  function Sum(lengths: seq<nat>): nat {
    if lengths == [] then 0 else Sum(lengths[..|lengths| - 1]) + lengths[|lengths| - 1]
  }

  lemma {:induction false} SumConcat(a: seq<nat>, b: seq<nat>)
    ensures Sum(a + b) == Sum(a) + Sum(b)
    decreases |b|
  {
    if b == [] {
      assert a + b == a;
    } else {
      assert (a + b)[..|a + b| - 1] == a + b[..|b| - 1];
      SumConcat(a, b[..|b| - 1]);
    }
  }

  lemma NoSum(lengths: seq<nat>)
    ensures Sum(lengths[..0]) == 0
  {
  }

  lemma SumSnoc(lengths: seq<nat>, n: nat)
    requires n < |lengths|
    ensures Sum(lengths[..n + 1]) == Sum(lengths[..n]) + lengths[n]
  {
    assert lengths[..n + 1][..n] == lengths[..n];
  }

  lemma SumRest(lengths: seq<nat>, n: nat)
    requires n < |lengths|
    ensures Sum(lengths[n..]) == lengths[n] + Sum(lengths[n + 1..])
  {
    var one := [lengths[n]];
    SumConcat(one, lengths[n + 1..]);
    assert one + lengths[n + 1..] == lengths[n..] && one[..0] == [];
  }

  lemma {:induction false} SumOfBytes(lengths: seq<nat>)
    requires forall i :: 0 <= i < |lengths| ==> lengths[i] < 0x100
    ensures Sum(lengths) <= 0xff * |lengths|
  {
    if lengths != [] {
      SumOfBytes(lengths[..|lengths| - 1]);
    }
  }

  /** A number of equal bits. */
  function Same(b: bool, n: nat): (r: Register)
    ensures |r| == n
  {
    seq(n, _ => b)
  }

  /** The probe: its description of the chain (DAP_Data.jtag_dev) and its pins. */
  class Probe {
    const wire: Wire
    var count: nat
    var index: nat
    const irLength: array<nat>
    const irBefore: array<nat>
    const irAfter: array<nat>

    constructor (wire: Wire, devices: nat)
      ensures this.wire == wire && count == 0 && index == 0
      ensures irLength.Length == irBefore.Length == irAfter.Length == devices
      ensures fresh(irLength) && fresh(irBefore) && fresh(irAfter)
      ensures irLength != irBefore && irLength != irAfter && irBefore != irAfter
    {
      this.wire := wire;
      count, index := 0, 0;
      irLength, irBefore, irAfter := new nat[devices], new nat[devices], new nat[devices];
    }

    /** DAP_JTAG_Configure; the counts of bits are stored in 16 bits. */
    method Configure(lengths: seq<nat>)
      requires |lengths| < 0x100 && forall i :: 0 <= i < |lengths| ==> lengths[i] < 0x100
      requires |lengths| <= irLength.Length && irBefore.Length == irAfter.Length == irLength.Length
      requires irLength != irBefore && irLength != irAfter && irBefore != irAfter
      modifies this`count, irLength, irBefore, irAfter
      ensures count == |lengths| && irLength[..count] == lengths
      ensures forall n :: 0 <= n < count ==> irBefore[n] == Sum(lengths[..n]) && irAfter[n] == Sum(lengths[n + 1..])
    {
      hide Sum;
      count := |lengths|;
      var bits := CountBefore(lengths);
      CountAfter(lengths, bits);
    }

    /** The first loop of DAP_JTAG_Configure. */
    method CountBefore(lengths: seq<nat>) returns (bits: nat)
      requires |lengths| < 0x100 && forall i :: 0 <= i < |lengths| ==> lengths[i] < 0x100
      requires |lengths| <= irLength.Length == irBefore.Length && irLength != irBefore
      modifies irLength, irBefore
      ensures bits == Sum(lengths) && irLength[..|lengths|] == lengths
      ensures forall i :: 0 <= i < |lengths| ==> irBefore[i] == Sum(lengths[..i])
    {
      hide Sum;
      bits := 0;
      NoSum(lengths);
      for n := 0 to |lengths|
        invariant bits == Sum(lengths[..n]) && irLength[..n] == lengths[..n]
        invariant forall i :: 0 <= i < n ==> irBefore[i] == Sum(lengths[..i])
      {
        SumOfBytes(lengths[..n]);
        SumSnoc(lengths, n);
        irLength[n] := lengths[n] % 0x100;
        irBefore[n] := bits % 0x1_0000;
        bits := bits + lengths[n];
      }
      assert lengths[..|lengths|] == lengths;
    }

    /** The second loop of DAP_JTAG_Configure. */
    method CountAfter(lengths: seq<nat>, total: nat)
      requires |lengths| < 0x100 && forall i :: 0 <= i < |lengths| ==> lengths[i] < 0x100
      requires |lengths| <= irLength.Length == irAfter.Length && irLength != irAfter && irAfter != irBefore
      requires total == Sum(lengths) && irLength[..|lengths|] == lengths
      modifies irAfter
      ensures forall i :: 0 <= i < |lengths| ==> irAfter[i] == Sum(lengths[i + 1..])
    {
      hide Sum;
      var bits := total;
      assert lengths[0..] == lengths;
      for n := 0 to |lengths|
        invariant bits == Sum(lengths[n..])
        invariant forall i :: 0 <= i < n ==> irAfter[i] == Sum(lengths[i + 1..])
      {
        SumRest(lengths, n);
        SumOfBytes(lengths[n + 1..]);
        assert irLength[n] == irLength[..|lengths|][n];
        bits := bits - irLength[n];
        irAfter[n] := bits % 0x1_0000;
      }
    }

    // ----- the macros of JTAG_DP.c

    /** JTAG_CYCLE_TCK in a shift state. */
    method ShiftTck(ghost t: Tap, ghost cap: Register, ghost s: Register, ghost d: Devices)
      requires wire.Scanning(t, cap, s, d) && Shifts(t)
      modifies wire
      ensures wire.Scanning(Next(t, wire.tms), cap, s + [wire.tdi], d)
      ensures wire.tms == old(wire.tms) && wire.tdi == old(wire.tdi)
      ensures wire.clocks == old(wire.clocks) + 1
    {
      hide Flat, Cut, SameShape, DataRegs, IsBypass;
      wire.Clock();
    }

    /** JTAG_CYCLE_TDI in a shift state. */
    method ShiftTdi(v: nat, ghost t: Tap, ghost cap: Register, ghost s: Register, ghost d: Devices)
      requires wire.Scanning(t, cap, s, d) && Shifts(t)
      modifies wire
      ensures wire.Scanning(Next(t, wire.tms), cap, s + [v % 2 == 1], d)
      ensures wire.tms == old(wire.tms) && wire.tdi == (v % 2 == 1)
      ensures wire.clocks == old(wire.clocks) + 1
    {
      hide Flat, Cut, SameShape, DataRegs, IsBypass;
      wire.tdi := v % 2 == 1;
      wire.Clock();
    }

    /** JTAG_CYCLE_TDO in a shift state. */
    method ShiftTdo(ghost t: Tap, ghost cap: Register, ghost s: Register, ghost d: Devices) returns (bit: bool)
      requires wire.Scanning(t, cap, s, d) && Shifts(t) && |s| < |cap|
      modifies wire
      ensures wire.Scanning(Next(t, wire.tms), cap, s + [wire.tdi], d) && bit == cap[|s|]
      ensures wire.tms == old(wire.tms) && wire.tdi == old(wire.tdi)
      ensures wire.clocks == old(wire.clocks) + 1
    {
      hide Flat, Cut, SameShape, DataRegs, IsBypass;
      NextOut(cap, s, wire.path);
      bit := wire.Tdo();
      wire.Clock();
    }

    /** JTAG_CYCLE_TDIO in a shift state. */
    method ShiftTdio(v: nat, ghost t: Tap, ghost cap: Register, ghost s: Register, ghost d: Devices) returns (bit: bool)
      requires wire.Scanning(t, cap, s, d) && Shifts(t) && |s| < |cap|
      modifies wire
      ensures wire.Scanning(Next(t, wire.tms), cap, s + [v % 2 == 1], d) && bit == cap[|s|]
      ensures wire.tms == old(wire.tms)
      ensures wire.clocks == old(wire.clocks) + 1
    {
      hide Flat, Cut, SameShape, DataRegs, IsBypass;
      wire.tdi := v % 2 == 1;
      bit := ShiftTdo(t, cap, s, d);
    }

    /** n clocks without a change of TDI. */
    method Fill(n: nat, ghost t: Tap, ghost cap: Register, ghost s: Register, ghost d: Devices)
      requires wire.Scanning(t, cap, s, d) && Shifts(t) && !wire.tms
      modifies wire
      ensures wire.Scanning(t, cap, s + Same(wire.tdi, n), d)
      ensures wire.tms == old(wire.tms) && wire.tdi == old(wire.tdi)
      ensures wire.clocks == old(wire.clocks) + n
    {
      hide Wire.Valid, Wire.Scanning;
      assert s + Same(wire.tdi, 0) == s;
      for i := 0 to n
        invariant wire.Scanning(t, cap, s + Same(wire.tdi, i), d) && wire.clocks == old(wire.clocks) + i
        invariant wire.tms == old(wire.tms) && wire.tdi == old(wire.tdi)
      {
        ShiftTck(t, cap, s + Same(wire.tdi, i), d);
        assert s + Same(wire.tdi, i) + [wire.tdi] == s + Same(wire.tdi, i + 1);
      }
    }

    /** n bits of a number, the lowest first; what is left of the number is returned. */
    method PutBits(v: nat, n: nat, ghost more: nat, ghost t: Tap, ghost cap: Register, ghost s: Register,
                   ghost d: Devices)
      returns (rest: nat, ghost s': Register)
      requires wire.Scanning(t, cap, s, d) && Shifts(t) && !wire.tms
      modifies wire
      ensures wire.Scanning(t, cap, s', d) && s' + LowBits(rest, more) == s + LowBits(v, n + more)
      ensures wire.tms == old(wire.tms)
      ensures wire.clocks == old(wire.clocks) + n
    {
      hide Wire.Valid, Wire.Scanning;
      rest, s' := v, s;
      for i := 0 to n
        invariant wire.Scanning(t, cap, s', d) && wire.tms == old(wire.tms) && wire.clocks == old(wire.clocks) + i
        invariant s' + LowBits(rest, n + more - i) == s + LowBits(v, n + more)
      {
        ShiftTdi(rest, t, cap, s', d);
        NextBit(s', rest, n + more - i);
        s' := s' + [rest % 2 == 1];
        rest := rest / 2;
      }
    }

    /** The last bit of a scan and the ones behind it, for the devices between TDI and the selected one. */
    method LastBit(v: nat, after: nat, ones: bool, ghost t: Tap, ghost cap: Register, ghost s: Register,
                   ghost d: Devices)
      returns (ghost s': Register)
      requires wire.Scanning(t, cap, s, d) && Shifts(t) && !wire.tms
      modifies wire
      ensures wire.Scanning(Next(t, true), cap, s', d) && |s'| == |s| + 1 + after
      ensures s' == s + [v % 2 == 1] + Same(if ones then true else v % 2 == 1, after) && wire.tms
      ensures wire.clocks == old(wire.clocks) + 1 + after
    {
      hide Wire.Valid, Wire.Scanning;
      var n := after;
      if n != 0 {
        ShiftTdi(v, t, cap, s, d);
        if ones {
          wire.tdi := true;
        }
        n := n - 1;
        Fill(n, t, cap, s + [v % 2 == 1], d);
        ghost var s1 := s + [v % 2 == 1] + Same(wire.tdi, n);
        wire.tms := true;
        ShiftTck(t, cap, s1, d);
        s' := s1 + [wire.tdi];
        assert s' == s + [v % 2 == 1] + Same(wire.tdi, after);
      } else {
        wire.tms := true;
        ShiftTdi(v, t, cap, s, d);
        s' := s + [v % 2 == 1];
        assert s' + Same(ones, 0) == s';
      }
    }

    /** The description of the chain is right, and a device is selected. */
    ghost predicate Described()
      reads this, wire, irLength, irBefore, irAfter
    {
      && index < count == |wire.irCapture|
      && irLength.Length == irBefore.Length == irAfter.Length >= count
      && irLength[index] == |wire.irCapture[index]| >= 1
      && irBefore[index] == |Flat(wire.irCapture[..index])|
      && irAfter[index] == |Flat(wire.irCapture[index + 1..])|
    }

    /** From Run-Test/Idle into a scan of the instruction registers. */
    method EnterIR()
      requires wire.Valid() && wire.tap == Idle
      modifies wire
      ensures wire.Scanning(ShiftIR, Flat(wire.irCapture), [], old(wire.dev)) && !wire.tms
      ensures wire.clocks == old(wire.clocks) + 4
    {
      hide Wire.Valid, Flat, Cut, DataRegs, SameShape, IsBypass;
      wire.tms := true;
      wire.Step();
      wire.Step();
      wire.tms := false;
      wire.Step();
      assert wire.tap == CaptureIR;
      wire.Clock();
    }

    /** The end of an instruction scan: the devices take over what was shifted in. */
    method LeaveIR(ghost s: Register, ghost d: Devices)
      requires wire.Scanning(Exit1IR, Flat(wire.irCapture), s, d) && wire.tms && |s| == |Flat(wire.irCapture)|
      modifies wire
      ensures wire.Valid() && wire.tap == Idle && wire.dev == d.(irs := Cut(s, wire.irCapture))
      ensures wire.clocks == old(wire.clocks) + 2 && wire.tdi
    {
      hide Flat, Cut, SameShape, DataRegs, IsBypass, Wire.Valid;
      wire.ScanPath(Exit1IR, Flat(wire.irCapture), s, d);
      ShiftedThrough(wire.captured, s, wire.path);
      Update();
      wire.tms := false;
      wire.Step();
      wire.tdi := true;
    }

    /** The clock from Exit1 to Update; what the stages hold does not change. */
    method Update()
      requires wire.Valid() && (wire.tap == Exit1IR || wire.tap == Exit1DR) && wire.tms
      modifies wire
      ensures wire.Valid() && wire.tap == Next(old(wire.tap), true)
      ensures old(wire.tap) == Exit1IR ==>
        |old(wire.path)| == |Flat(wire.irCapture)|
        && wire.dev == old(wire.dev).(irs := Cut(old(wire.path), wire.irCapture))
      ensures old(wire.tap) == Exit1DR ==>
        |old(wire.path)| == |Flat(DataRegs(old(wire.dev)))|
        && wire.dev == old(wire.dev).(written := Cut(old(wire.path), DataRegs(old(wire.dev))))
      ensures wire.clocks == old(wire.clocks) + 1
    {
      hide Flat, Cut, SameShape, DataRegs, IsBypass;
      wire.Clock();
    }

    /** JTAG_IR. */
    method IR(ir: nat)
      requires Described() && wire.Valid() && wire.tap == Idle
      modifies wire
      ensures wire.Valid() && wire.tap == Idle
      ensures wire.dev == old(wire.dev).(irs := Instructions(wire.irCapture, index, LowBits(ir, irLength[index])))
      ensures wire.clocks == old(wire.clocks) + irBefore[index] + irLength[index] + irAfter[index] + 6 && wire.tdi
    {
      hide Wire.Valid, Wire.Scanning;
      hide Flat, Cut, SameShape, DataRegs, IsBypass, LowBits, Instructions;
      ghost var d, cap := wire.dev, Flat(wire.irCapture);
      EnterIR();
      wire.tdi := true;
      Fill(irBefore[index], ShiftIR, cap, [], d);
      ghost var before := Same(true, irBefore[index]);
      assert [] + before == before;
      var rest, s1 := PutBits(ir, irLength[index] - 1, 1, ShiftIR, cap, before, d);
      ghost var s2 := LastBit(rest, irAfter[index], true, ShiftIR, cap, s1, d);
      OneBit(rest);
      InstructionsFlat(wire.irCapture, index, LowBits(ir, irLength[index]));
      LeaveIR(s2, d);
    }

    /** The selected device has a data register of n bits in the chain, and all others bypass. */
    ghost predicate Selected(n: nat)
      reads this, wire
    {
      index < count && SelectedIn(wire.dev, index, count, n)
    }

    /** From Run-Test/Idle into a scan of the data registers. */
    method EnterDR()
      requires wire.Valid() && wire.tap == Idle
      modifies wire
      ensures wire.Scanning(ShiftDR, Flat(DataRegs(old(wire.dev))), [], old(wire.dev)) && !wire.tms
      ensures wire.clocks == old(wire.clocks) + 3
    {
      hide Wire.Valid, Flat, Cut, DataRegs;
      wire.tms := true;
      wire.Step();
      wire.tms := false;
      wire.Step();
      wire.Clock();
    }

    /** The end of a data scan: the selected registers take over what was shifted in, if that was as much as they
        hold. */
    method LeaveDR(ghost s: Register, ghost d: Devices)
      requires |d.irs| == |d.regs| && wire.Scanning(Exit1DR, Flat(DataRegs(d)), s, d) && wire.tms
      modifies wire
      ensures wire.Valid() && wire.tap == Idle && !wire.tms && wire.dev == d.(written := wire.dev.written)
      ensures |s| == |Flat(DataRegs(d))| ==> wire.dev.written == Cut(s, DataRegs(d))
      ensures wire.clocks == old(wire.clocks) + 2
    {
      hide Flat, Cut, SameShape, DataRegs, IsBypass;
      if |s| == |Flat(DataRegs(d))| {
        ShiftedThrough(wire.captured, s, wire.path);
      }
      hide Wire.Valid;
      Update();
      wire.tms := false;
      wire.Step();
    }

    /** 31 bits from TDO, put together from the top of a 32-bit word that is shifted right. */
    method GetBits(ghost cap: Register, ghost s: Register, ghost d: Devices) returns (val: nat)
      requires wire.Scanning(ShiftDR, cap, s, d) && !wire.tms && |s| + 32 <= |cap|
      modifies wire
      ensures wire.Scanning(ShiftDR, cap, s + Same(wire.tdi, 31), d) && !wire.tms && wire.tdi == old(wire.tdi)
      ensures val == Value(cap[|s|..|s| + 31])
      ensures wire.clocks == old(wire.clocks) + 31
    {
      hide Wire.Valid, Wire.Scanning;
      hide Pow2, Value, Collected;
      val := 0;
      assert s + Same(wire.tdi, 0) == s;
      NothingCollected(cap, |s|);
      for i := 0 to 31
        invariant wire.Scanning(ShiftDR, cap, s + Same(wire.tdi, i), d) && !wire.tms && wire.tdi == old(wire.tdi)
        invariant Collected(val, cap, |s|, i) && wire.clocks == old(wire.clocks) + i
      {
        ghost var sofar := s + Same(wire.tdi, i);
        var bit := ShiftTdo(ShiftDR, cap, sofar, d);
        assert sofar + [wire.tdi] == s + Same(wire.tdi, i + 1);
        OneMoreBit(cap, |s|, i, val, bit);
        val := (val + (if bit then Pow2(31) else 0)) / 2;
      }
      AllCollected(val, cap, |s|);
    }

    /** The last bit of a register from TDO, and the clocks for the devices between TDI and the selected one. */
    method LastOut(after: nat, ghost cap: Register, ghost s: Register, ghost d: Devices) returns (bit: bool,
                   ghost s': Register)
      requires wire.Scanning(ShiftDR, cap, s, d) && !wire.tms && |s| < |cap|
      modifies wire
      ensures wire.Scanning(Exit1DR, cap, s', d) && wire.tms && bit == cap[|s|] && s' == s + Same(wire.tdi, 1 + after)
      ensures wire.clocks == old(wire.clocks) + 1 + after
    {
      hide Wire.Valid, Wire.Scanning;
      var n := after;
      if n != 0 {
        bit := ShiftTdo(ShiftDR, cap, s, d);
        n := n - 1;
        Fill(n, ShiftDR, cap, s + [wire.tdi], d);
        ghost var s1 := s + [wire.tdi] + Same(wire.tdi, n);
        wire.tms := true;
        ShiftTck(ShiftDR, cap, s1, d);
        s' := s1 + [wire.tdi];
      } else {
        wire.tms := true;
        bit := ShiftTdo(ShiftDR, cap, s, d);
        s' := s + [wire.tdi];
      }
      assert s' == s + Same(wire.tdi, 1 + after);
    }

    /** JTAG_Transfer, without the timestamp. */
    method Transfer(request: nat, data: nat, idleCycles: nat) returns (ack: nat, val: nat)
      requires wire.Valid() && wire.tap == Idle && Selected(35)
      modifies wire
      ensures wire.Valid() && wire.tap == Idle && wire.dev == old(wire.dev).(written := wire.dev.written)
      ensures ack == Acknowledge(old(wire.dev).regs[index])
      ensures ack == TRANSFER_OK && !IsRead(request) ==>
        |wire.dev.written| == count && wire.dev.written[index] == RequestBits(request) + LowBits(data, 32)
      ensures ack == TRANSFER_OK && IsRead(request) ==>
        && |wire.dev.written| == count && |wire.dev.written[index]| == 35
        && wire.dev.written[index][..3] == RequestBits(request)
        && val == Value(old(wire.dev).regs[index][3..])
      // the register as a number (chapter B3 of Arm ADIv5.2): RnW, the two address bits, and the data
      ensures ack == TRANSFER_OK && !IsRead(request) && data < 0x1_0000_0000 ==>
        Value(wire.dev.written[index]) == 0 + 2 * (request / 4 % 4) + 8 * data
      ensures ack == TRANSFER_OK && IsRead(request) ==>
        Value(wire.dev.written[index][..3]) == 1 + 2 * (request / 4 % 4)
      ensures ack == TRANSFER_OK <==> Value(old(wire.dev).regs[index][..3]) == ACK_OK
      ensures ack == TRANSFER_WAIT <==> Value(old(wire.dev).regs[index][..3]) == ACK_WAIT
      ensures wire.clocks == old(wire.clocks) + idleCycles + if ack == TRANSFER_OK then count + 39 else index + 9
      ensures wire.tdi
    {
      hide Wire.Valid, Wire.Scanning;
      hide Flat, Cut, DataRegs, SelectedIn, LowBits, Value, Acknowledge, RequestBits;
      ghost var d := wire.dev;
      SelectedParts(d, index, count, 35);
      ghost var cap, reg := Flat(DataRegs(d)), d.regs[index];
      Layout(d, index, count, 35);
      ghost var s0, s2;
      ack, val, s0, s2 := Scan(request, data, cap, reg, d);
      LeaveDR(s2, d);
      wire.tdi := true;
      SlicesOfRegister(d, index, count, s0, RequestBits(request), s2, LowBits(data, 32), IsRead(request),
                       ack == TRANSFER_OK);
      RequestValue(request, data);
      AckMeans(reg);
      IdleCycles(idleCycles);
    }

    /** The scan of a transfer, up to Exit1-DR. */
    method Scan(request: nat, data: nat, ghost cap: Register, ghost reg: Register, ghost d: Devices)
      returns (ack: nat, val: nat, ghost s0: Register, ghost s: Register)
      requires wire.Valid() && wire.tap == Idle && index < count && wire.dev == d && |d.irs| == |d.regs|
      requires cap == Flat(DataRegs(d)) && |cap| == count - 1 + 35 && |reg| == 35 && cap[index..index + 35] == reg
      modifies wire
      ensures wire.Scanning(Exit1DR, cap, s, d) && wire.tms && ack == Acknowledge(reg) && |s0| == index
      ensures ack == TRANSFER_OK ==> |s| == |cap| && s0 + RequestBits(request) <= s
      ensures ack == TRANSFER_OK && !IsRead(request) ==> s0 + RequestBits(request) + LowBits(data, 32) <= s
      ensures ack == TRANSFER_OK && IsRead(request) ==> val == Value(reg[3..])
      ensures wire.clocks == old(wire.clocks) + index + 6 + if ack == TRANSFER_OK then 32 + (count - index - 1) else 1
    {
      hide Wire.Valid, Wire.Scanning;
      hide Flat, Cut, DataRegs, LowBits, Value, Acknowledge, RequestBits;
      EnterDR();
      Fill(index, ShiftDR, cap, [], d);
      s0 := [] + Same(wire.tdi, index);
      var b0, b1, b2, s1 := Header(request, cap, s0, d);
      ack := (if b0 then 2 else 0) + (if b1 then 1 else 0) + (if b2 then 4 else 0);
      AckOf(cap, index, reg, b0, b1, b2);
      val, s := DataPhase(request, data, ack, cap, s1, d);
      DataOf(cap, index, reg);
    }

    /** Everything between the acknowledge and Exit1-DR. */
    method DataPhase(request: nat, data: nat, ack: nat, ghost cap: Register, ghost s: Register, ghost d: Devices)
      returns (val: nat, ghost s': Register)
      requires wire.Scanning(ShiftDR, cap, s, d) && !wire.tms && index < count
      requires |s| + 32 + (count - index - 1) == |cap|
      modifies wire
      ensures wire.Scanning(Exit1DR, cap, s', d) && wire.tms
      ensures ack == TRANSFER_OK ==> |s'| == |cap| && (if IsRead(request) then s else s + LowBits(data, 32)) <= s'
      ensures ack == TRANSFER_OK && IsRead(request) ==> val == Value(cap[|s|..|s| + 32])
      ensures wire.clocks == old(wire.clocks) + if ack == TRANSFER_OK then 32 + (count - index - 1) else 1
    {
      hide Wire.Valid, Wire.Scanning;
      hide LowBits, Value;
      val := data;
      if ack != TRANSFER_OK {
        wire.tms := true;
        ShiftTck(ShiftDR, cap, s, d);
        s' := s + [wire.tdi];
      } else if IsRead(request) {
        val, s' := ReadData(cap, s, d);
      } else {
        s' := WriteData(data, cap, s, d);
      }
    }

    /** The request bits, against the acknowledge. */
    method Header(request: nat, ghost cap: Register, ghost s: Register, ghost d: Devices)
      returns (b0: bool, b1: bool, b2: bool, ghost s': Register)
      requires wire.Scanning(ShiftDR, cap, s, d) && !wire.tms && |s| + 3 <= |cap|
      modifies wire
      ensures wire.Scanning(ShiftDR, cap, s', d) && !wire.tms && s' == s + RequestBits(request)
      ensures b0 == cap[|s|] && b1 == cap[|s| + 1] && b2 == cap[|s| + 2]
      ensures wire.clocks == old(wire.clocks) + 3
    {
      hide Wire.Valid, Wire.Scanning;
      b0 := ShiftTdio(request / 2, ShiftDR, cap, s, d);
      ghost var s1 := s + [request / 2 % 2 == 1];
      b1 := ShiftTdio(request / 4, ShiftDR, cap, s1, d);
      ghost var s2 := s1 + [request / 4 % 2 == 1];
      b2 := ShiftTdio(request / 8, ShiftDR, cap, s2, d);
      s' := s2 + [request / 8 % 2 == 1];
      assert s' == s + RequestBits(request);
    }

    /** The data phase of a read. */
    method ReadData(ghost cap: Register, ghost s: Register, ghost d: Devices) returns (val: nat, ghost s': Register)
      requires wire.Scanning(ShiftDR, cap, s, d) && !wire.tms && index < count
      requires |s| + 32 + (count - index - 1) == |cap|
      modifies wire
      ensures wire.Scanning(Exit1DR, cap, s', d) && wire.tms && s <= s' && |s'| == |cap|
      ensures val == Value(cap[|s|..|s| + 32])
      ensures wire.clocks == old(wire.clocks) + 32 + (count - index - 1)
    {
      hide Wire.Valid, Wire.Scanning;
      hide Value;
      val := GetBits(cap, s, d);
      ghost var s1 := s + Same(wire.tdi, 31);
      var bit;
      bit, s' := LastOut(count - index - 1, cap, s1, d);
      ValueSnoc(cap[|s|..|s| + 31], bit);
      assert cap[|s|..|s| + 32] == cap[|s|..|s| + 31] + [bit];
      val := val + (if bit then Pow2(31) else 0);
    }

    /** The data phase of a write. */
    method WriteData(data: nat, ghost cap: Register, ghost s: Register, ghost d: Devices) returns (ghost s': Register)
      requires wire.Scanning(ShiftDR, cap, s, d) && !wire.tms && index < count
      requires |s| + 32 + (count - index - 1) == |cap|
      modifies wire
      ensures wire.Scanning(Exit1DR, cap, s', d) && wire.tms && |s'| == |cap| && s + LowBits(data, 32) <= s'
      ensures wire.clocks == old(wire.clocks) + 32 + (count - index - 1)
    {
      hide Wire.Valid, Wire.Scanning;
      hide LowBits;
      var rest, s1 := PutBits(data, 31, 1, ShiftDR, cap, s, d);
      OneBit(rest);
      s' := LastBit(rest, count - index - 1, false, ShiftDR, cap, s1, d);
    }

    method IdleCycles(n: nat)
      requires wire.Valid() && wire.tap == Idle && !wire.tms
      modifies wire
      ensures wire.Valid() && wire.tap == Idle && wire.dev == old(wire.dev)
      ensures wire.clocks == old(wire.clocks) + n && wire.tdi == old(wire.tdi)
    {
      hide Wire.Valid;
      for i := 0 to n
        invariant wire.Valid() && wire.tap == Idle && !wire.tms && wire.dev == old(wire.dev)
        invariant wire.clocks == old(wire.clocks) + i && wire.tdi == old(wire.tdi)
      {
        wire.Step();
      }
    }

    /** JTAG_ReadIDCode. */
    method ReadIDCode() returns (val: nat)
      requires wire.Valid() && wire.tap == Idle && Selected(32)
      modifies wire
      ensures wire.Valid() && wire.tap == Idle && wire.dev == old(wire.dev).(written := wire.dev.written)
      ensures val == Value(old(wire.dev).regs[index]) && wire.clocks == old(wire.clocks) + index + 37
    {
      hide Wire.Valid, Wire.Scanning;
      hide Flat, Cut, DataRegs, SelectedIn, Value, Pow2, SameShape, IsBypass, Offset;
      ghost var d := wire.dev;
      SelectedParts(d, index, count, 32);
      ghost var cap, reg := Flat(DataRegs(d)), d.regs[index];
      Layout(d, index, count, 32);
      EnterDR();
      Fill(index, ShiftDR, cap, [], d);
      ghost var s0 := [] + Same(wire.tdi, index);
      val := GetBits(cap, s0, d);
      ghost var s1 := s0 + Same(wire.tdi, 31);
      wire.tms := true;
      var bit := ShiftTdo(ShiftDR, cap, s1, d);
      WholeRegister(cap, index, reg, bit);
      val := val + (if bit then Pow2(31) else 0);
      LeaveDR(s1 + [wire.tdi], d);
    }

    /** JTAG_WriteAbort. */
    method WriteAbort(data: nat)
      requires wire.Valid() && wire.tap == Idle && Selected(35)
      modifies wire
      ensures wire.Valid() && wire.tap == Idle && wire.dev == old(wire.dev).(written := wire.dev.written)
      ensures |wire.dev.written| == count && wire.dev.written[index] == [false, false, false] + LowBits(data, 32)
      ensures wire.clocks == old(wire.clocks) + count + 39 && wire.tdi
    {
      hide Wire.Valid, Wire.Scanning;
      hide Flat, Cut, DataRegs, SelectedIn, LowBits;
      ghost var d := wire.dev;
      SelectedParts(d, index, count, 35);
      ghost var cap := Flat(DataRegs(d));
      Layout(d, index, count, 35);
      EnterDR();
      Fill(index, ShiftDR, cap, [], d);
      ghost var s0 := [] + Same(wire.tdi, index);
      wire.tdi := false;
      Fill(3, ShiftDR, cap, s0, d);
      assert Same(false, 3) == [false, false, false];
      ghost var s1 := s0 + [false, false, false];
      ghost var s2 := WriteData(data, cap, s1, d);
      LeaveDR(s2, d);
      SlicesOfRegister(d, index, count, s0, [false, false, false], s2, LowBits(data, 32), false, true);
      wire.tdi := true;
    }

    /** After DAP_JTAG_Configure with the lengths of the instruction registers, the chain is described right. */
    lemma ConfigureDescribes(lengths: seq<nat>)
      requires index < count == |lengths| == |wire.irCapture| <= irLength.Length == irBefore.Length == irAfter.Length
      requires forall j :: 0 <= j < count ==> lengths[j] == |wire.irCapture[j]| >= 1
      requires irLength[..count] == lengths
      requires irBefore[index] == Sum(lengths[..index]) && irAfter[index] == Sum(lengths[index + 1..])
      ensures Described()
    {
      hide Flat, Sum;
      LengthsAdd(lengths[..index], wire.irCapture[..index]);
      LengthsAdd(lengths[index + 1..], wire.irCapture[index + 1..]);
      assert irLength[index] == irLength[..count][index];
    }
  }

  const TRANSFER_OK: nat := 1
  const TRANSFER_WAIT: nat := 2

  // ACK of a JTAG-DP (chapter B3 of Arm ADIv5.2)
  const ACK_WAIT: nat := 1
  const ACK_OK: nat := 2

  predicate IsRead(request: nat) { request / 2 % 2 == 1 }

  /** RnW, A2, A3. */
  function RequestBits(request: nat): (r: Register)
    ensures |r| == 3
  {
    [request / 2 % 2 == 1, request / 4 % 2 == 1, request / 8 % 2 == 1]
  }

  /** ACK as a JTAG-DP shifts it out, in the order of bits that the SW-DP uses. */
  function Acknowledge(reg: Register): nat
    requires |reg| >= 3
  {
    (if reg[0] then 2 else 0) + (if reg[1] then 1 else 0) + (if reg[2] then 4 else 0)
  }

  /** The 35 bits of a request as a number: RnW lowest, then the address of the register, then the data. */
  lemma RequestValue(request: nat, data: nat)
    ensures Value(RequestBits(request)) == (if IsRead(request) then 1 else 0) + 2 * (request / 4 % 4)
    ensures data < 0x1_0000_0000 ==>
      Value(RequestBits(request) + LowBits(data, 32)) == Value(RequestBits(request)) + 8 * data
  {
    var bits, rest := RequestBits(request), LowBits(data, 32);
    ValueConcat(bits, rest);
    ThreeBits(bits);
    AddressBits(request / 4);
    assert request / 8 == request / 4 / 2;
    Pow2Of32();
    if data < 0x1_0000_0000 {
      ValueOfBits(data, 32);
    }
  }

  lemma Pow2Of32()
    ensures Pow2(3) == 8 && Pow2(32) == 0x1_0000_0000
  {
    EightMore(0);
    EightMore(8);
    EightMore(16);
    EightMore(24);
  }

  lemma EightMore(n: nat)
    ensures Pow2(n + 8) == 0x100 * Pow2(n)
  {
    TwoMore(n);
    TwoMore(n + 2);
    TwoMore(n + 4);
    TwoMore(n + 6);
  }

  lemma TwoMore(n: nat)
    ensures Pow2(n + 2) == 4 * Pow2(n)
  {
    assert Pow2(n + 1) == 2 * Pow2(n);
  }

  lemma AddressBits(n: nat)
    ensures n % 4 == (if n % 2 == 1 then 1 else 0) + 2 * (if n / 2 % 2 == 1 then 1 else 0)
  {
  }

  lemma ThreeBits(bits: Register)
    requires |bits| == 3
    ensures Value(bits) == (if bits[0] then 1 else 0) + 2 * (if bits[1] then 1 else 0) + 4 * (if bits[2] then 1 else 0)
  {
    var b1, b2 := bits[1..], bits[2..];
    assert b1[1..] == b2 && b2[1..] == [];
    assert Value(b2) == if bits[2] then 1 else 0;
    assert Value(b1) == (if bits[1] then 1 else 0) + 2 * Value(b2);
  }

  lemma {:induction false} ValueConcat(a: Register, b: Register)
    ensures Value(a + b) == Value(a) + Pow2(|a|) * Value(b)
  {
    if a == [] {
      assert a + b == b;
    } else {
      ValueConcat(a[1..], b);
      assert (a + b)[1..] == a[1..] + b;
      TwicePower(Pow2(|a| - 1), Value(b));
    }
  }

  lemma TwicePower(p: nat, v: nat)
    ensures 2 * (p * v) == 2 * p * v
  {
  }

  /** The acknowledges of a JTAG-DP have the numbers of those of an SW-DP. */
  lemma AckMeans(reg: Register)
    requires |reg| >= 3
    ensures Acknowledge(reg) == TRANSFER_OK <==> Value(reg[..3]) == ACK_OK
    ensures Acknowledge(reg) == TRANSFER_WAIT <==> Value(reg[..3]) == ACK_WAIT
  {
    ThreeBits(reg[..3]);
  }

  ghost predicate SelectedIn(d: Devices, index: nat, count: nat, n: nat) {
    && index < count == |d.irs| == |d.regs| && |d.regs[index]| == n && !IsBypass(d.irs[index])
    && forall j :: 0 <= j < count && j != index ==> IsBypass(d.irs[j])
  }

  /** Where the register of the selected device is in the chain. */
  lemma Layout(d: Devices, index: nat, count: nat, n: nat)
    requires SelectedIn(d, index, count, n)
    ensures |Flat(DataRegs(d))| == count - 1 + n && Flat(DataRegs(d))[index..index + n] == d.regs[index]
    ensures Offset(DataRegs(d), index) == index && Offset(DataRegs(d), index + 1) == index + n
  {
    hide Flat, IsBypass;
    var regs := DataRegs(d);
    FlatParts(regs, index);
    OneBitEach(regs[..index]);
    OneBitEach(regs[index + 1..]);
    assert regs == regs[..index] + [regs[index]] + regs[index + 1..];
    FlatConcat(regs[..index] + [regs[index]], regs[index + 1..]);
    FlatConcat(regs[..index], [regs[index]]);
    FlatOne(regs[index]);
  }

  lemma SelectedParts(d: Devices, index: nat, count: nat, n: nat)
    requires SelectedIn(d, index, count, n)
    ensures index < count == |d.irs| == |d.regs| && |d.regs[index]| == n
  {
  }

  lemma DataOf(cap: Register, o: nat, reg: Register)
    requires |reg| == 35 && o + 35 <= |cap| && cap[o..o + 35] == reg
    ensures cap[o + 3..o + 3 + 32] == reg[3..]
  {
  }

  lemma SlicesOfRegister(d: Devices, index: nat, count: nat, s0: Register, header: Register, s: Register,
                         bits: Register,
                         read: bool, ok: bool)
    requires SelectedIn(d, index, count, 35) && |s0| == index && |header| == 3 && |bits| == 32
    requires ok ==> |s| == count - 1 + 35 && (if read then s0 + header else s0 + header + bits) <= s
    ensures ok ==> |s| == |Flat(DataRegs(d))| && |Cut(s, DataRegs(d))| == count && |Cut(s, DataRegs(d))[index]| == 35
    ensures ok ==> Cut(s, DataRegs(d))[index][..3] == header
    ensures ok && !read ==> Cut(s, DataRegs(d))[index] == header + bits
  {
    hide Flat, Cut, SelectedIn, DataRegs;
    SelectedParts(d, index, count, 35);
    if ok {
      CutAt(d, index, count, 35, s);
      HeaderAndBits(s, s0, header, bits, read);
    }
  }

  lemma HeaderAndBits(s: Register, s0: Register, header: Register, bits: Register, read: bool)
    requires |s| >= |s0| + |header| + |bits| && (if read then s0 + header else s0 + header + bits) <= s
    ensures s[|s0|..|s0| + |header| + |bits|][..|header|] == header
    ensures !read ==> s[|s0|..|s0| + |header| + |bits|] == header + bits
  {
    var r := s[|s0|..|s0| + |header| + |bits|];
    var w := if read then s0 + header else s0 + header + bits;
    forall i | 0 <= i < |w| - |s0| ensures r[i] == w[|s0| + i] {
    }
  }

  lemma AckOf(cap: Register, o: nat, reg: Register, b0: bool, b1: bool, b2: bool)
    requires |reg| >= 3 && o + |reg| <= |cap| && cap[o..o + |reg|] == reg
    requires b0 == cap[o] && b1 == cap[o + 1] && b2 == cap[o + 2]
    ensures (if b0 then 2 else 0) + (if b1 then 1 else 0) + (if b2 then 4 else 0) == Acknowledge(reg)
  {
    var r := cap[o..o + |reg|];
    assert r[0] == cap[o] && r[1] == cap[o + 1] && r[2] == cap[o + 2];
  }

  lemma CutAt(d: Devices, index: nat, count: nat, n: nat, s: Register)
    requires SelectedIn(d, index, count, n) && |s| == count - 1 + n
    ensures |s| == |Flat(DataRegs(d))| && |Cut(s, DataRegs(d))| == count
    ensures Cut(s, DataRegs(d))[index] == s[index..index + n]
  {
    hide Flat, IsBypass, Offset;
    Layout(d, index, count, n);
  }

  lemma {:induction false} LengthsAdd(lengths: seq<nat>, regs: seq<Register>)
    requires |lengths| == |regs| && forall j :: 0 <= j < |regs| ==> lengths[j] == |regs[j]|
    ensures Sum(lengths) == |Flat(regs)|
  {
    if regs != [] {
      LengthsAdd(lengths[..|regs| - 1], regs[..|regs| - 1]);
    }
  }

  lemma WholeRegister(cap: Register, o: nat, reg: Register, bit: bool)
    requires |reg| == 32 && o + 32 <= |cap| && cap[o..o + 32] == reg && bit == cap[o + 31]
    ensures Value(cap[o..o + 31]) + (if bit then Pow2(31) else 0) == Value(reg)
  {
    hide Value, Pow2;
    ValueSnoc(cap[o..o + 31], bit);
    assert cap[o..o + 32] == cap[o..o + 31] + [bit];
  }

  /** What JTAG_IR leaves behind: the selected device has its instruction, and every other one bypasses; so a data scan
      reaches the register of the selected device only. */
  lemma OneSelected(d: Devices, shape: seq<Register>, index: nat, bits: Register, n: nat)
    requires index < |shape| == |d.regs| && |d.regs[index]| == n
    ensures Instructions(shape, index, bits)[index] == bits
    ensures forall j :: 0 <= j < |shape| && j != index ==> IsBypass(Instructions(shape, index, bits)[j])
    ensures SelectedIn(d.(irs := Instructions(shape, index, bits)), index, |shape|, n) <==> !IsBypass(bits)
  {
  }

  lemma {:induction false} OneBitEach(regs: seq<Register>)
    requires forall j :: 0 <= j < |regs| ==> |regs[j]| == 1
    ensures |Flat(regs)| == |regs|
  {
    if regs != [] {
      OneBitEach(regs[..|regs| - 1]);
    }
  }

  /** The word of a read after i bits. */
  ghost predicate Collected(val: nat, cap: Register, o: nat, i: nat) {
    i <= 31 && o + i <= |cap| && val == Value(cap[o..o + i]) * Pow2(31 - i)
  }

  lemma NothingCollected(cap: Register, o: nat)
    requires o <= |cap|
    ensures Collected(0, cap, o, 0)
  {
    assert cap[o..o + 0] == [];
  }

  lemma AllCollected(val: nat, cap: Register, o: nat)
    requires Collected(val, cap, o, 31)
    ensures o + 31 <= |cap| && val == Value(cap[o..o + 31])
  {
    hide Value;
    assert Pow2(0) == 1;
  }

  lemma OneMoreBit(cap: Register, o: nat, i: nat, val: nat, bit: bool)
    requires o + i < |cap| && i < 31 && bit == cap[o + i] && Collected(val, cap, o, i)
    ensures Collected((val + (if bit then Pow2(31) else 0)) / 2, cap, o, i + 1)
  {
    hide Value, Pow2;
    var v, p := Value(cap[o..o + i]), Pow2(30 - i);
    ValueSnoc(cap[o..o + i], bit);
    assert cap[o..o + (i + 1)] == cap[o..o + i] + [bit];
    Pow2Split(i, 30);
    Doubles(31);
    Doubles(31 - i);
    Halve(val, v, Pow2(31 - i), p, if bit then Pow2(i) else 0, if bit then Pow2(30) else 0,
          if bit then Pow2(31) else 0);
  }

  lemma Doubles(n: nat)
    requires n > 0
    ensures Pow2(n) == 2 * Pow2(n - 1)
  {
  }

  lemma Halve(val: nat, v: nat, q: nat, p: nat, b: nat, c: nat, top: nat)
    requires val == v * q && q == 2 * p && b * p == c && top == 2 * c
    ensures (val + top) / 2 == (v + b) * p
  {
    assert v * (2 * p) + 2 * c == 2 * ((v + b) * p);
  }

  lemma NextBit(s: Register, rest: nat, n: nat)
    requires n > 0
    ensures s + [rest % 2 == 1] + LowBits(rest / 2, n - 1) == s + LowBits(rest, n)
  {
  }

  lemma OneBit(v: nat)
    ensures LowBits(v, 1) == [v % 2 == 1]
  {
    assert LowBits(v / 2, 0) == [];
  }

  /** Bypass for all devices but one. */
  function Instructions(shape: seq<Register>, index: nat, bits: Register): (irs: seq<Register>)
    ensures |irs| == |shape|
  {
    seq(|shape|, j requires 0 <= j < |shape| => if j == index then bits else Same(true, |shape[j]|))
  }

  lemma InstructionsFlat(shape: seq<Register>, index: nat, bits: Register)
    requires index < |shape| && |bits| == |shape[index]|
    ensures Flat(Instructions(shape, index, bits))
      == Same(true, |Flat(shape[..index])|) + bits + Same(true, |Flat(shape[index + 1..])|)
    ensures |Flat(shape)| == |Flat(shape[..index])| + |bits| + |Flat(shape[index + 1..])|
    ensures Cut(Flat(Instructions(shape, index, bits)), shape) == Instructions(shape, index, bits)
  {
    var all, a, c := Instructions(shape, index, bits), shape[..index], shape[index + 1..];
    assert all == AllOnes(a) + [bits] + AllOnes(c);
    FlatConcat(AllOnes(a) + [bits], AllOnes(c));
    FlatConcat(AllOnes(a), [bits]);
    FlatOne(bits);
    FlatOfOnes(a);
    FlatOfOnes(c);
    CutFlat(all, shape);
  }

  function AllOnes(shape: seq<Register>): (r: seq<Register>)
    ensures |r| == |shape|
  {
    seq(|shape|, j requires 0 <= j < |shape| => Same(true, |shape[j]|))
  }

  lemma {:induction false} FlatOfOnes(shape: seq<Register>)
    ensures Flat(AllOnes(shape)) == Same(true, |Flat(shape)|)
  {
    if shape != [] {
      var n := |shape| - 1;
      FlatOfOnes(shape[..n]);
      assert AllOnes(shape)[..n] == AllOnes(shape[..n]);
    }
  }
}
