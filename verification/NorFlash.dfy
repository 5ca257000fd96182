/**
 The two primitive flash steps and the page erase, as values. An operation is cut after any number of
 programmed bytes: `Cut(m, ops, k)` is the flash after the supply lasted for `k` bytes of `ops`. A driver
 step that reports failure is the same thing seen by a caller that goes on running.
 */
module NorFlash {
  import opened Bytes

  const ZERO_LIMIT := 256

  datatype Op =
    | Write(addr: nat, data: seq<byte>)
    | Zero(addr: nat, len: nat)
    | Erase(addr: nat, len: nat)

  function Cost(op: Op): nat {
    match op
    case Write(_, data) => |data|
    case Zero(_, len) => len
    case Erase(_, len) => len
  }

  /** The region that a driver accepts, and whether it reads every write back before it reports success. */
  datatype Device = Device(size: nat, verify: bool)

  /** The checks made before the driver is asked: start inside the region, run inside it, zero buffer large enough. */
  predicate Accepts(op: Op, chip: Device) {
    && op.addr < chip.size
    && op.addr + Cost(op) <= chip.size
    && (op.Zero? ==> op.len <= ZERO_LIMIT)
  }

  /** What programming byte `i` of `op` makes of the byte stored there. */
  function Burn(op: Op, i: nat, was: byte): byte
    requires op.addr <= i < op.addr + Cost(op)
  {
    match op
    case Write(addr, data) => And(was, data[i - addr])
    case Zero(_, _) => And(was, 0)
    case Erase(_, _) => ERASED
  }

  /** The flash after the first `k` bytes of `op`. */
  function Apply(m: seq<byte>, op: Op, k: nat): (r: seq<byte>)
    ensures |r| == |m|
    ensures forall i :: 0 <= i < |m| ==>
      r[i] == if op.addr <= i < op.addr + Min(k, Cost(op)) then Burn(op, i, m[i]) else m[i]
  {
    seq(|m|, i requires 0 <= i < |m| =>
      if op.addr <= i < op.addr + Min(k, Cost(op)) then Burn(op, i, m[i]) else m[i])
  }

  function Total(ops: seq<Op>): nat {
    if ops == [] then 0 else Total(ops[..|ops| - 1]) + Cost(ops[|ops| - 1])
  }

  /** Programming `data` at `addr` leaves exactly `data` there: no bit that is clear has to be set. */
  predicate Programmable(m: seq<byte>, addr: nat, data: seq<byte>)
    requires addr + |data| <= |m|
  {
    forall x :: addr <= x < addr + |data| ==> And(m[x], data[x - addr]) == data[x - addr]
  }

  /** Reading `op` back, where the driver does that, finds what was written; zeros always take. */
  predicate Takes(m: seq<byte>, op: Op, chip: Device) {
    chip.verify && op.Write? && op.addr + |op.data| <= |m| ==> Programmable(m, op.addr, op.data)
  }

  /** Every operation is accepted and takes, and the supply lasts for all of them. */
  predicate Done(m: seq<byte>, ops: seq<Op>, k: nat, chip: Device): (r: bool)
    ensures r ==> Total(ops) <= k
    decreases |ops|
  {
    ops == [] ||
    var init := ops[..|ops| - 1];
    var last := ops[|ops| - 1];
    && Done(m, init, k, chip) && Accepts(last, chip) && Total(init) + Cost(last) <= k
    && Takes(Cut(m, init, k, chip), last, chip)
  }

  /** The flash when `ops` run in order, stopping at the first failure or after `k` programmed bytes. */
  function Cut(m: seq<byte>, ops: seq<Op>, k: nat, chip: Device): (r: seq<byte>)
    ensures |r| == |m|
    decreases |ops|
  {
    if ops == [] then m
    else
      var init := ops[..|ops| - 1];
      var last := ops[|ops| - 1];
      if Done(m, init, k, chip) && Accepts(last, chip)
      then Apply(Cut(m, init, k, chip), last, k - Total(init))
      else Cut(m, init, k, chip)
  }

  /** How many bytes of the supply that takes. */
  function Spent(m: seq<byte>, ops: seq<Op>, k: nat, chip: Device): (n: nat)
    ensures n <= k
    decreases |ops|
  {
    if ops == [] then 0
    else
      var init := ops[..|ops| - 1];
      var last := ops[|ops| - 1];
      if Done(m, init, k, chip) && Accepts(last, chip)
      then Total(init) + Min(Cost(last), k - Total(init))
      else Spent(m, init, k, chip)
  }

  /** The flash after all of `ops` when the supply lasts. */
  function Run(m: seq<byte>, ops: seq<Op>, chip: Device): (r: seq<byte>)
    ensures |r| == |m|
  {
    Cut(m, ops, Total(ops), chip)
  }

  lemma DoneSpent(m: seq<byte>, ops: seq<Op>, k: nat, chip: Device)
    requires Done(m, ops, k, chip)
    ensures Spent(m, ops, k, chip) == Total(ops) <= k
  {
  }

  /** One more operation after `ops`. */
  lemma CutSnoc(m: seq<byte>, ops: seq<Op>, op: Op, k: nat, chip: Device)
    ensures Total(ops + [op]) == Total(ops) + Cost(op)
    ensures Done(m, ops + [op], k, chip) <==>
            && Done(m, ops, k, chip) && Accepts(op, chip) && Total(ops) + Cost(op) <= k
            && Takes(Cut(m, ops, k, chip), op, chip)
    ensures Done(m, ops, k, chip) ==> Total(ops) <= k
    ensures Cut(m, ops + [op], k, chip) ==
            if Done(m, ops, k, chip) && Accepts(op, chip)
            then Apply(Cut(m, ops, k, chip), op, k - Total(ops))
            else Cut(m, ops, k, chip)
    ensures Spent(m, ops + [op], k, chip) ==
            if Done(m, ops, k, chip) && Accepts(op, chip)
            then Total(ops) + Min(Cost(op), k - Total(ops))
            else Spent(m, ops, k, chip)
  {
    var all := ops + [op];
    assert all[..|all| - 1] == ops;
  }

  /** Two more operations. */
  lemma CutTwo(m: seq<byte>, ops: seq<Op>, x: Op, y: Op, k: nat, chip: Device)
    ensures Total(ops + [x] + [y]) == Total(ops) + Cost(x) + Cost(y)
    ensures Done(m, ops + [x] + [y], k, chip) <==>
            && Done(m, ops, k, chip) && Accepts(x, chip) && Accepts(y, chip) && Total(ops) + Cost(x) + Cost(y) <= k
            && Takes(Cut(m, ops, k, chip), x, chip)
            && Takes(Apply(Cut(m, ops, k, chip), x, k - Total(ops)), y, chip)
    ensures Done(m, ops + [x] + [y], k, chip) ==>
      Cut(m, ops + [x] + [y], k, chip) ==
      Apply(Apply(Cut(m, ops, k, chip), x, k - Total(ops)), y, k - Total(ops) - Cost(x))
  {
    hide Cut, Done, Spent, Takes, Accepts;
    CutSnoc(m, ops, x, k, chip);
    CutSnoc(m, ops + [x], y, k, chip);
  }

  lemma CutNone(m: seq<byte>, k: nat, chip: Device)
    ensures Total([]) == 0 && Done(m, [], k, chip) && Cut(m, [], k, chip) == m && Spent(m, [], k, chip) == 0
  {
  }

  lemma CutOne(m: seq<byte>, op: Op, k: nat, chip: Device)
    ensures Total([op]) == Cost(op)
    ensures Done(m, [op], k, chip) <==> Accepts(op, chip) && Cost(op) <= k && Takes(m, op, chip)
    ensures Cut(m, [op], k, chip) == if Accepts(op, chip) then Apply(m, op, k) else m
  {
    CutSnoc(m, [], op, k, chip);
    assert [] + [op] == [op];
  }

  lemma {:induction false} TotalConcat(a: seq<Op>, b: seq<Op>)
    ensures Total(a + b) == Total(a) + Total(b)
  {
    hide Cost;
    if b == [] {
      assert a + b == a;
    } else {
      var init := b[..|b| - 1];
      TotalConcat(a, init);
      assert (a + b)[..|a + b| - 1] == a + init;
    }
  }

  /** The second list stands still: what the first leaves, whether or not it got done. */
  lemma ConcatNone(m: seq<byte>, a: seq<Op>, k: nat, chip: Device)
    ensures Joined(m, a, [], k, chip)
  {
    hide Cut, Done, Spent;
    assert a + [] == a;
    if Done(m, a, k, chip) {
      DoneSpent(m, a, k, chip);
      CutNone(Cut(m, a, k, chip), k - Total(a), chip);
    }
  }

  /** `b` runs on what `a` left, if `a` got done. */
  predicate Joined(m: seq<byte>, a: seq<Op>, b: seq<Op>, k: nat, chip: Device) {
    if Done(m, a, k, chip) then
      var c := Cut(m, a, k, chip);
      var j := k - Total(a);
      && Done(m, a + b, k, chip) == Done(c, b, j, chip)
      && Cut(m, a + b, k, chip) == Cut(c, b, j, chip)
      && Spent(m, a + b, k, chip) == Total(a) + Spent(c, b, j, chip)
    else
      && !Done(m, a + b, k, chip)
      && Cut(m, a + b, k, chip) == Cut(m, a, k, chip)
      && Spent(m, a + b, k, chip) == Spent(m, a, k, chip)
  }

  /** One more operation in the second list. */
  lemma ConcatSnoc(m: seq<byte>, a: seq<Op>, init: seq<Op>, op: Op, k: nat, chip: Device)
    requires Joined(m, a, init, k, chip)
    ensures Joined(m, a, init + [op], k, chip)
  {
    hide Cut, Done, Spent, Total, Takes, Accepts, Apply, Cost;
    assert a + (init + [op]) == (a + init) + [op];
    TotalConcat(a, init);
    CutSnoc(m, a + init, op, k, chip);
    if Done(m, a, k, chip) {
      DoneSpent(m, a, k, chip);
      CutSnoc(Cut(m, a, k, chip), init, op, k - Total(a), chip);
    }
  }

  lemma {:induction false} Join(m: seq<byte>, a: seq<Op>, b: seq<Op>, k: nat, chip: Device)
    ensures Joined(m, a, b, k, chip)
    decreases |b|
  {
    hide Joined;
    if b == [] {
      ConcatNone(m, a, k, chip);
    } else {
      Join(m, a, b[..|b| - 1], k, chip);
      ConcatSnoc(m, a, b[..|b| - 1], b[|b| - 1], k, chip);
      assert b == b[..|b| - 1] + [b[|b| - 1]];
    }
  }

  /** Two lists in a row: the second runs on what the first left, if the first got done. */
  lemma CutConcat(m: seq<byte>, a: seq<Op>, b: seq<Op>, k: nat, chip: Device)
    ensures Total(a + b) == Total(a) + Total(b)
    ensures Done(m, a, k, chip) ==> Total(a) <= k
    ensures Done(m, a + b, k, chip) <==>
            Done(m, a, k, chip) && Done(Cut(m, a, k, chip), b, k - Total(a), chip)
    ensures Cut(m, a + b, k, chip) ==
            if Done(m, a, k, chip) then Cut(Cut(m, a, k, chip), b, k - Total(a), chip) else Cut(m, a, k, chip)
    ensures Spent(m, a + b, k, chip) ==
            if Done(m, a, k, chip) then Total(a) + Spent(Cut(m, a, k, chip), b, k - Total(a), chip)
            else Spent(m, a, k, chip)
  {
    hide Cut, Done, Spent, Total;
    TotalConcat(a, b);
    Join(m, a, b, k, chip);
  }

  /** When `a` does not get done, nothing of `all` that would follow it happens. */
  predicate Halts(m: seq<byte>, a: seq<Op>, all: seq<Op>, k: nat, chip: Device) {
    !Done(m, a, k, chip) ==>
      && !Done(m, all, k, chip)
      && Cut(m, all, k, chip) == Cut(m, a, k, chip) && Spent(m, all, k, chip) == Spent(m, a, k, chip)
  }

  lemma HaltsAt(m: seq<byte>, a: seq<Op>, b: seq<Op>, k: nat, chip: Device)
    ensures Halts(m, a, a + b, k, chip)
  {
    CutConcat(m, a, b, k, chip);
  }

  /** A supply that is large enough is as good as any other. */
  lemma {:induction false} DoneMore(m: seq<byte>, ops: seq<Op>, k: nat, j: nat, chip: Device)
    requires Done(m, ops, k, chip) && Total(ops) <= j
    ensures Done(m, ops, j, chip) && Cut(m, ops, j, chip) == Cut(m, ops, k, chip)
    decreases |ops|
  {
    hide Takes, Accepts;
    if ops != [] {
      var init := ops[..|ops| - 1];
      var last := ops[|ops| - 1];
      DoneMore(m, init, k, j, chip);
      var c := Cut(m, init, k, chip);
      assert Apply(c, last, k - Total(init)) == Apply(c, last, j - Total(init));
    }
  }

  /** So a list that is stopped by a check is stopped at the same place. */
  lemma {:induction false} CutSame(m: seq<byte>, ops: seq<Op>, j: nat, k: nat, chip: Device)
    requires Total(ops) <= j && Total(ops) <= k
    ensures Cut(m, ops, j, chip) == Cut(m, ops, k, chip) && Done(m, ops, j, chip) == Done(m, ops, k, chip)
    decreases |ops|
  {
    hide Takes, Accepts;
    if ops != [] {
      var init := ops[..|ops| - 1];
      var last := ops[|ops| - 1];
      CutSame(m, init, j, k, chip);
      var c := Cut(m, init, k, chip);
      assert Apply(c, last, j - Total(init)) == Apply(c, last, k - Total(init));
    }
  }

  /** Every operation works inside [a, b). */
  predicate Within(ops: seq<Op>, a: nat, b: nat) {
    forall op :: op in ops ==> a <= op.addr && op.addr + Cost(op) <= b
  }

  /** Bytes outside the window of the operations never change, wherever the run is cut. */
  lemma {:induction false} CutFrame(m: seq<byte>, ops: seq<Op>, k: nat, chip: Device, a: nat, b: nat)
    requires Within(ops, a, b)
    ensures forall i :: 0 <= i < |m| && !(a <= i < b) ==> Cut(m, ops, k, chip)[i] == m[i]
  {
    if ops != [] {
      assert ops[|ops| - 1] in ops;
      CutFrame(m, ops[..|ops| - 1], k, chip, a, b);
    }
  }

  /** A range that no operation overlaps, but for those that are refused, never changes. */
  lemma {:induction false} CutSpares(m: seq<byte>, ops: seq<Op>, k: nat, chip: Device, a: nat, b: nat)
    requires forall op :: op in ops ==> !Accepts(op, chip) || op.addr + Cost(op) <= a || b <= op.addr
    ensures forall i :: a <= i < b && i < |m| ==> Cut(m, ops, k, chip)[i] == m[i]
  {
    hide Accepts, Takes;
    if ops != [] {
      assert ops[|ops| - 1] in ops;
      CutSpares(m, ops[..|ops| - 1], k, chip, a, b);
    }
  }

  lemma CutMisses(m: seq<byte>, ops: seq<Op>, k: nat, chip: Device, a: nat, b: nat)
    requires forall op :: op in ops ==> op.addr + Cost(op) <= a || b <= op.addr
    ensures forall i :: a <= i < b && i < |m| ==> Cut(m, ops, k, chip)[i] == m[i]
  {
    hide Cut, Accepts;
    CutSpares(m, ops, k, chip, a, b);
  }

  /** Programming leaves exactly the data if and only if no bit has to be set that is clear. */
  lemma ProgrammableExactly(m: seq<byte>, addr: nat, data: seq<byte>)
    requires addr + |data| <= |m|
    ensures Programmable(m, addr, data) <==> forall x :: addr <= x < addr + |data| ==> Subset(data[x - addr], m[x])
  {
    hide And, Subset;
    forall x | addr <= x < addr + |data| ensures And(m[x], data[x - addr]) == data[x - addr] <==> Subset(data[x - addr], m[x]) {
      AndTakes(m[x], data[x - addr]);
    }
  }

  lemma SubsetSelf(a: nat)
    ensures Subset(a, a)
  {
  }

  /** No step but an erase sets a bit. */
  lemma ApplyClears(m: seq<byte>, op: Op, k: nat, x: nat)
    requires x < |m| && (op.Erase? ==> !(op.addr <= x < op.addr + Cost(op)))
    ensures Subset(Apply(m, op, k)[x], m[x])
  {
    hide And, Subset;
    SubsetSelf(m[x]);
    if op.addr <= x < op.addr + Cost(op) {
      match op
      case Write(addr, data) => AndClears(m[x], data[x - addr]);
      case Zero(_, _) => AndClears(m[x], 0);
      case Erase(_, _) =>
    }
  }

  /** No bit is set in `n` that is clear in `m`. */
  ghost predicate Cleared(m: seq<byte>, n: seq<byte>) {
    |n| == |m| && forall x :: 0 <= x < |m| ==> Subset(n[x], m[x])
  }

  lemma WriteClears(m: seq<byte>, addr: nat, data: seq<byte>, k: nat)
    ensures Cleared(m, Apply(m, Write(addr, data), k)) && Cleared(m, m)
  {
    hide Subset, Apply;
    forall x | 0 <= x < |m| ensures Subset(Apply(m, Write(addr, data), k)[x], m[x]) && Subset(m[x], m[x]) {
      ApplyClears(m, Write(addr, data), k, x);
      SubsetSelf(m[x]);
    }
  }

  /** Wherever a run of steps is cut, a byte that none of them erases has no bit set that was clear. */
  lemma {:induction false} CutClears(m: seq<byte>, ops: seq<Op>, k: nat, chip: Device, x: nat)
    requires x < |m| && forall op :: op in ops && op.Erase? ==> !(op.addr <= x < op.addr + Cost(op))
    ensures Subset(Cut(m, ops, k, chip)[x], m[x])
  {
    hide Takes, Accepts, Apply, Subset;
    if ops == [] {
      SubsetSelf(m[x]);
    } else {
      var init := ops[..|ops| - 1];
      var last := ops[|ops| - 1];
      assert last in ops;
      var c := Cut(m, init, k, chip);
      CutClears(m, init, k, chip, x);
      if Done(m, init, k, chip) {
        ApplyClears(c, last, k - Total(init), x);
        SubsetTrans(Apply(c, last, k - Total(init))[x], c[x], m[x]);
      }
    }
  }
}
