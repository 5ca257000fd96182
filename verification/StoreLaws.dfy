/**
 What repair and update do to the store, for every flash content: exactly when the scan afterwards reports
 what it should, and what a reader sees wherever an update is cut.
 */
module StoreLaws {
  import opened Bytes
  import opened NorFlash
  import opened Records
  import opened Store
  import opened StoreSteps
  import opened Copies

  lemma PageLive(g: Geometry, m: seq<byte>, lo: nat)
    requires IsFlash(g, m) && lo <= g.pageLen
    ensures Live(g.crc, m, First(lo), PageScan(g, m, lo), lo + g.pageLen)
    ensures Quiet(g.crc, m, First(lo), PageScan(g, m, lo), lo + g.pageLen)
    ensures InOrder(PageScan(g, m, lo), First(lo))
    ensures forall e :: e in PageScan(g, m, lo) ==> Stored(g.crc, m, e, lo + g.pageLen)
  {
    hide Scan, Stored, Quiet, InOrder;
    ScanIsLive(g.crc, m, First(lo), lo + g.pageLen);
  }

  /** Entries whose bytes did not change are still records. */
  lemma StillLive(g: Geometry, m: seq<byte>, n: seq<byte>, lo: nat, t: seq<Entry>)
    requires IsFlash(g, m) && lo <= g.pageLen && |n| == |m|
    requires InOrder(t, First(lo))
    requires forall e :: e in t ==> e in PageScan(g, m, lo) && Same(m, n, e.at, e.End())
    ensures Live(g.crc, n, First(lo), t, lo + g.pageLen)
  {
    PageLive(g, m, lo);
    forall i | 0 <= i < |t| ensures Stored(g.crc, n, t[i], lo + g.pageLen) {
      assert t[i] in t;
      StoredFrame(g.crc, m, n, t[i], lo + g.pageLen);
    }
  }

  /** Wherever repairs are cut, the copies they keep are untouched. */
  lemma RepairUntouched(g: Geometry, m: seq<byte>, lo: nat, id: nat, k: nat, e: Entry)
    requires IsFlash(g, m) && Active(g, m) == Some(lo) && e in Keep(PageScan(g, m, lo), id)
    ensures Same(m, Cut(m, RepairOps(PageScan(g, m, lo), id), k, Chip(g)), e.at, e.End())
  {
    var s := PageScan(g, m, lo);
    PageLive(g, m, lo);
    forall op | op in RepairOps(s, id) ensures op.addr + Cost(op) <= e.at || e.End() <= op.addr {
      RepairMisses(s, First(lo), id, op, e);
    }
    CutMisses(m, RepairOps(s, id), k, Chip(g), e.at, e.End());
  }

  lemma RepairAll(g: Geometry, m: seq<byte>, lo: nat, id: nat, k: nat)
    requires IsFlash(g, m) && Active(g, m) == Some(lo)
    ensures var s := PageScan(g, m, lo);
            var n := Cut(m, RepairOps(s, id), k, Chip(g));
            && Active(g, n) == Some(lo) && First(lo) <= Empty(g, m, lo) && Same(m, n, Empty(g, m, lo), |m|)
  {
    var s := PageScan(g, m, lo);
    assert s[..|s|] == s;
    RepairSame(g, m, lo, |s|, id, k);
  }

  /**
   Duplicate repair. A search that succeeds leaves exactly the last copy of `id`, if and only if no dead
   offset of the repaired page passes the record test; then the map is unchanged and a second search for
   the same id writes nothing.
   */
  lemma RepairExact(g: Geometry, m: seq<byte>, lo: nat, id: nat)
    requires IsFlash(g, m) && Active(g, m) == Some(lo)
    ensures var s := PageScan(g, m, lo);
            var n := Run(m, RepairOps(s, id), Chip(g));
            var quiet := Quiet(g.crc, n, First(lo), Keep(s, id), lo + g.pageLen);
            && Active(g, n) == Some(lo)
            && (PageScan(g, n, lo) == Keep(s, id) <==> quiet)
            && (quiet ==> View(g, n) == View(g, m) && GetPlan(g, n, id) == Plan([], GetPlan(g, m, id).verdict))
  {
    hide Cut, Done, Scan, PageScan, Keep, RepairOps;
    var s := PageScan(g, m, lo);
    var k := Total(RepairOps(s, id));
    var n := Cut(m, RepairOps(s, id), k, Chip(g));
    RepairAll(g, m, lo, id, k);
    PageLive(g, m, lo);
    DropOrder(s, First(lo), id);
    KeepIn(s, id);
    forall e | e in Keep(s, id) ensures Same(m, n, e.at, e.End()) {
      RepairUntouched(g, m, lo, id, k, e);
    }
    StillLive(g, m, n, lo, Keep(s, id));
    PageExact(g, n, lo, Keep(s, id));
    KeepMap(s, id);
    KeepRepaired(s, id);
  }

  lemma PageExact(g: Geometry, n: seq<byte>, lo: nat, t: seq<Entry>)
    requires IsFlash(g, n) && lo <= g.pageLen
    requires Live(g.crc, n, First(lo), t, lo + g.pageLen)
    ensures PageScan(g, n, lo) == t <==> Quiet(g.crc, n, First(lo), t, lo + g.pageLen)
  {
    hide Scan, Live, Quiet, Stored;
    ScanExact(g.crc, n, First(lo), t, lo + g.pageLen);
  }

  /** Repairs are refused exactly when a copy that is not the last has more than 249 payload bytes. */
  lemma RepairAccepted(g: Geometry, m: seq<byte>, lo: nat, id: nat)
    requires IsFlash(g, m) && Active(g, m) == Some(lo)
    ensures var s := PageScan(g, m, lo);
            (forall op :: op in RepairOps(s, id) ==> Accepts(op, Chip(g))) <==>
            (forall e :: e in s && e !in Keep(s, id) ==> |e.data| <= 249)
  {
    var s := PageScan(g, m, lo);
    PageLive(g, m, lo);
    if forall e :: e in s && e !in Keep(s, id) ==> |e.data| <= 249 {
      forall op | op in RepairOps(s, id) ensures Accepts(op, Chip(g)) {
        RepairKills(s, First(lo), id, op);
        var e :| e in s && e.id == id && op.addr == e.at && Cost(op) == HEADER_LEN + |e.data|
                 && e.End() <= Last(s, id).value.at;
        KeepIn(s, id);
        assert Stored(g.crc, m, Last(s, id).value, lo + g.pageLen);
      }
    }
    if forall op :: op in RepairOps(s, id) ==> Accepts(op, Chip(g)) {
      forall e | e in s && e !in Keep(s, id) ensures |e.data| <= 249 {
        KilledHasOp(s, id, e);
        var op := Zero(e.at, HEADER_LEN + |e.data|);
        assert Accepts(op, Chip(g));
      }
    }
  }

  lemma {:induction false} KilledHasOp(s: seq<Entry>, id: nat, e: Entry)
    requires e in s && e !in Keep(s, id)
    ensures Zero(e.at, HEADER_LEN + |e.data|) in RepairOps(s, id)
  {
    var init := s[..|s| - 1];
    var l := s[|s| - 1];
    assert s == init + [l];
    KeepIn(s, id);
    KeepIn(init, id);
    assert e in init;
    if e in Keep(init, id) {
      assert l.id == id && Last(init, id) == Some(e);
    } else {
      KilledHasOp(init, id, e);
    }
  }

  /** Enough space for header and payload, and for the strict scan bound. The code itself only asks for `rem >= n`. */
  predicate HasRoom(g: Geometry, lo: nat, empty: nat, n: nat) {
    empty + HEADER_LEN + n <= lo + g.pageLen && empty + MIN_FILE_LEN < lo + g.pageLen
  }

  /** A record of `n` payload bytes at `empty` is one that the scan looks at, even if it overhangs the page. */
  predicate InSight(g: Geometry, lo: nat, empty: nat, n: nat) {
    empty + MIN_FILE_LEN < lo + g.pageLen && empty + n < lo + g.pageLen
  }

  function New(g: Geometry, m: seq<byte>, lo: nat, id: nat, data: seq<byte>): Entry
    requires IsFlash(g, m) && lo <= g.pageLen
  {
    Entry(Empty(g, m, lo), id, data)
  }

  /** Repairs, header and payload: everything an update does before it kills the previous header. */
  function AppendOps(g: Geometry, m: seq<byte>, lo: nat, id: nat, data: seq<byte>): seq<Op>
    requires IsFlash(g, m) && lo <= g.pageLen
  {
    var e := New(g, m, lo, id, data);
    RepairOps(PageScan(g, m, lo), id) + [Write(e.at, Header(g, id, data))] + [Write(e.at + HEADER_LEN, data)]
  }

  /** The call goes on to write: valid arguments, value not already stored, enough space by the code's own test. */
  predicate Updates(g: Geometry, m: seq<byte>, lo: nat, id: nat, data: seq<byte>)
    requires IsFlash(g, m)
  {
    && Active(g, m) == Some(lo) && id < INVALID_ID && 0 < |data| <= 0xFFFF
    && First(lo) <= Empty(g, m, lo)
    && (var p := Last(PageScan(g, m, lo), id); p.Some? ==> p.value.data != data)
    && RemSpace(g, lo, Empty(g, m, lo)) >= |data|
  }

  lemma SetPlanIs(g: Geometry, m: seq<byte>, lo: nat, id: nat, data: seq<byte>)
    requires IsFlash(g, m) && Updates(g, m, lo, id, data)
    ensures var p := Last(PageScan(g, m, lo), id);
            SetPlan(g, m, id, data) ==
            Plan(AppendOps(g, m, lo, id, data) + (if p.Some? then [Zero(p.value.at, HEADER_LEN)] else []), true)
  {
    var p := Last(PageScan(g, m, lo), id);
    UpdateShape(g, RepairOps(PageScan(g, m, lo), id), Empty(g, m, lo), id, data, p);
    var a := AppendOps(g, m, lo, id, data);
    assert a + [] == a;
  }

  /** The header fields of an encoded entry read back. */
  lemma EncodedHeader(g: Geometry, m: seq<byte>, e: Entry)
    requires e.End() <= |m| && m[e.at..e.End()] == Encode(g, e) && e.id <= 0xFFFF && |e.data| <= 0xFFFF
    ensures U16(m, e.at) == e.id && U16(m, e.at + 2) == 0xFFFF - e.id && U16(m, e.at + 4) == |e.data|
    ensures m[e.at + 6] == g.crc(e.data)
  {
    var image := m[e.at..e.End()];
    hide U16, Low, High;
    forall i | 0 <= i < HEADER_LEN ensures m[e.at + i] == Header(g, e.id, e.data)[i] {
      assert m[e.at + i] == image[i];
    }
    var h := Header(g, e.id, e.data);
    assert m[e.at + 0] == h[0] && m[e.at + 1] == h[1] && m[e.at + 2] == h[2] && m[e.at + 3] == h[3];
    assert m[e.at + 4] == h[4] && m[e.at + 5] == h[5] && m[e.at + 6] == h[6];
    HeaderWords(m, e.at, e.id, |e.data|);
  }

  lemma HeaderWords(m: seq<byte>, at: nat, id: nat, len: nat)
    requires at + HEADER_LEN <= |m| && id <= 0xFFFF && len <= 0xFFFF
    requires m[at + 0] == Low(id) && m[at + 1] == High(id) && m[at + 2] == 0xFF - Low(id) && m[at + 3] == 0xFF - High(id)
    requires m[at + 4] == Low(len) && m[at + 5] == High(len)
    ensures U16(m, at) == id && U16(m, at + 2) == 0xFFFF - id && U16(m, at + 4) == len
  {
    hide Low, High;
    WordBytes(id);
    WordBytes(len);
  }

  lemma EncodedData(g: Geometry, m: seq<byte>, e: Entry)
    requires e.End() <= |m| && m[e.at..e.End()] == Encode(g, e)
    ensures m[e.at + HEADER_LEN..e.End()] == e.data
  {
    hide Header;
    assert m[e.at + HEADER_LEN..e.End()] == m[e.at..e.End()][HEADER_LEN..];
  }

  /** Bytes that are the encoding of an entry in sight of the scan are a record. */
  lemma EncodedStored(g: Geometry, m: seq<byte>, e: Entry, hi: nat)
    requires hi + SPILL <= |m| && e.End() <= |m|
    requires m[e.at..e.End()] == Encode(g, e)
    requires e.id <= 0xFFFF && |e.data| <= 0xFFFF
    requires e.at + MIN_FILE_LEN < hi && |e.data| < hi - e.at
    ensures Stored(g.crc, m, e, hi)
  {
    hide Encode, U16;
    EncodedHeader(g, m, e);
    EncodedData(g, m, e);
  }

  lemma HeaderThenData(m: seq<byte>, at: nat, header: seq<byte>, data: seq<byte>, j: nat, k: nat)
    requires |header| <= j && |data| <= k && at + |header| + |data| <= |m|
    ensures var n := Apply(Apply(m, Write(at, header), j), Write(at + |header|, data), k);
            forall x :: at <= x < at + |header| + |data| ==> n[x] == And(m[x], (header + data)[x - at])
  {
  }

  /** What header and payload make of the bytes at `at`. */
  lemma AppendBytes(g: Geometry, m: seq<byte>, lo: nat, id: nat, data: seq<byte>, k: nat)
    requires IsFlash(g, m) && Active(g, m) == Some(lo) && Done(m, AppendOps(g, m, lo, id, data), k, Chip(g))
    ensures var e := New(g, m, lo, id, data);
            var n := Cut(m, AppendOps(g, m, lo, id, data), k, Chip(g));
            e.End() <= |m| &&
            forall x :: e.at <= x < e.End() ==> n[x] == And(m[x], Encode(g, e)[x - e.at])
  {
    hide Cut, Done, PageScan, RepairOps, Header, Empty, Takes, Apply;
    var e := New(g, m, lo, id, data);
    var ops := RepairOps(PageScan(g, m, lo), id);
    RepairAll(g, m, lo, id, k);
    CutTwo(m, ops, Write(e.at, Header(g, id, data)), Write(e.at + HEADER_LEN, data), k, Chip(g));
    HeaderThenData(Cut(m, ops, k, Chip(g)), e.at, Header(g, id, data), data, k - Total(ops), k - Total(ops) - HEADER_LEN);
  }

  lemma ProgrammableSame(m: seq<byte>, n: seq<byte>, a: nat, data: seq<byte>, from: nat)
    requires Same(m, n, from, |m|) && from <= a && a + |data| <= |m|
    ensures Programmable(m, a, data) <==> Programmable(n, a, data)
  {
  }

  lemma ProgrammableBoth(m: seq<byte>, a: nat, x: seq<byte>, y: seq<byte>)
    requires a + |x| + |y| <= |m|
    ensures Programmable(m, a, x + y) <==> Programmable(m, a, x) && Programmable(m, a + |x|, y)
  {
    if Programmable(m, a, x + y) {
      forall i | a <= i < a + |x| ensures And(m[i], x[i - a]) == x[i - a] {
        assert (x + y)[i - a] == x[i - a];
      }
      forall i | a + |x| <= i < a + |x| + |y| ensures And(m[i], y[i - a - |x|]) == y[i - a - |x|] {
        assert (x + y)[i - a] == y[i - a - |x|];
      }
    }
  }

  /** Two writes in a row take exactly when the bytes of both could be programmed before. */
  lemma WritesTake(m: seq<byte>, c: seq<byte>, a: nat, x: seq<byte>, y: seq<byte>, k: nat)
    requires Same(m, c, a, |m|) && a + |x| + |y| <= |m|
    ensures Programmable(m, a, x + y) <==>
            Programmable(c, a, x) && Programmable(Apply(c, Write(a, x), k), a + |x|, y)
  {
    hide Programmable;
    ProgrammableSame(m, c, a, x, a);
    ProgrammableSame(m, c, a + |x|, y, a);
    ProgrammableSame(c, Apply(c, Write(a, x), k), a + |x|, y, a + |x|);
    ProgrammableBoth(m, a, x, y);
  }

  /** Exactly when header and payload get written, once the repairs are done. */
  lemma AppendGoes(g: Geometry, m: seq<byte>, lo: nat, id: nat, data: seq<byte>, k: nat)
    requires IsFlash(g, m) && Active(g, m) == Some(lo) && data != []
    ensures var e := New(g, m, lo, id, data);
            Done(m, AppendOps(g, m, lo, id, data), k, Chip(g)) <==>
            && Done(m, RepairOps(PageScan(g, m, lo), id), k, Chip(g))
            && e.End() <= 2 * g.pageLen && Total(AppendOps(g, m, lo, id, data)) <= k
            && (g.verify ==> Programmable(m, e.at, Encode(g, e)))
  {
    hide Cut, Done, PageScan, RepairOps, Header, Empty, Programmable, Apply, Total;
    var e := New(g, m, lo, id, data);
    var ops := RepairOps(PageScan(g, m, lo), id);
    var h := Header(g, id, data);
    RepairAll(g, m, lo, id, k);
    CutTwo(m, ops, Write(e.at, h), Write(e.at + HEADER_LEN, data), k, Chip(g));
    if Done(m, ops, k, Chip(g)) && e.End() <= 2 * g.pageLen {
      WritesTake(m, Cut(m, ops, k, Chip(g)), e.at, h, data, k - Total(ops));
    }
  }

  /** Zeros are never refused by the verification. */
  lemma {:induction false} ZerosGo(m: seq<byte>, ops: seq<Op>, k: nat, chip: Device)
    requires forall op :: op in ops ==> op.Zero?
    ensures Done(m, ops, k, chip) <==> Total(ops) <= k && forall op :: op in ops ==> Accepts(op, chip)
  {
    if ops != [] {
      var init := ops[..|ops| - 1];
      var last := ops[|ops| - 1];
      assert ops == init + [last] && last in ops;
      ZerosGo(m, init, k, chip);
    }
  }

  /** Exactly when all repairs get done. */
  lemma RepairGoes(g: Geometry, m: seq<byte>, lo: nat, id: nat, k: nat)
    requires IsFlash(g, m) && Active(g, m) == Some(lo)
    ensures var s := PageScan(g, m, lo);
            Done(m, RepairOps(s, id), k, Chip(g)) <==>
            Total(RepairOps(s, id)) <= k && forall e :: e in s && e !in Keep(s, id) ==> |e.data| <= 249
  {
    hide PageScan, RepairOps, Keep, Done;
    var s := PageScan(g, m, lo);
    PageLive(g, m, lo);
    forall op | op in RepairOps(s, id) ensures op.Zero? { RepairKills(s, First(lo), id, op); }
    ZerosGo(m, RepairOps(s, id), k, Chip(g));
    RepairAccepted(g, m, lo, id);
  }

  /** Exactly when an update gets done. */
  lemma SetGoes(g: Geometry, m: seq<byte>, lo: nat, id: nat, data: seq<byte>, k: nat)
    requires IsFlash(g, m) && Updates(g, m, lo, id, data)
    ensures var e := New(g, m, lo, id, data);
            Done(m, SetPlan(g, m, id, data).ops, k, Chip(g)) <==>
            && Done(m, RepairOps(PageScan(g, m, lo), id), k, Chip(g))
            && e.End() <= 2 * g.pageLen && Total(SetPlan(g, m, id, data).ops) <= k
            && (g.verify ==> Programmable(m, e.at, Encode(g, e)))
  {
    hide Cut, Done, PageScan, RepairOps, Header, Empty, Programmable, SetPlan, AppendOps, Encode;
    SetPlanIs(g, m, lo, id, data);
    AppendGoes(g, m, lo, id, data, k);
    var ops := AppendOps(g, m, lo, id, data);
    var p := Last(PageScan(g, m, lo), id);
    if p.Some? {
      CutSnoc(m, ops, Zero(p.value.at, HEADER_LEN), k, Chip(g));
      PageLive(g, m, lo);
      StoredInSight(g, m, p.value, lo + g.pageLen);
    } else {
      assert ops + [] == ops;
    }
  }

  /** With room, and bytes that can be programmed, the new entry is a record once header and payload are written. */
  lemma NewStored(g: Geometry, m: seq<byte>, lo: nat, id: nat, data: seq<byte>, k: nat)
    requires IsFlash(g, m) && Updates(g, m, lo, id, data)
    requires InSight(g, lo, Empty(g, m, lo), |data|)
    requires Programmable(m, Empty(g, m, lo), Encode(g, New(g, m, lo, id, data)))
    requires Done(m, AppendOps(g, m, lo, id, data), k, Chip(g))
    ensures Stored(g.crc, Cut(m, AppendOps(g, m, lo, id, data), k, Chip(g)), New(g, m, lo, id, data), lo + g.pageLen)
  {
    hide Cut, Done, PageScan, Encode, Empty, AppendOps, Stored;
    var e := New(g, m, lo, id, data);
    var n := Cut(m, AppendOps(g, m, lo, id, data), k, Chip(g));
    AppendBytes(g, m, lo, id, data, k);
    assert n[e.at..e.End()] == Encode(g, e);
    EncodedStored(g, n, e, lo + g.pageLen);
  }

  /** The log an update should leave: no old copy, the new record at the end. */
  function Updated(g: Geometry, m: seq<byte>, lo: nat, id: nat, data: seq<byte>): seq<Entry>
    requires IsFlash(g, m) && lo <= g.pageLen
  {
    Without(PageScan(g, m, lo), id) + [New(g, m, lo, id, data)]
  }

  lemma EndsBeforeEmpty(g: Geometry, m: seq<byte>, lo: nat, e: Entry)
    requires IsFlash(g, m) && lo <= g.pageLen && e in PageScan(g, m, lo)
    ensures e.End() <= Empty(g, m, lo) && First(lo) <= e.at
  {
    var s := PageScan(g, m, lo);
    PageLive(g, m, lo);
    OrderInit(s, First(lo));
    assert s == s[..|s| - 1] + [s[|s| - 1]];
    var i :| 0 <= i < |s| && s[i] == e;
    AtLeast(s, First(lo), i);
  }

  lemma UpdatedOrder(g: Geometry, m: seq<byte>, lo: nat, id: nat, data: seq<byte>)
    requires IsFlash(g, m) && lo <= g.pageLen && First(lo) <= Empty(g, m, lo)
    ensures InOrder(Updated(g, m, lo, id, data), First(lo))
    ensures InOrder(PageScan(g, m, lo) + [New(g, m, lo, id, data)], First(lo))
  {
    hide PageScan, Empty;
    var s := PageScan(g, m, lo);
    PageLive(g, m, lo);
    DropOrder(s, First(lo), id);
    forall e | e in s ensures e.End() <= Empty(g, m, lo) { EndsBeforeEmpty(g, m, lo, e); }
    OrderSnoc(Without(s, id), First(lo), New(g, m, lo, id, data));
    OrderSnoc(s, First(lo), New(g, m, lo, id, data));
  }

  /** Wherever an update is cut, it has touched no record of another id, and the last copy only by killing it. */
  lemma UpdateUntouched(g: Geometry, m: seq<byte>, lo: nat, id: nat, data: seq<byte>, k: nat, e: Entry)
    requires IsFlash(g, m) && Updates(g, m, lo, id, data) && e in Keep(PageScan(g, m, lo), id)
    ensures Same(m, Cut(m, AppendOps(g, m, lo, id, data), k, Chip(g)), e.at, e.End())
    ensures e.id != id ==> Same(m, Cut(m, SetPlan(g, m, id, data).ops, k, Chip(g)), e.at, e.End())
  {
    hide Cut, Header, Keep, Empty, PageScan, RepairOps, SetPlan;
    var s := PageScan(g, m, lo);
    var ops := AppendOps(g, m, lo, id, data);
    PageInOrder(g, m, lo);
    KeepIn(s, id);
    EndsBeforeEmpty(g, m, lo, e);
    forall op | op in ops ensures op.addr + Cost(op) <= e.at || e.End() <= op.addr {
      if op in RepairOps(s, id) { RepairMisses(s, First(lo), id, op, e); }
    }
    CutMisses(m, ops, k, Chip(g), e.at, e.End());
    if e.id != id {
      SetPlanIs(g, m, lo, id, data);
      var p := Last(s, id);
      if p.Some? { Disjoint(s, First(lo), e, p.value); }
      CutMisses(m, SetPlan(g, m, id, data).ops, k, Chip(g), e.at, e.End());
    }
  }

  /** The kill of the previous header does not touch the new record, or anything before the page's first record. */
  lemma KillMisses(g: Geometry, m: seq<byte>, lo: nat, id: nat, data: seq<byte>, k: nat)
    requires IsFlash(g, m) && Updates(g, m, lo, id, data)
    ensures var a := Cut(m, AppendOps(g, m, lo, id, data), k, Chip(g));
            var n := Cut(m, SetPlan(g, m, id, data).ops, k, Chip(g));
            && Same(a, n, Empty(g, m, lo), |m|) && Same(a, n, 0, First(lo))
            && (n != a ==> Last(PageScan(g, m, lo), id).Some? && Done(m, AppendOps(g, m, lo, id, data), k, Chip(g)))
  {
    hide Cut, Done, PageScan, Empty, AppendOps, Apply, SetPlan, Spent, Total, Takes;
    SetPlanIs(g, m, lo, id, data);
    var p := Last(PageScan(g, m, lo), id);
    var ops := AppendOps(g, m, lo, id, data);
    if p.Some? {
      var kill := Zero(p.value.at, HEADER_LEN);
      EndsBeforeEmpty(g, m, lo, p.value);
      CutSnoc(m, ops, kill, k, Chip(g));
      if Done(m, ops, k, Chip(g)) {
        ApplyOutside(Cut(m, ops, k, Chip(g)), kill, k - Total(ops), Empty(g, m, lo), |m|);
        ApplyOutside(Cut(m, ops, k, Chip(g)), kill, k - Total(ops), 0, First(lo));
      }
    } else {
      assert ops + [] == ops;
    }
  }

  /** No update, cut anywhere, touches the mark of the active page; so the page stays active. */
  lemma UpdateActive(g: Geometry, m: seq<byte>, lo: nat, id: nat, data: seq<byte>, k: nat)
    requires IsFlash(g, m) && Updates(g, m, lo, id, data)
    ensures Active(g, Cut(m, AppendOps(g, m, lo, id, data), k, Chip(g))) == Some(lo)
    ensures Active(g, Cut(m, SetPlan(g, m, id, data).ops, k, Chip(g))) == Some(lo)
  {
    hide Cut, Done, PageScan, Empty, SetPlan;
    var s := PageScan(g, m, lo);
    var ops := AppendOps(g, m, lo, id, data);
    PageLive(g, m, lo);
    forall op | op in ops ensures op.addr + Cost(op) <= 0 || First(lo) <= op.addr {
      if op in RepairOps(s, id) {
        RepairKills(s, First(lo), id, op);
        var x :| x in s && x.id == id && op.addr == x.at && Cost(op) == HEADER_LEN + |x.data|
                 && x.End() <= Last(s, id).value.at;
        EndsBeforeEmpty(g, m, lo, x);
      }
    }
    CutMisses(m, ops, k, Chip(g), 0, First(lo));
    ActiveKept(g, m, Cut(m, ops, k, Chip(g)), lo);
    KillMisses(g, m, lo, id, data, k);
    ActiveKept(g, m, Cut(m, SetPlan(g, m, id, data).ops, k, Chip(g)), lo);
  }

  /**
   What an update stores. After a call whose writes all succeed, the scan reports the old records of the
   other ids followed by the new record if and only if the new record was in sight of the scan, the bytes at
   the end of the log could be programmed, and no dead offset afterwards passes the record test. It is inside
   the page as well if and only if there was room for header and payload. Then the reader's map is the old one
   with `id` set to `data`.
   */
  lemma SetExact(g: Geometry, m: seq<byte>, lo: nat, id: nat, data: seq<byte>)
    requires IsFlash(g, m) && Updates(g, m, lo, id, data)
    requires var plan := SetPlan(g, m, id, data); Done(m, plan.ops, Total(plan.ops), Chip(g))
    ensures var n := Run(m, SetPlan(g, m, id, data).ops, Chip(g));
            var e := New(g, m, lo, id, data);
            var want := Updated(g, m, lo, id, data);
            && e.End() <= |m|
            && (PageScan(g, n, lo) == want <==>
                && InSight(g, lo, e.at, |data|)
                && Programmable(m, e.at, Encode(g, e))
                && Quiet(g.crc, n, First(lo), want, lo + g.pageLen))
            && (InSight(g, lo, e.at, |data|) && e.End() <= lo + g.pageLen <==> HasRoom(g, lo, e.at, |data|))
            && (PageScan(g, n, lo) == want ==> View(g, n) == View(g, m)[id := data])
  {
    hide Cut, Done, PageScan, Empty, SetPlan, AppendOps, Encode, Quiet, Stored;
    var plan := SetPlan(g, m, id, data);
    var k := Total(plan.ops);
    var n := Cut(m, plan.ops, k, Chip(g));
    var e := New(g, m, lo, id, data);
    var want := Updated(g, m, lo, id, data);
    AppendDone(g, m, lo, id, data, k);
    AppendBytes(g, m, lo, id, data, k);
    KillMisses(g, m, lo, id, data, k);
    UpdateActive(g, m, lo, id, data, k);
    UpdateMap(PageScan(g, m, lo), e);
    if InSight(g, lo, e.at, |data|) && Programmable(m, e.at, Encode(g, e)) {
      UpdatedLive(g, m, lo, id, data, k);
      PageExact(g, n, lo, want);
    }
    if PageScan(g, n, lo) == want {
      PageLive(g, n, lo);
      assert e in PageScan(g, n, lo);
      NewWasStored(g, m, n, lo, id, data);
    }
  }

  lemma AppendDone(g: Geometry, m: seq<byte>, lo: nat, id: nat, data: seq<byte>, k: nat)
    requires IsFlash(g, m) && Updates(g, m, lo, id, data) && Done(m, SetPlan(g, m, id, data).ops, k, Chip(g))
    ensures Done(m, AppendOps(g, m, lo, id, data), k, Chip(g))
  {
    hide Cut, Done, PageScan, Empty, SetPlan, AppendOps;
    SetPlanIs(g, m, lo, id, data);
    var p := Last(PageScan(g, m, lo), id);
    if p.Some? {
      CutSnoc(m, AppendOps(g, m, lo, id, data), Zero(p.value.at, HEADER_LEN), k, Chip(g));
    } else {
      assert AppendOps(g, m, lo, id, data) + [] == AppendOps(g, m, lo, id, data);
    }
  }

  lemma UpdatedLive(g: Geometry, m: seq<byte>, lo: nat, id: nat, data: seq<byte>, k: nat)
    requires IsFlash(g, m) && Updates(g, m, lo, id, data)
    requires InSight(g, lo, Empty(g, m, lo), |data|)
    requires Programmable(m, Empty(g, m, lo), Encode(g, New(g, m, lo, id, data)))
    requires Done(m, AppendOps(g, m, lo, id, data), k, Chip(g))
    ensures Live(g.crc, Cut(m, SetPlan(g, m, id, data).ops, k, Chip(g)), First(lo),
                 Updated(g, m, lo, id, data), lo + g.pageLen)
  {
    hide Cut, Done, PageScan, Empty, SetPlan, AppendOps, Encode, Stored, Programmable;
    var n := Cut(m, SetPlan(g, m, id, data).ops, k, Chip(g));
    var a := Cut(m, AppendOps(g, m, lo, id, data), k, Chip(g));
    var e := New(g, m, lo, id, data);
    var t := Without(PageScan(g, m, lo), id);
    UpdatedOrder(g, m, lo, id, data);
    NewStored(g, m, lo, id, data, k);
    KillMisses(g, m, lo, id, data, k);
    StoredFrame(g.crc, a, n, e, lo + g.pageLen);
    forall i | 0 <= i < |t + [e]| ensures Stored(g.crc, n, (t + [e])[i], lo + g.pageLen) {
      if i < |t| {
        assert t[i] in t;
        OthersStored(g, m, lo, id, data, k, t[i]);
      }
    }
  }

  /** The records of other ids are still records, wherever an update is cut. */
  lemma OthersStored(g: Geometry, m: seq<byte>, lo: nat, id: nat, data: seq<byte>, k: nat, x: Entry)
    requires IsFlash(g, m) && Updates(g, m, lo, id, data) && x in PageScan(g, m, lo) && x.id != id
    ensures Stored(g.crc, Cut(m, SetPlan(g, m, id, data).ops, k, Chip(g)), x, lo + g.pageLen)
  {
    hide Cut, Done, PageScan, Empty, SetPlan, Stored, Keep, Live, Quiet, InOrder;
    PageLive(g, m, lo);
    KeepIn(PageScan(g, m, lo), id);
    UpdateUntouched(g, m, lo, id, data, k, x);
    StoredFrame(g.crc, m, Cut(m, SetPlan(g, m, id, data).ops, k, Chip(g)), x, lo + g.pageLen);
  }

  /** Programming a byte with the value it has changes nothing. */
  lemma {:induction false} AndSelf(a: nat)
    ensures And(a, a) == a
  {
    if a > 0 {
      AndSelf(a / 2);
    }
  }

  /** Bytes that are a record, each as it was or programmed, could all be programmed. */
  lemma StoredProgrammable(g: Geometry, m: seq<byte>, n: seq<byte>, e: Entry, hi: nat)
    requires hi + SPILL <= |n| && |m| == |n| && e.End() <= |n| && Stored(g.crc, n, e, hi)
    requires Mixed(m, n, e.at, Encode(g, e))
    ensures Programmable(m, e.at, Encode(g, e))
  {
    hide Encode, And;
    RecordImage(g, n, e, hi);
    forall x | e.at <= x < e.End() ensures And(m[x], Encode(g, e)[x - e.at]) == Encode(g, e)[x - e.at] {
      assert n[x] == n[e.at..e.End()][x - e.at];
      ByteTakes(m[x], n[x], Encode(g, e)[x - e.at]);
    }
  }

  lemma ByteTakes(was: byte, now: byte, want: byte)
    requires now == want && (now == was || now == And(was, want))
    ensures And(was, want) == want
  {
    AndSelf(was);
  }

  lemma StoredInSight(g: Geometry, n: seq<byte>, e: Entry, hi: nat)
    requires hi + SPILL <= |n| && Stored(g.crc, n, e, hi)
    ensures e.at + MIN_FILE_LEN < hi && e.at + |e.data| < hi
  {
  }

  lemma NewWasStored(g: Geometry, m: seq<byte>, n: seq<byte>, lo: nat, id: nat, data: seq<byte>)
    requires IsFlash(g, m) && Updates(g, m, lo, id, data) && |n| == |m|
    requires var e := New(g, m, lo, id, data);
             && e.End() <= |m| && Stored(g.crc, n, e, lo + g.pageLen)
             && forall x :: e.at <= x < e.End() ==> n[x] == And(m[x], Encode(g, e)[x - e.at])
    ensures InSight(g, lo, Empty(g, m, lo), |data|)
    ensures Programmable(m, Empty(g, m, lo), Encode(g, New(g, m, lo, id, data)))
  {
    hide PageScan, Empty, Encode, Stored, Programmable;
    StoredInSight(g, n, New(g, m, lo, id, data), lo + g.pageLen);
    StoredProgrammable(g, m, n, New(g, m, lo, id, data), lo + g.pageLen);
  }

  /** Every offset of a page is inside a scanned record or dead. */
  lemma {:induction false} Locate(s: seq<Entry>, o: nat, hi: nat, x: nat, n: nat)
    requires InOrder(s, o) && n <= |s| && o <= x < Limit(s, hi, n)
    ensures (exists i :: 0 <= i < n && s[i].at <= x < s[i].End()) ||
            (exists i :: 0 <= i <= n && Bound(s, o, i) <= x < Limit(s, hi, i))
  {
    if x >= Bound(s, o, n) {
      assert Bound(s, o, n) <= x < Limit(s, hi, n);
    } else if x < s[n - 1].at {
      Locate(s, o, hi, x, n - 1);
    } else {
      assert s[n - 1].at <= x < s[n - 1].End();
    }
  }

  /** If the scan reports only entries of `t`, it reports every entry of `t` that is a record. */
  lemma ScanFinds(g: Geometry, n: seq<byte>, lo: nat, t: seq<Entry>, e: Entry)
    requires IsFlash(g, n) && lo <= g.pageLen && InOrder(t, First(lo))
    requires forall x :: x in PageScan(g, n, lo) ==> x in t
    requires e in t && First(lo) <= e.at && Stored(g.crc, n, e, lo + g.pageLen)
    ensures e in PageScan(g, n, lo)
  {
    hide Scan, PageScan;
    var s := PageScan(g, n, lo);
    PageLive(g, n, lo);
    Locate(s, First(lo), lo + g.pageLen, e.at, |s|);
    if i :| 0 <= i < |s| && s[i].at <= e.at < s[i].End() {
      assert s[i] in t;
      Disjoint(t, First(lo), s[i], e);
    }
  }

  /** A record whose bytes did not change is still found, if the scan reports nothing but `t`. */
  lemma StillFound(g: Geometry, m: seq<byte>, n: seq<byte>, lo: nat, t: seq<Entry>, e: Entry)
    requires IsFlash(g, m) && IsFlash(g, n) && lo <= g.pageLen
    requires e in PageScan(g, m, lo) && Same(m, n, e.at, e.End())
    requires InOrder(t, First(lo)) && e in t && forall x :: x in PageScan(g, n, lo) ==> x in t
    ensures e in PageScan(g, n, lo)
  {
    hide PageScan, Stored;
    PageLive(g, m, lo);
    StoredFrame(g.crc, m, n, e, lo + g.pageLen);
    EndsBeforeEmpty(g, m, lo, e);
    ScanFinds(g, n, lo, t, e);
  }

  /** The lookup in a log `s` that has all live copies of `j` a log `t` has, up to the last one. */
  lemma SameLookup(s: seq<Entry>, t: seq<Entry>, o: nat, j: nat)
    requires InOrder(s, o) && InOrder(t, o)
    requires forall x :: x in s && x.id == j ==> x in t
    requires Last(t, j).Some? ==> Last(t, j).value in s
    ensures Last(s, j) == Last(t, j)
  {
    LastNone(s, j);
    LastNone(t, j);
    if Last(t, j).Some? {
      var e := Last(t, j).value;
      forall x | x in s && x.id == j ensures x.at <= e.at {
        LastHighest(t, o, x);
      }
      LastUnique(s, o, e);
    }
  }

  /** Equal lookups are equal maps. */
  lemma LookupsAreMaps(s: seq<Entry>, m: map<nat, seq<byte>>)
    requires forall j: nat :: Last(s, j).Some? <==> j in m
    requires forall j: nat :: j in m ==> Last(s, j).value.data == m[j]
    ensures MapOf(s) == m
  {
    forall j: nat ensures j in MapOf(s) <==> j in m {
      LastIsMap(s, j);
    }
    forall j: nat | j in m ensures MapOf(s)[j] == m[j] {
      LastIsMap(s, j);
    }
  }

  /** A log that differs from `t` only in what it says of `id`. */
  lemma CutMap(s: seq<Entry>, t: seq<Entry>, o: nat, e: Entry)
    requires InOrder(s, o) && InOrder(t, o) && InOrder(t + [e], o)
    requires forall x :: x in s ==> x in t || x == e
    requires forall x :: x in Keep(t, e.id) && x.id != e.id ==> x in s
    requires e in s || (Last(t, e.id).Some? ==> Last(t, e.id).value in s)
    ensures MapOf(s) == if e in s then MapOf(t)[e.id := e.data] else MapOf(t)
  {
    hide Keep, MapOf;
    var want := if e in s then MapOf(t)[e.id := e.data] else MapOf(t);
    forall j: nat
      ensures Last(s, j).Some? <==> j in want
      ensures j in want ==> Last(s, j).value.data == want[j]
    {
      LastIsMap(t, j);
      if j != e.id || e !in s {
        forall x | x in s && x.id == j ensures x in t {}
        if j != e.id && Last(t, j).Some? {
          KeepHas(t, e.id, Last(t, j).value);
        }
        SameLookup(s, t, o, j);
      } else {
        OrderInit(t + [e], o);
        assert (t + [e])[..|t|] == t;
        forall x | x in s && x.id == e.id ensures x.at <= e.at {
          if x in t { assert x.End() <= e.at; }
        }
        LastUnique(s, o, e);
      }
    }
    LookupsAreMaps(s, want);
  }

  lemma KeepHas(t: seq<Entry>, id: nat, e: Entry)
    requires e in t && e.id != id
    ensures e in Keep(t, id)
  {
    KeepIn(t, id);
  }

  predicate Mixed(m: seq<byte>, n: seq<byte>, at: nat, data: seq<byte>) {
    |n| == |m| &&
    forall x :: at <= x < at + |data| && x < |m| ==> n[x] == m[x] || n[x] == And(m[x], data[x - at])
  }

  lemma TwoCuts(c: seq<byte>, d: seq<byte>, n: seq<byte>, at: nat, x: seq<byte>, y: seq<byte>, j: nat, k: nat)
    requires d == c || d == Apply(c, Write(at, x), j)
    requires n == d || n == Apply(d, Write(at + |x|, y), k)
    ensures Mixed(c, n, at, x + y)
  {
  }

  lemma AppendMixed(g: Geometry, m: seq<byte>, lo: nat, id: nat, data: seq<byte>, k: nat)
    requires IsFlash(g, m) && lo <= g.pageLen
    ensures var e := New(g, m, lo, id, data);
            Mixed(Cut(m, RepairOps(PageScan(g, m, lo), id), k, Chip(g)), Cut(m, AppendOps(g, m, lo, id, data), k, Chip(g)),
                  e.at, Encode(g, e))
  {
    hide Cut, Done, PageScan, RepairOps, Header, Empty, Apply, Takes, Accepts, Mixed, Total;
    var at := Empty(g, m, lo);
    var ops := RepairOps(PageScan(g, m, lo), id);
    var h := Header(g, id, data);
    var a := ops + [Write(at, h)];
    CutSnoc(m, ops, Write(at, h), k, Chip(g));
    CutSnoc(m, a, Write(at + HEADER_LEN, data), k, Chip(g));
    TwoCuts(Cut(m, ops, k, Chip(g)), Cut(m, a, k, Chip(g)), Cut(m, AppendOps(g, m, lo, id, data), k, Chip(g)), at, h, data,
            if Done(m, ops, k, Chip(g)) then k - Total(ops) else 0, if Done(m, a, k, Chip(g)) then k - Total(a) else 0);
  }

  /** Wherever an update is cut, each byte of the new record is as it was or has been programmed. */
  lemma UpdateBytes(g: Geometry, m: seq<byte>, lo: nat, id: nat, data: seq<byte>, k: nat)
    requires IsFlash(g, m) && Updates(g, m, lo, id, data)
    ensures var e := New(g, m, lo, id, data);
            Mixed(m, Cut(m, SetPlan(g, m, id, data).ops, k, Chip(g)), e.at, Encode(g, e))
  {
    hide Cut, Done, PageScan, RepairOps, Encode, Empty, SetPlan, AppendOps, Mixed;
    var e := New(g, m, lo, id, data);
    RepairAll(g, m, lo, id, k);
    KillMisses(g, m, lo, id, data, k);
    AppendMixed(g, m, lo, id, data, k);
    MixedSame(m, Cut(m, RepairOps(PageScan(g, m, lo), id), k, Chip(g)), Cut(m, AppendOps(g, m, lo, id, data), k, Chip(g)),
              Cut(m, SetPlan(g, m, id, data).ops, k, Chip(g)), e.at, Encode(g, e));
  }

  lemma MixedSame(m: seq<byte>, c: seq<byte>, d: seq<byte>, n: seq<byte>, at: nat, data: seq<byte>)
    requires Same(m, c, at, |m|) && Mixed(c, d, at, data) && Same(d, n, at, |m|)
    ensures Mixed(m, n, at, data)
  {
  }

  /** A new record that is found could be programmed, even if the update did not get done. */
  lemma FoundProgrammable(g: Geometry, m: seq<byte>, lo: nat, id: nat, data: seq<byte>, k: nat)
    requires IsFlash(g, m) && Updates(g, m, lo, id, data)
    requires New(g, m, lo, id, data) in PageScan(g, Cut(m, SetPlan(g, m, id, data).ops, k, Chip(g)), lo)
    ensures var e := New(g, m, lo, id, data);
            e.End() <= |m| && InSight(g, lo, e.at, |data|) && Programmable(m, e.at, Encode(g, e))
  {
    hide Cut, PageScan, Empty, SetPlan, Encode, Stored, Programmable;
    var e := New(g, m, lo, id, data);
    var n := Cut(m, SetPlan(g, m, id, data).ops, k, Chip(g));
    PageLive(g, n, lo);
    StoredInSight(g, n, e, lo + g.pageLen);
    UpdateBytes(g, m, lo, id, data, k);
    StoredProgrammable(g, m, n, e, lo + g.pageLen);
  }

  /** The scan of the flash `n` reports no record that was never stored: no torn or dead bytes collide under the CRC. */
  ghost predicate NoPhantom(g: Geometry, m: seq<byte>, n: seq<byte>, lo: nat, extra: Option<Entry>)
    requires IsFlash(g, m) && IsFlash(g, n) && lo <= g.pageLen
  {
    forall e :: e in PageScan(g, n, lo) ==> e in PageScan(g, m, lo) || Some(e) == extra
  }

  /** Wherever an update is cut, if header and payload made it only where they can be seen. */
  lemma CutAtomic(g: Geometry, m: seq<byte>, lo: nat, id: nat, data: seq<byte>, k: nat)
    requires IsFlash(g, m) && Updates(g, m, lo, id, data)
    requires Done(m, AppendOps(g, m, lo, id, data), k, Chip(g)) ==>
               var e := New(g, m, lo, id, data);
               InSight(g, lo, e.at, |data|) && e.End() <= |m| && Programmable(m, e.at, Encode(g, e))
    requires NoPhantom(g, m, Cut(m, SetPlan(g, m, id, data).ops, k, Chip(g)), lo, Some(New(g, m, lo, id, data)))
    ensures var n := Cut(m, SetPlan(g, m, id, data).ops, k, Chip(g));
            var found := New(g, m, lo, id, data) in PageScan(g, n, lo);
            && Active(g, n) == Some(lo)
            && View(g, n) == (if found then View(g, m)[id := data] else View(g, m))
            && (Done(m, AppendOps(g, m, lo, id, data), k, Chip(g)) ==> found)
  {
    hide Cut, Done, PageScan, Empty, SetPlan, AppendOps, Encode, Stored, Keep, InSight, Programmable, Same, Updates, NoPhantom,
         MapOf;
    UpdatesEnd(g, m, lo, id, data);
    var s := PageScan(g, m, lo);
    var e := New(g, m, lo, id, data);
    var n := Cut(m, SetPlan(g, m, id, data).ops, k, Chip(g));
    UpdateActive(g, m, lo, id, data, k);
    PageInOrder(g, m, lo);
    PageInOrder(g, n, lo);
    UpdatedOrder(g, m, lo, id, data);
    KeepIn(s, id);
    NoOthers(g, m, n, lo, e);
    forall x | x in Keep(s, id) && x.id != id ensures x in PageScan(g, n, lo) {
      UpdateUntouched(g, m, lo, id, data, k, x);
      StillFound(g, m, n, lo, s + [e], x);
    }
    if Done(m, AppendOps(g, m, lo, id, data), k, Chip(g)) {
      NewFound(g, m, lo, id, data, k);
    } else if Last(s, id).Some? {
      KillMisses(g, m, lo, id, data, k);
      UpdateUntouched(g, m, lo, id, data, k, Last(s, id).value);
      StillFound(g, m, n, lo, s + [e], Last(s, id).value);
    }
    CutMap(PageScan(g, n, lo), s, First(lo), e);
  }

  lemma UpdatesEnd(g: Geometry, m: seq<byte>, lo: nat, id: nat, data: seq<byte>)
    requires IsFlash(g, m) && Updates(g, m, lo, id, data)
    ensures Active(g, m) == Some(lo) && First(lo) <= Empty(g, m, lo)
  {
  }

  lemma NoOthers(g: Geometry, m: seq<byte>, n: seq<byte>, lo: nat, e: Entry)
    requires IsFlash(g, m) && IsFlash(g, n) && lo <= g.pageLen && NoPhantom(g, m, n, lo, Some(e))
    ensures forall x :: x in PageScan(g, n, lo) ==> x in PageScan(g, m, lo) + [e]
    ensures forall x :: x in PageScan(g, n, lo) ==> x in PageScan(g, m, lo) || x == e
  {
  }

  /** Once header and payload are written where they can be seen, the new record is found, killed copy or not. */
  lemma NewFound(g: Geometry, m: seq<byte>, lo: nat, id: nat, data: seq<byte>, k: nat)
    requires IsFlash(g, m) && Updates(g, m, lo, id, data) && Done(m, AppendOps(g, m, lo, id, data), k, Chip(g))
    requires InSight(g, lo, Empty(g, m, lo), |data|) && New(g, m, lo, id, data).End() <= |m|
    requires Programmable(m, Empty(g, m, lo), Encode(g, New(g, m, lo, id, data)))
    requires NoPhantom(g, m, Cut(m, SetPlan(g, m, id, data).ops, k, Chip(g)), lo, Some(New(g, m, lo, id, data)))
    ensures New(g, m, lo, id, data) in PageScan(g, Cut(m, SetPlan(g, m, id, data).ops, k, Chip(g)), lo)
  {
    hide Cut, Done, PageScan, Empty, SetPlan, AppendOps, Encode, Stored, InSight, Programmable, NoPhantom;
    var e := New(g, m, lo, id, data);
    var n := Cut(m, SetPlan(g, m, id, data).ops, k, Chip(g));
    KillMisses(g, m, lo, id, data, k);
    NewStored(g, m, lo, id, data, k);
    StoredFrame(g.crc, Cut(m, AppendOps(g, m, lo, id, data), k, Chip(g)), n, e, lo + g.pageLen);
    UpdatedOrder(g, m, lo, id, data);
    NoOthers(g, m, n, lo, e);
    ScanFinds(g, n, lo, PageScan(g, m, lo) + [e], e);
  }

  /**
   Atomic update of the map. Wherever the flash operations of an update are cut, byte by byte, the map is the
   old one or the old one with `id` set to `data`, and the latter after a completed call, as long as the new
   record is in sight of the scan, its bytes can be programmed or are read back, and the scan of the cut flash
   reports no record that was never stored.
   */
  lemma SetAtomic(g: Geometry, m: seq<byte>, lo: nat, id: nat, data: seq<byte>, k: nat)
    requires IsFlash(g, m) && Updates(g, m, lo, id, data)
    requires InSight(g, lo, Empty(g, m, lo), |data|)
    requires g.verify || Programmable(m, Empty(g, m, lo), Encode(g, New(g, m, lo, id, data)))
    requires NoPhantom(g, m, Cut(m, SetPlan(g, m, id, data).ops, k, Chip(g)), lo, Some(New(g, m, lo, id, data)))
    ensures var n := Cut(m, SetPlan(g, m, id, data).ops, k, Chip(g));
            && Active(g, n) == Some(lo)
            && (View(g, n) == View(g, m) || View(g, n) == View(g, m)[id := data])
            && (New(g, m, lo, id, data) !in PageScan(g, n, lo) ==> View(g, n) == View(g, m))
            && (New(g, m, lo, id, data) in PageScan(g, n, lo) ==> View(g, n) == View(g, m)[id := data])
            && (Done(m, SetPlan(g, m, id, data).ops, k, Chip(g)) ==> New(g, m, lo, id, data) in PageScan(g, n, lo))
  {
    hide Cut, Done, PageScan, Empty, SetPlan, AppendOps, Encode, View, Programmable;
    if Done(m, AppendOps(g, m, lo, id, data), k, Chip(g)) {
      AppendGoes(g, m, lo, id, data, k);
    }
    CutAtomic(g, m, lo, id, data, k);
    if Done(m, SetPlan(g, m, id, data).ops, k, Chip(g)) {
      AppendDone(g, m, lo, id, data, k);
    }
  }

  /**
   A device that reads its writes back. Where the end of the log cannot be programmed to the new record, the
   update does not get done, so the call reports failure, and every id reads as before.
   */
  lemma VerifiedRefuses(g: Geometry, m: seq<byte>, lo: nat, id: nat, data: seq<byte>, k: nat)
    requires IsFlash(g, m) && Updates(g, m, lo, id, data) && g.verify
    requires var e := New(g, m, lo, id, data); e.End() <= |m| ==> !Programmable(m, e.at, Encode(g, e))
    requires NoPhantom(g, m, Cut(m, SetPlan(g, m, id, data).ops, k, Chip(g)), lo, Some(New(g, m, lo, id, data)))
    ensures !Done(m, SetPlan(g, m, id, data).ops, k, Chip(g))
    ensures View(g, Cut(m, SetPlan(g, m, id, data).ops, k, Chip(g))) == View(g, m)
  {
    hide Cut, Done, PageScan, Empty, SetPlan, AppendOps, Encode, View, Programmable;
    SetGoes(g, m, lo, id, data, k);
    AppendGoes(g, m, lo, id, data, k);
    CutAtomic(g, m, lo, id, data, k);
    if New(g, m, lo, id, data) in PageScan(g, Cut(m, SetPlan(g, m, id, data).ops, k, Chip(g)), lo) {
      FoundProgrammable(g, m, lo, id, data, k);
    }
  }
}
