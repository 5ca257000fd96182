/**
 A store that can take updates, whatever its ids and values: a page is active, its records fit, and the
 flash from the end of the log on is erased. Of dead flash nothing is assumed but that each call leaves a page
 whose records fit and whose scan reports no record that was never stored.
 */
module Steady {
  import opened Bytes
  import opened NorFlash
  import opened Records
  import opened Store
  import opened StoreSteps
  import opened Copies
  import opened StoreLaws
  import opened TurnLaws

  /** A page is active, and its records fit. */
  predicate Readable(g: Geometry, m: seq<byte>)
    requires IsFlash(g, m)
  {
    Active(g, m).Some? && Fits(g, m, Active(g, m).value)
  }

  /** The active page is erased from the end of the log on. */
  predicate Erased(g: Geometry, m: seq<byte>)
    requires IsFlash(g, m)
  {
    Active(g, m).Some? && Blank(m, Empty(g, m, Active(g, m).value), Active(g, m).value + g.pageLen)
  }

  /** What a call made of the page still fits, and no dead or torn bytes collide with a record. */
  ghost predicate Harmless(g: Geometry, m: seq<byte>, n: seq<byte>, lo: nat, extra: Option<Entry>)
    requires IsFlash(g, m) && IsFlash(g, n) && lo <= g.pageLen
  {
    Fits(g, n, lo) && NoPhantom(g, m, n, lo, extra)
  }

  lemma ReadableEnd(g: Geometry, m: seq<byte>, lo: nat)
    requires IsFlash(g, m) && Active(g, m) == Some(lo) && Readable(g, m)
    ensures First(lo) <= Empty(g, m, lo) <= lo + g.pageLen
  {
    hide PageScan, Fits;
    var s := PageScan(g, m, lo);
    PageEnds(g, m, lo);
    if s != [] {
      assert s[|s| - 1] in s;
      EndsBeforeEmpty(g, m, lo, s[|s| - 1]);
    }
  }

  /** A log that ends with the entry `l` ends where `l` does. */
  lemma EndsWith(s: seq<Entry>, o: nat, l: Entry)
    requires InOrder(s, o) && l in s && forall e :: e in s ==> e == l || e.End() <= l.at
    ensures Bound(s, o, |s|) == l.End()
  {
    var i :| 0 <= i < |s| && s[i] == l;
    if i < |s| - 1 {
      Ordered(s, o, i, |s| - 1);
      assert s[|s| - 1] in s;
    }
  }

  /** A log and the log it was before a call, both in order, with every entry that a lookup returns still there. */
  lemma KeptMap(s: seq<Entry>, t: seq<Entry>, o: nat, id: nat)
    requires InOrder(s, o) && InOrder(t, o)
    requires forall e :: e in t ==> e in s
    requires forall e :: e in Keep(s, id) ==> e in t
    ensures MapOf(t) == MapOf(s)
  {
    hide Keep, MapOf;
    forall j: nat
      ensures Last(t, j).Some? <==> j in MapOf(s)
      ensures j in MapOf(s) ==> Last(t, j).value.data == MapOf(s)[j]
    {
      LastIsMap(s, j);
      KeepIn(s, id);
      SameLookup(t, s, o, j);
    }
    LookupsAreMaps(t, MapOf(s));
  }

  /** Repairs that were cut anywhere, or refused, have changed neither the map nor the end of the log. */
  lemma SearchAtomic(g: Geometry, m: seq<byte>, lo: nat, id: nat, k: nat)
    requires IsFlash(g, m) && Active(g, m) == Some(lo)
    requires NoPhantom(g, m, Cut(m, RepairOps(PageScan(g, m, lo), id), k, Chip(g)), lo, None)
    ensures var n := Cut(m, RepairOps(PageScan(g, m, lo), id), k, Chip(g));
            && Active(g, n) == Some(lo) && View(g, n) == View(g, m)
            && Empty(g, n, lo) == Empty(g, m, lo) && Same(m, n, Empty(g, m, lo), |m|)
  {
    hide Cut, Done, PageScan, Keep, RepairOps, MapOf, Stored, Live, Quiet;
    var s := PageScan(g, m, lo);
    var n := Cut(m, RepairOps(s, id), k, Chip(g));
    var t := PageScan(g, n, lo);
    RepairAll(g, m, lo, id, k);
    PageLive(g, m, lo);
    PageLive(g, n, lo);
    KeepIn(s, id);
    forall e | e in Keep(s, id) ensures e in t {
      KeptFound(g, m, lo, id, k, e);
    }
    KeptMap(s, t, First(lo), id);
    if s != [] {
      LastKept(s, First(lo), id);
      EndsWith(t, First(lo), s[|s| - 1]);
    }
  }

  /** A copy that repairs keep is found afterwards. */
  lemma KeptFound(g: Geometry, m: seq<byte>, lo: nat, id: nat, k: nat, e: Entry)
    requires IsFlash(g, m) && Active(g, m) == Some(lo) && e in Keep(PageScan(g, m, lo), id)
    requires NoPhantom(g, m, Cut(m, RepairOps(PageScan(g, m, lo), id), k, Chip(g)), lo, None)
    ensures e in PageScan(g, Cut(m, RepairOps(PageScan(g, m, lo), id), k, Chip(g)), lo)
  {
    hide Cut, PageScan, Keep, RepairOps, Stored, Live, Quiet;
    var n := Cut(m, RepairOps(PageScan(g, m, lo), id), k, Chip(g));
    PageLive(g, m, lo);
    KeepIn(PageScan(g, m, lo), id);
    RepairUntouched(g, m, lo, id, k, e);
    StoredFrame(g.crc, m, n, e, lo + g.pageLen);
    EndsBeforeEmpty(g, m, lo, e);
    ScanFinds(g, n, lo, PageScan(g, m, lo), e);
  }

  /** The last record of the log is never repaired away, and everything else ends before it. */
  lemma LastKept(s: seq<Entry>, o: nat, id: nat)
    requires InOrder(s, o) && s != []
    ensures s[|s| - 1] in Keep(s, id) && forall e :: e in s ==> e == s[|s| - 1] || e.End() <= s[|s| - 1].at
  {
    var l := s[|s| - 1];
    OrderInit(s, o);
    assert s == s[..|s| - 1] + [l];
    KeepIn(s, id);
  }

  /** The state after a call that kept the end of the log. */
  lemma SteadyKept(g: Geometry, m: seq<byte>, n: seq<byte>, lo: nat)
    requires IsFlash(g, m) && IsFlash(g, n) && Active(g, m) == Active(g, n) == Some(lo)
    requires Fits(g, n, lo)
    requires Empty(g, n, lo) == Empty(g, m, lo) && Same(m, n, Empty(g, m, lo), |m|)
    ensures Readable(g, n) && (Erased(g, m) ==> Erased(g, n))
  {
    hide Fits;
  }

  /** A new record that is found is the end of the log, and erased flash follows it. */
  lemma FoundErased(g: Geometry, m: seq<byte>, lo: nat, id: nat, data: seq<byte>, k: nat)
    requires IsFlash(g, m) && Updates(g, m, lo, id, data) && Erased(g, m)
    requires var n := Cut(m, SetPlan(g, m, id, data).ops, k, Chip(g));
             && NoPhantom(g, m, n, lo, Some(New(g, m, lo, id, data)))
             && New(g, m, lo, id, data) in PageScan(g, n, lo)
    ensures var n := Cut(m, SetPlan(g, m, id, data).ops, k, Chip(g));
            && Active(g, n) == Some(lo) && Empty(g, n, lo) == New(g, m, lo, id, data).End() && Erased(g, n)
  {
    hide Cut, Done, PageScan, SetPlan, AppendOps, Live, Quiet, Stored, Fits;
    var e := New(g, m, lo, id, data);
    var n := Cut(m, SetPlan(g, m, id, data).ops, k, Chip(g));
    UpdateActive(g, m, lo, id, data, k);
    PageLive(g, n, lo);
    forall x | x in PageScan(g, n, lo) ensures x == e || x.End() <= e.at {
      if x in PageScan(g, m, lo) { EndsBeforeEmpty(g, m, lo, x); }
    }
    EndsWith(PageScan(g, n, lo), First(lo), e);
    AfterNew(g, m, lo, id, data, k);
  }

  /** No update writes after its new record. */
  lemma AfterNew(g: Geometry, m: seq<byte>, lo: nat, id: nat, data: seq<byte>, k: nat)
    requires IsFlash(g, m) && Updates(g, m, lo, id, data)
    ensures Same(m, Cut(m, SetPlan(g, m, id, data).ops, k, Chip(g)), New(g, m, lo, id, data).End(), |m|)
  {
    hide Cut, PageScan, Empty, Header, SetPlan, RepairOps;
    var s := PageScan(g, m, lo);
    var e := New(g, m, lo, id, data);
    PageLive(g, m, lo);
    SetPlanIs(g, m, lo, id, data);
    forall op | op in SetPlan(g, m, id, data).ops ensures op.addr + Cost(op) <= e.End() {
      if op in RepairOps(s, id) {
        RepairKills(s, First(lo), id, op);
        var x :| x in s && x.id == id && op.addr == x.at && Cost(op) == HEADER_LEN + |x.data|
                 && x.End() <= Last(s, id).value.at;
        EndsBeforeEmpty(g, m, lo, x);
      } else if Last(s, id).Some? {
        EndsBeforeEmpty(g, m, lo, Last(s, id).value);
      }
    }
    CutMisses(m, SetPlan(g, m, id, data).ops, k, Chip(g), e.End(), |m|);
  }

  /** On erased flash a record with room can be programmed. */
  lemma ErasedTakes(g: Geometry, m: seq<byte>, lo: nat, id: nat, data: seq<byte>)
    requires IsFlash(g, m) && Active(g, m) == Some(lo) && Erased(g, m) && HasRoom(g, lo, Empty(g, m, lo), |data|)
    ensures Programmable(m, Empty(g, m, lo), Encode(g, New(g, m, lo, id, data)))
  {
    hide Empty, Encode, Programmable;
    BlankProgrammable(m, Empty(g, m, lo), Encode(g, New(g, m, lo, id, data)));
  }

  /** Where the bytes of the new record are still erased, it is not found. */
  lemma BlankNotFound(g: Geometry, m: seq<byte>, n: seq<byte>, lo: nat, e: Entry)
    requires IsFlash(g, m) && IsFlash(g, n) && lo <= g.pageLen
    requires Blank(m, e.at, lo + g.pageLen) && Same(m, n, e.at, |m|)
    ensures e !in PageScan(g, n, lo)
  {
    hide PageScan;
    PageLive(g, n, lo);
    BlankClaims(n, e.at, lo + g.pageLen, e.at);
  }

  /**
   One update of a steady store, with any value, cut anywhere. The map is the old one or has `id` set, as the
   new record is found or not; a call whose supply lasts stores exactly if it reports success.
   */
  lemma SetSteady(g: Geometry, m: seq<byte>, lo: nat, id: nat, data: seq<byte>, k: nat)
    requires IsFlash(g, m) && Readable(g, m) && Erased(g, m)
    requires Updates(g, m, lo, id, data) && HasRoom(g, lo, Empty(g, m, lo), |data|)
    requires Harmless(g, m, Cut(m, SetPlan(g, m, id, data).ops, k, Chip(g)), lo, Some(New(g, m, lo, id, data)))
    ensures var n := Cut(m, SetPlan(g, m, id, data).ops, k, Chip(g));
            var found := New(g, m, lo, id, data) in PageScan(g, n, lo);
            && Readable(g, n) && Active(g, n) == Some(lo)
            && View(g, n) == (if found then View(g, m)[id := data] else View(g, m))
            && (found ==> Erased(g, n) && Empty(g, n, lo) == New(g, m, lo, id, data).End())
            && (k >= Total(SetPlan(g, m, id, data).ops) ==>
                  Erased(g, n) && (found <==> Done(m, SetPlan(g, m, id, data).ops, k, Chip(g))))
  {
    hide Cut, Done, PageScan, Empty, SetPlan, AppendOps, Encode, View, Programmable, Fits, NoPhantom, RepairOps, Total;
    var n := Cut(m, SetPlan(g, m, id, data).ops, k, Chip(g));
    var e := New(g, m, lo, id, data);
    ErasedTakes(g, m, lo, id, data);
    CutAtomic(g, m, lo, id, data, k);
    if e in PageScan(g, n, lo) {
      FoundErased(g, m, lo, id, data, k);
    }
    if k >= Total(SetPlan(g, m, id, data).ops) {
      SetGoes(g, m, lo, id, data, k);
      if Done(m, SetPlan(g, m, id, data).ops, k, Chip(g)) {
        AppendDone(g, m, lo, id, data, k);
      } else {
        RefusedSet(g, m, lo, id, data, k);
      }
    }
  }

  /** When a repair is refused, the update does not start. */
  lemma RefusedSet(g: Geometry, m: seq<byte>, lo: nat, id: nat, data: seq<byte>, k: nat)
    requires IsFlash(g, m) && Updates(g, m, lo, id, data) && Erased(g, m)
    requires !Done(m, RepairOps(PageScan(g, m, lo), id), k, Chip(g))
    requires Harmless(g, m, Cut(m, SetPlan(g, m, id, data).ops, k, Chip(g)), lo, Some(New(g, m, lo, id, data)))
    ensures var n := Cut(m, SetPlan(g, m, id, data).ops, k, Chip(g));
            New(g, m, lo, id, data) !in PageScan(g, n, lo) && Erased(g, n)
  {
    hide Cut, Done, PageScan, Fits, RepairOps, View;
    var ops := RepairOps(PageScan(g, m, lo), id);
    var n := Cut(m, SetPlan(g, m, id, data).ops, k, Chip(g));
    HaltsAt(m, ops, UpdateOps(g, Empty(g, m, lo), id, data, Last(PageScan(g, m, lo), id)), k, Chip(g));
    RepairAll(g, m, lo, id, k);
    BlankNotFound(g, m, n, lo, New(g, m, lo, id, data));
    SearchAtomic(g, m, lo, id, k);
  }

  /** A page turn of a readable store, cut anywhere: the same map; completed, an erased tail. */
  lemma TurnSteady(g: Geometry, m: seq<byte>, k: nat)
    requires IsFlash(g, m) && Readable(g, m)
    ensures var n := Cut(m, TurnPlan(g, m).ops, k, Chip(g));
            && Readable(g, n) && View(g, n) == View(g, m)
            && (Erased(g, m) || Done(m, TurnPlan(g, m).ops, k, Chip(g)) ==> Erased(g, n))
  {
    hide Cut, Done, PageScan, Fits, View, Packed, TurnPlan, Moved;
    var lo := Active(g, m).value;
    var n := Cut(m, TurnPlan(g, m).ops, k, Chip(g));
    TurnSurvives(g, m, lo, k);
    SurvivesReads(g, m, lo, n);
    if Active(g, n) == Some(lo) && Same(m, n, First(lo), PageTop(g, lo)) {
      SamePage(g, m, n, lo);
      EmptyAbove(g, m, lo);
    } else {
      PackedErased(g, m, n, lo);
    }
  }

  lemma EmptyAbove(g: Geometry, m: seq<byte>, lo: nat)
    requires IsFlash(g, m) && lo <= g.pageLen
    ensures First(lo) <= Empty(g, m, lo)
  {
  }

  lemma PackedErased(g: Geometry, m: seq<byte>, n: seq<byte>, lo: nat)
    requires IsFlash(g, m) && IsFlash(g, n) && Active(g, m) == Some(lo)
    requires Fits(g, m, lo)
    requires Active(g, n) == Some(Passive(g, lo)) && Packed(g, n, PageScan(g, m, lo), Passive(g, lo))
    ensures Erased(g, n)
  {
    hide PageScan, Fits, Moved, Coded;
    PackedScan(g, m, lo, n);
    SizeMoved(g, m, lo);
  }

  /** The bytes of `m` in [a, b) are zero. */
  predicate Zeroed(m: seq<byte>, a: nat, b: nat) {
    forall x :: a <= x < b && x < |m| ==> m[x] == 0
  }

  /** Bytes that one of several zeroings has covered are zero in the end. */
  lemma {:induction false} ZeroedBytes(m: seq<byte>, ops: seq<Op>, k: nat, chip: Device, op: Op)
    requires Done(m, ops, k, chip) && op in ops && forall x :: x in ops ==> x.Zero?
    ensures Zeroed(Cut(m, ops, k, chip), op.addr, op.addr + Cost(op))
  {
    var init := ops[..|ops| - 1];
    var last := ops[|ops| - 1];
    assert ops == init + [last];
    if op in init {
      ZeroedBytes(m, init, k, chip, op);
    }
    forall x | op.addr <= x < op.addr + Cost(op) && x < |m| ensures Cut(m, ops, k, chip)[x] == 0 {
      AndByte(Cut(m, init, k, chip)[x]);
    }
  }

  /** Every operation of an invalidation that gets done zeroes one copy of the id, and every copy is zeroed. */
  lemma InvalidateOps(g: Geometry, m: seq<byte>, lo: nat, id: nat)
    requires IsFlash(g, m) && Active(g, m) == Some(lo) && Last(PageScan(g, m, lo), id).Some?
    ensures var s := PageScan(g, m, lo);
            var ops := InvalidatePlan(g, m, id).ops;
            && (forall op :: op in ops ==> op.Zero?)
            && (forall op :: op in ops ==>
                  exists e :: e in s && e.id == id && op == Zero(e.at, HEADER_LEN + |e.data|))
            && (forall e :: e in s && e.id == id ==> Zero(e.at, HEADER_LEN + |e.data|) in ops)
  {
    hide PageScan, RepairOps, Keep, Stored, Live;
    var s := PageScan(g, m, lo);
    var p := Last(s, id).value;
    var kill := Zero(p.at, HEADER_LEN + |p.data|);
    var ops := InvalidatePlan(g, m, id).ops;
    assert ops == RepairOps(s, id) + [kill];
    PageLive(g, m, lo);
    KeepIn(s, id);
    forall op | op in ops
      ensures op.Zero? && exists e :: e in s && e.id == id && op == Zero(e.at, HEADER_LEN + |e.data|)
    {
      if op in RepairOps(s, id) {
        RepairKills(s, First(lo), id, op);
      }
    }
    forall e | e in s && e.id == id ensures Zero(e.at, HEADER_LEN + |e.data|) in ops {
      if e !in Keep(s, id) {
        KilledHasOp(s, id, e);
      }
    }
  }

  lemma NotInvalidated(g: Geometry, m: seq<byte>, lo: nat, id: nat, k: nat, x: Entry)
    requires IsFlash(g, m) && Active(g, m) == Some(lo) && Last(PageScan(g, m, lo), id).Some?
    requires x in PageScan(g, m, lo) && x.id != id
    ensures Same(m, Cut(m, InvalidatePlan(g, m, id).ops, k, Chip(g)), x.at, x.End())
  {
    hide PageScan, RepairOps, Cut, InvalidatePlan, Stored, Live;
    var s := PageScan(g, m, lo);
    PageLive(g, m, lo);
    InvalidateOps(g, m, lo, id);
    forall op | op in InvalidatePlan(g, m, id).ops ensures op.addr + Cost(op) <= x.at || x.End() <= op.addr {
      var e :| e in s && e.id == id && op == Zero(e.at, HEADER_LEN + |e.data|);
      Disjoint(s, First(lo), e, x);
    }
    CutMisses(m, InvalidatePlan(g, m, id).ops, k, Chip(g), x.at, x.End());
  }

  /** Nothing outside the log changes. */
  lemma InvalidateFrame(g: Geometry, m: seq<byte>, lo: nat, id: nat, k: nat)
    requires IsFlash(g, m) && Active(g, m) == Some(lo) && Last(PageScan(g, m, lo), id).Some?
    ensures var n := Cut(m, InvalidatePlan(g, m, id).ops, k, Chip(g));
            Active(g, n) == Some(lo) && Same(m, n, Empty(g, m, lo), |m|)
  {
    hide PageScan, RepairOps, Cut, InvalidatePlan, Empty;
    var ops := InvalidatePlan(g, m, id).ops;
    InvalidateOps(g, m, lo, id);
    forall op | op in ops ensures First(lo) <= op.addr && op.addr + Cost(op) <= Empty(g, m, lo) {
      var e :| e in PageScan(g, m, lo) && e.id == id && op == Zero(e.at, HEADER_LEN + |e.data|);
      EndsBeforeEmpty(g, m, lo, e);
    }
    CutMisses(m, ops, k, Chip(g), 0, First(lo));
    CutMisses(m, ops, k, Chip(g), Empty(g, m, lo), |m|);
    ActiveKept(g, m, Cut(m, ops, k, Chip(g)), lo);
  }

  /** A completed invalidation removes the id from the map; the end of the log stays if it was not that of the id. */
  lemma InvalidateSteady(g: Geometry, m: seq<byte>, lo: nat, id: nat, k: nat)
    requires IsFlash(g, m) && Active(g, m) == Some(lo) && Last(PageScan(g, m, lo), id).Some?
    requires Done(m, InvalidatePlan(g, m, id).ops, k, Chip(g))
    requires NoPhantom(g, m, Cut(m, InvalidatePlan(g, m, id).ops, k, Chip(g)), lo, None)
    ensures var s := PageScan(g, m, lo);
            var n := Cut(m, InvalidatePlan(g, m, id).ops, k, Chip(g));
            && Active(g, n) == Some(lo) && View(g, n) == View(g, m) - {id}
            && Same(m, n, Empty(g, m, lo), |m|)
            && (s[|s| - 1].id != id ==> Empty(g, n, lo) == Empty(g, m, lo))
  {
    hide PageScan, RepairOps, Cut, Done, InvalidatePlan, Stored, Live, Quiet, MapOf;
    var s := PageScan(g, m, lo);
    var n := Cut(m, InvalidatePlan(g, m, id).ops, k, Chip(g));
    var t := PageScan(g, n, lo);
    PageLive(g, m, lo);
    PageLive(g, n, lo);
    InvalidateFrame(g, m, lo, id, k);
    InvalidateOps(g, m, lo, id);
    forall x | x in s && x.id != id ensures x in t {
      NotInvalidated(g, m, lo, id, k, x);
      StoredFrame(g.crc, m, n, x, lo + g.pageLen);
      EndsBeforeEmpty(g, m, lo, x);
      ScanFinds(g, n, lo, s, x);
    }
    forall x | x in t ensures x.id != id {
      if x.id == id {
        var op := Zero(x.at, HEADER_LEN + |x.data|);
        ZeroedBytes(m, InvalidatePlan(g, m, id).ops, k, Chip(g), op);
        EndsBeforeEmpty(g, n, lo, x);
        StoredInSight(g, n, x, lo + g.pageLen);
        ZerosAreNoRecord(g, n, x, lo + g.pageLen);
      }
    }
    WithoutLookup(s, t, First(lo), id);
    if s[|s| - 1].id != id {
      LastKept(s, First(lo), id);
      EndsWith(t, First(lo), s[|s| - 1]);
    }
  }

  /** Wherever an invalidation is cut, the log ends where it did if its last record is of another id. */
  lemma InvalidateEnd(g: Geometry, m: seq<byte>, lo: nat, id: nat, k: nat)
    requires IsFlash(g, m) && Active(g, m) == Some(lo) && Last(PageScan(g, m, lo), id).Some?
    requires NoPhantom(g, m, Cut(m, InvalidatePlan(g, m, id).ops, k, Chip(g)), lo, None)
    requires var s := PageScan(g, m, lo); s != [] && s[|s| - 1].id != id
    ensures Empty(g, Cut(m, InvalidatePlan(g, m, id).ops, k, Chip(g)), lo) == Empty(g, m, lo)
  {
    hide PageScan, RepairOps, Cut, InvalidatePlan, Stored, Live, Quiet, MapOf;
    var s := PageScan(g, m, lo);
    var l := s[|s| - 1];
    var n := Cut(m, InvalidatePlan(g, m, id).ops, k, Chip(g));
    PageLive(g, m, lo);
    PageLive(g, n, lo);
    NotInvalidated(g, m, lo, id, k, l);
    StoredFrame(g.crc, m, n, l, lo + g.pageLen);
    EndsBeforeEmpty(g, m, lo, l);
    ScanFinds(g, n, lo, s, l);
    LastKept(s, First(lo), id);
    EndsWith(PageScan(g, n, lo), First(lo), l);
  }

  lemma ZerosAreNoRecord(g: Geometry, r: seq<byte>, e: Entry, hi: nat)
    requires hi + SPILL <= |r| && e.at + MARK_LEN <= |r| && Zeroed(r, e.at, e.at + MARK_LEN)
    ensures !Stored(g.crc, r, e, hi)
  {
    assert U16(r, e.at) + U16(r, e.at + 2) == 0;
  }

  lemma WithoutLookup(s: seq<Entry>, t: seq<Entry>, o: nat, id: nat)
    requires InOrder(s, o) && InOrder(t, o)
    requires forall e :: e in t ==> e in s && e.id != id
    requires forall e :: e in s && e.id != id ==> e in t
    ensures MapOf(t) == MapOf(s) - {id}
  {
    hide MapOf;
    var want := MapOf(s) - {id};
    forall j: nat
      ensures Last(t, j).Some? <==> j in want
      ensures j in want ==> Last(t, j).value.data == want[j]
    {
      LastIsMap(s, j);
      if j == id {
        LastNone(t, id);
      } else {
        SameLookup(t, s, o, j);
      }
    }
    LookupsAreMaps(t, want);
  }

  /** A completed update has zeroed the header of the copy it replaces. */
  lemma OldIsZeroed(g: Geometry, m: seq<byte>, lo: nat, id: nat, data: seq<byte>, k: nat)
    requires IsFlash(g, m) && Updates(g, m, lo, id, data) && Done(m, SetPlan(g, m, id, data).ops, k, Chip(g))
    requires Last(PageScan(g, m, lo), id).Some?
    ensures var p := Last(PageScan(g, m, lo), id).value;
            var n := Cut(m, SetPlan(g, m, id, data).ops, k, Chip(g));
            Zeroed(n, p.at, p.at + MARK_LEN)
  {
    hide Cut, Done, Spent, PageScan, Empty, SetPlan, AppendOps, Total, Takes, Accepts, Last;
    var p := Last(PageScan(g, m, lo), id).value;
    var ops := AppendOps(g, m, lo, id, data);
    SetPlanIs(g, m, lo, id, data);
    CutSnoc(m, ops, Zero(p.at, HEADER_LEN), k, Chip(g));
    ApplyZeros(Cut(m, ops, k, Chip(g)), p.at, HEADER_LEN, k - Total(ops));
  }

  lemma ApplyZeros(c: seq<byte>, at: nat, len: nat, k: nat)
    requires len <= k
    ensures Zeroed(Apply(c, Zero(at, len), k), at, at + len)
  {
    forall x | at <= x < at + len && x < |c| ensures And(c[x], 0) == 0 { AndByte(c[x]); }
  }

  /** After a successful update the copy it replaces is not found any more. */
  lemma OldIsGone(g: Geometry, m: seq<byte>, lo: nat, id: nat, data: seq<byte>, k: nat)
    requires IsFlash(g, m) && Updates(g, m, lo, id, data) && Done(m, SetPlan(g, m, id, data).ops, k, Chip(g))
    ensures var p := Last(PageScan(g, m, lo), id);
            p.Some? ==> p.value !in PageScan(g, Cut(m, SetPlan(g, m, id, data).ops, k, Chip(g)), lo)
  {
    hide Cut, Done, PageScan, Empty, SetPlan, Stored, Live, Quiet, Last;
    var n := Cut(m, SetPlan(g, m, id, data).ops, k, Chip(g));
    var p := Last(PageScan(g, m, lo), id);
    if p.Some? {
      OldIsZeroed(g, m, lo, id, data, k);
      PageLive(g, m, lo);
      PageLive(g, n, lo);
      StoredInSight(g, m, p.value, lo + g.pageLen);
      ZerosAreNoRecord(g, n, p.value, lo + g.pageLen);
    }
  }
}
