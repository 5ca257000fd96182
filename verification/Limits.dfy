/** Where the store's own checks stop short: exact ranges, and the inputs for which a reported success loses data. */
module Limits {
  import opened Bytes
  import opened NorFlash
  import opened Records
  import opened Store
  import opened StoreSteps
  import opened Copies
  import opened StoreLaws
  import opened TurnLaws
  import opened TidyStore
  import opened TidyOps
  import opened Steady
  import opened Reads
  import opened Runs
  import opened InitLaws

  /** The space test accepts `n` bytes exactly when they fit without a header, or when the log overhangs the page. */
  lemma SpaceTest(g: Geometry, lo: nat, empty: nat, n: nat)
    requires lo <= empty <= lo + g.pageLen + SPILL && n <= 0xFFFF
    ensures RemSpace(g, lo, empty) >= n <==> empty > lo + g.pageLen || empty + n <= lo + g.pageLen
  {
  }

  /**
   Write extent. Wherever an update is cut, it has changed no byte before the first record of the page and none
   after its new record. The new record ends inside the page if there is room for header and payload, and
   otherwise at most seven bytes after it; but if the log already overhangs the page, it lies outside altogether.
   */
  lemma SetExtent(g: Geometry, m: seq<byte>, lo: nat, id: nat, data: seq<byte>, k: nat)
    requires IsFlash(g, m) && Updates(g, m, lo, id, data)
    ensures var n := Cut(m, SetPlan(g, m, id, data).ops, k, Chip(g));
            var e := New(g, m, lo, id, data);
            var hi := lo + g.pageLen;
            && (forall x :: 0 <= x < |m| && (x < First(lo) || x >= e.End()) ==> n[x] == m[x])
            && (e.at <= hi ==> e.End() <= hi + HEADER_LEN && (e.End() <= hi <==> RemSpace(g, lo, e.at) >= HEADER_LEN + |data|))
            && (e.at > hi ==> e.End() <= hi + SPILL + HEADER_LEN + |data|)
  {
    hide Cut, PageScan, Header, SetPlan, Stored, Live, Empty;
    var ops := SetPlan(g, m, id, data).ops;
    PageLive(g, m, lo);
    SetAbove(g, m, lo, id, data);
    CutMisses(m, ops, k, Chip(g), 0, First(lo));
    AfterNew(g, m, lo, id, data, k);
    LogEnd(g, m, lo);
  }

  lemma SetAbove(g: Geometry, m: seq<byte>, lo: nat, id: nat, data: seq<byte>)
    requires IsFlash(g, m) && Updates(g, m, lo, id, data)
    ensures forall op :: op in SetPlan(g, m, id, data).ops ==> First(lo) <= op.addr
  {
    hide PageScan, RepairOps, Header, SetPlan, Empty;
    var s := PageScan(g, m, lo);
    PageLive(g, m, lo);
    SetPlanIs(g, m, lo, id, data);
    forall op | op in SetPlan(g, m, id, data).ops ensures First(lo) <= op.addr {
      if op in RepairOps(s, id) {
        RepairKills(s, First(lo), id, op);
        var e :| e in s && e.id == id && op.addr == e.at && Cost(op) == HEADER_LEN + |e.data|
                 && e.End() <= Last(s, id).value.at;
        EndsBeforeEmpty(g, m, lo, e);
      } else if Last(s, id).Some? {
        EndsBeforeEmpty(g, m, lo, Last(s, id).value);
      }
    }
  }

  /** A log overhangs its page by at most six bytes. */
  lemma LogEnd(g: Geometry, m: seq<byte>, lo: nat)
    requires IsFlash(g, m) && lo <= g.pageLen
    ensures First(lo) <= Empty(g, m, lo) <= lo + g.pageLen + SPILL
  {
    hide PageScan;
    var s := PageScan(g, m, lo);
    PageLive(g, m, lo);
    if s != [] {
      var e := s[|s| - 1];
      assert e in s;
      EndsBeforeEmpty(g, m, lo, e);
      StoredInSight(g, m, e, lo + g.pageLen);
    }
  }

  /**
   Exactly when an update leaves a log that overhangs its page. On a log that does not, a completed update is
   scanned as it should and ends outside the page if and only if the space that remains is more than the payload
   and less than header and payload, and more than eight bytes; given programmable bytes and no dead record.
   */
  lemma OverhangExact(g: Geometry, m: seq<byte>, lo: nat, id: nat, data: seq<byte>)
    requires IsFlash(g, m) && Updates(g, m, lo, id, data) && Empty(g, m, lo) <= lo + g.pageLen
    requires var plan := SetPlan(g, m, id, data); Done(m, plan.ops, Total(plan.ops), Chip(g))
    ensures var n := Run(m, SetPlan(g, m, id, data).ops, Chip(g));
            var e := New(g, m, lo, id, data);
            var want := Updated(g, m, lo, id, data);
            var rem := RemSpace(g, lo, e.at);
            && e.End() <= |m|
            && (PageScan(g, n, lo) == want && Empty(g, n, lo) > lo + g.pageLen <==>
                && |data| < rem < |data| + HEADER_LEN && rem > MIN_FILE_LEN
                && Programmable(m, e.at, Encode(g, e))
                && Quiet(g.crc, n, First(lo), want, lo + g.pageLen))
  {
    hide Cut, Done, PageScan, SetPlan, Encode, Quiet, Programmable;
    SetExact(g, m, lo, id, data);
  }

  /** Where the log overhangs its page, the space test lets every value pass. */
  lemma OverhangAccepts(g: Geometry, m: seq<byte>, lo: nat, id: nat, data: seq<byte>)
    requires IsFlash(g, m) && Active(g, m) == Some(lo) && Empty(g, m, lo) > lo + g.pageLen
    requires id < INVALID_ID && 0 < |data| <= 0xFFFF && (id in View(g, m) ==> View(g, m)[id] != data)
    ensures Updates(g, m, lo, id, data) && SetPlan(g, m, id, data).verdict
  {
    hide PageScan, MapOf, Last, Empty, RepairOps, UpdateOps;
    LogEnd(g, m, lo);
    LastIsMap(PageScan(g, m, lo), id);
  }

  /** There a completed update is lost, together with the value it replaces, and maintenance never turns the page. */
  lemma OverhangLost(g: Geometry, m: seq<byte>, lo: nat, id: nat, data: seq<byte>, k: nat)
    requires IsFlash(g, m) && Updates(g, m, lo, id, data) && Empty(g, m, lo) > lo + g.pageLen
    requires Done(m, SetPlan(g, m, id, data).ops, k, Chip(g))
    ensures var n := Cut(m, SetPlan(g, m, id, data).ops, k, Chip(g));
            && SetPlan(g, m, id, data).verdict && !NeedsTurn(g, m)
            && New(g, m, lo, id, data).at > lo + g.pageLen
            && New(g, m, lo, id, data) !in PageScan(g, n, lo)
            && (Last(PageScan(g, m, lo), id).Some? ==> Last(PageScan(g, m, lo), id).value !in PageScan(g, n, lo))
  {
    hide Cut, Done, PageScan, Empty, SetPlan, Stored, RemSpace;
    var n := Cut(m, SetPlan(g, m, id, data).ops, k, Chip(g));
    SetPlanIs(g, m, lo, id, data);
    PageLive(g, n, lo);
    OutOfSight(g, n, New(g, m, lo, id, data), lo + g.pageLen);
    OldIsGone(g, m, lo, id, data, k);
    OverhangStays(g, m, lo);
  }

  lemma OverhangStays(g: Geometry, m: seq<byte>, lo: nat)
    requires IsFlash(g, m) && Active(g, m) == Some(lo) && Empty(g, m, lo) > lo + g.pageLen
    ensures !NeedsTurn(g, m) && RemSpace(g, lo, Empty(g, m, lo)) >= 0xFFFF_FFFA
  {
    hide PageScan, Empty;
    LogEnd(g, m, lo);
  }

  /** Zeros can be programmed onto anything. */
  lemma OverhangTakes(g: Geometry, f: seq<byte>, e: Entry)
    requires IsFlash(g, f) && e.at == MARK_LEN && e.End() == g.pageLen + MARK_LEN && |e.data| >= MARK_LEN
    requires Blank(f, MARK_LEN, g.pageLen) && forall x :: g.pageLen <= x < g.pageLen + MARK_LEN ==> f[x] == 0
    requires forall i :: |e.data| - MARK_LEN <= i < |e.data| ==> e.data[i] == 0
    ensures Programmable(f, e.at, Encode(g, e))
  {
    var d := Encode(g, e);
    forall x | e.at <= x < e.End() ensures And(f[x], d[x - e.at]) == d[x - e.at] {
      if x < g.pageLen {
        AndByte(d[x - e.at]);
      } else {
        assert d[x - e.at] == e.data[x - e.at - HEADER_LEN] == 0;
        AndByte(f[x]);
      }
    }
  }

  lemma OneRecord(g: Geometry, n: seq<byte>, e: Entry)
    requires IsFlash(g, n) && e.at == MARK_LEN && e.End() == g.pageLen + MARK_LEN && Stored(g.crc, n, e, g.pageLen)
    ensures PageScan(g, n, 0) == [e] && Empty(g, n, 0) == g.pageLen + MARK_LEN
  {
    hide IsRecord, Scan;
    ScanHere(g.crc, n, MARK_LEN, g.pageLen);
    ScanHere(g.crc, n, e.End(), g.pageLen);
  }

  /**
   That state can be reached, on every geometry whose page a single value can fill, with writes read back or not.
   On a freshly formatted store, a value seven bytes shorter than the page that ends in four zeros is stored: its
   end falls onto the zeroed mark of page 2, which takes zeros.
   */
  lemma OverhangReached(g: Geometry, m: seq<byte>, id: nat, data: seq<byte>)
    requires IsFlash(g, m) && id < INVALID_ID
    requires |data| == g.pageLen - HEADER_LEN <= 0xFFFF
    requires forall i :: |data| - MARK_LEN <= i < |data| ==> data[i] == 0
    ensures var f := Run(m, FormatPlan(g).ops, Chip(g));
            var plan := SetPlan(g, f, id, data);
            var n := Run(f, plan.ops, Chip(g));
            && plan.verdict && Done(f, plan.ops, Total(plan.ops), Chip(g))
            && Active(g, n) == Some(0) && View(g, n) == map[id := data]
            && Empty(g, n, 0) == g.pageLen + MARK_LEN && RemSpace(g, 0, Empty(g, n, 0)) == 0xFFFF_FFFC
            && !NeedsTurn(g, n)
  {
    hide Cut, Done, Tidy, FormatPlan, SetPlan, PageScan, Empty, Encode, Programmable, AppendOps, Stored, View, RepairOps, Total;
    var f := Run(m, FormatPlan(g).ops, Chip(g));
    var plan := SetPlan(g, f, id, data);
    var k := Total(plan.ops);
    FormatReady(g, m);
    TidyActive(g, f, 0, []);
    TidyScan(g, f, 0, []);
    TidyBlank(g, f, 0, []);
    FreshUpdates(g, f, id, data);
    OverhangTakes(g, f, New(g, f, 0, id, data));
    SetTotals(g, f, 0, id, data);
    RepairGoes(g, f, 0, id, k);
    SetGoes(g, f, 0, id, data, k);
    AppendDone(g, f, 0, id, data, k);
    NewStored(g, f, 0, id, data, k);
    KillMisses(g, f, 0, id, data, k);
    var n := Run(f, plan.ops, Chip(g));
    StoredFrame(g.crc, Cut(f, AppendOps(g, f, 0, id, data), k, Chip(g)), n, New(g, f, 0, id, data), g.pageLen);
    OneRecord(g, n, New(g, f, 0, id, data));
    UpdateActive(g, f, 0, id, data, k);
    OverhangStays(g, n, 0);
    OneView(g, n, New(g, f, 0, id, data));
  }

  lemma FreshUpdates(g: Geometry, f: seq<byte>, id: nat, data: seq<byte>)
    requires IsFlash(g, f) && Active(g, f) == Some(0) && PageScan(g, f, 0) == [] && id < INVALID_ID
    requires 0 < |data| <= 0xFFFF && |data| < g.pageLen - MARK_LEN
    ensures Updates(g, f, 0, id, data) && Empty(g, f, 0) == MARK_LEN && SetPlan(g, f, id, data).verdict
    ensures Last(PageScan(g, f, 0), id).None? && RepairOps(PageScan(g, f, 0), id) == []
    ensures forall e :: e !in PageScan(g, f, 0)
  {
    hide PageScan;
  }

  lemma OneView(g: Geometry, n: seq<byte>, e: Entry)
    requires IsFlash(g, n) && Active(g, n) == Some(0) && PageScan(g, n, 0) == [e]
    ensures View(g, n) == map[e.id := e.data]
  {
    hide PageScan;
    assert [e][..0] == [];
    assert MapOf([e]) == MapOf([])[e.id := e.data] == map[e.id := e.data];
  }

  /**
   Why a page turn needs a page whose records fit. On that store the first step of a turn, erasing page 2, already changes
   what is read: the end of the value is erased with it.
   */
  lemma OverhangTurn(g: Geometry, n: seq<byte>, id: nat, data: seq<byte>)
    requires IsFlash(g, n) && Active(g, n) == Some(0) && |data| == g.pageLen - HEADER_LEN <= 0xFFFF
    requires PageScan(g, n, 0) == [Entry(MARK_LEN, id, data)] && data[|data| - 1] == 0
    ensures TurnPlan(g, n).ops[0] == Erase(g.pageLen, g.pageLen)
    ensures var r := Cut(n, [TurnPlan(g, n).ops[0]], g.pageLen, Chip(g));
            id !in View(g, r) || View(g, r)[id] != View(g, n)[id] == data
  {
    hide PageScan, Stored, MapOf, Last, Live, Quiet, TurnPlan;
    var op := Erase(g.pageLen, g.pageLen);
    var r := Cut(n, [op], g.pageLen, Chip(g));
    CutOne(n, op, g.pageLen, Chip(g));
    FillFirst(g, n, Entry(MARK_LEN, id, data));
    OneView(g, n, Entry(MARK_LEN, id, data));
    assert r[0..MARK_LEN] == n[0..MARK_LEN];
    PageLive(g, r, 0);
    LastIsMap(PageScan(g, r, 0), id);
    forall e | e in PageScan(g, r, 0) ensures e.data != data {
      if |e.data| == |data| {
        EndsBeforeEmpty(g, r, 0, e);
        WholePage(g, n, r, e);
      }
    }
  }

  lemma FillFirst(g: Geometry, n: seq<byte>, e: Entry)
    requires IsFlash(g, n) && Active(g, n) == Some(0) && PageScan(g, n, 0) == [e]
    ensures TurnPlan(g, n).ops[0] == Erase(g.pageLen, g.pageLen)
  {
    hide PageScan;
  }

  /** A record of that size can only end on page 2. */
  lemma WholePage(g: Geometry, n: seq<byte>, r: seq<byte>, e: Entry)
    requires IsFlash(g, n) && r == Apply(n, Erase(g.pageLen, g.pageLen), g.pageLen)
    requires Stored(g.crc, r, e, g.pageLen) && e.at >= MARK_LEN && |e.data| == g.pageLen - HEADER_LEN
    ensures e.data[|e.data| - 1] == ERASED
  {
    assert r[e.at + HEADER_LEN..e.End()] == e.data;
    assert r[e.at + HEADER_LEN..e.End()][|e.data| - 1] == r[e.End() - 1] == ERASED;
  }

  /** With eight bytes left, a one-byte update reports success, yet neither the new nor the old value can be found. */
  lemma TightFitLost(g: Geometry, m: seq<byte>, lo: nat, id: nat, data: seq<byte>, k: nat)
    requires IsFlash(g, m) && Updates(g, m, lo, id, data) && Done(m, SetPlan(g, m, id, data).ops, k, Chip(g))
    requires RemSpace(g, lo, Empty(g, m, lo)) == MIN_FILE_LEN && |data| == 1
    ensures SetPlan(g, m, id, data).verdict
    ensures var n := Cut(m, SetPlan(g, m, id, data).ops, k, Chip(g));
            && New(g, m, lo, id, data) !in PageScan(g, n, lo)
            && (Last(PageScan(g, m, lo), id).Some? ==> Last(PageScan(g, m, lo), id).value !in PageScan(g, n, lo))
  {
    hide Cut, Done, PageScan, Empty, SetPlan, AppendOps, Stored;
    var n := Cut(m, SetPlan(g, m, id, data).ops, k, Chip(g));
    SetPlanIs(g, m, lo, id, data);
    PageLive(g, n, lo);
    OutOfSight(g, n, New(g, m, lo, id, data), lo + g.pageLen);
    OldIsGone(g, m, lo, id, data, k);
  }

  lemma OutOfSight(g: Geometry, n: seq<byte>, e: Entry, hi: nat)
    requires hi + SPILL <= |n| && e.at + MIN_FILE_LEN >= hi
    ensures !Stored(g.crc, n, e, hi)
  {
  }

  /**
   The one way an update with room on erased flash can go wrong: the payload of the value it replaces holds
   the image of a record. That image comes to life when the old header is zeroed.
   */
  lemma ImageSurfaces(g: Geometry, m: seq<byte>, lo: nat, id: nat, data: seq<byte>, k: nat, f: Entry)
    requires IsFlash(g, m) && Updates(g, m, lo, id, data) && Done(m, SetPlan(g, m, id, data).ops, k, Chip(g))
    requires var p := Last(PageScan(g, m, lo), id);
             && p.Some? && p.value.at + HEADER_LEN <= f.at && f.End() <= p.value.End()
             && Stored(g.crc, m, f, lo + g.pageLen)
    ensures var n := Cut(m, SetPlan(g, m, id, data).ops, k, Chip(g));
            && Stored(g.crc, n, f, lo + g.pageLen)
            && !Quiet(g.crc, n, First(lo), Updated(g, m, lo, id, data), lo + g.pageLen)
            && PageScan(g, n, lo) != Updated(g, m, lo, id, data)
  {
    hide Cut, Done, PageScan, Empty, SetPlan, AppendOps, Stored, Quiet, Keep, Updated;
    var s := PageScan(g, m, lo);
    var p := Last(s, id).value;
    var n := Cut(m, SetPlan(g, m, id, data).ops, k, Chip(g));
    ImageKept(g, m, lo, id, data, k, f);
    UpdatedAvoids(g, m, lo, id, data, f);
    UpdatedOrder(g, m, lo, id, data);
    var t := Updated(g, m, lo, id, data);
    EndsBeforeEmpty(g, m, lo, p);
    forall i | 0 <= i < |t| ensures t[i].End() <= f.at || f.End() <= t[i].at { assert t[i] in t; }
    DeadRecord(g, n, lo, t, f);
  }

  /** The image is untouched by the update. */
  lemma ImageKept(g: Geometry, m: seq<byte>, lo: nat, id: nat, data: seq<byte>, k: nat, f: Entry)
    requires IsFlash(g, m) && Updates(g, m, lo, id, data)
    requires var p := Last(PageScan(g, m, lo), id);
             && p.Some? && p.value.at + HEADER_LEN <= f.at && f.End() <= p.value.End()
             && Stored(g.crc, m, f, lo + g.pageLen)
    ensures Stored(g.crc, Cut(m, SetPlan(g, m, id, data).ops, k, Chip(g)), f, lo + g.pageLen)
  {
    hide Cut, PageScan, Empty, Stored, Keep, Header, SetPlan, RepairOps;
    var s := PageScan(g, m, lo);
    var p := Last(s, id).value;
    PageInOrder(g, m, lo);
    KeepIn(s, id);
    EndsBeforeEmpty(g, m, lo, p);
    SetPlanIs(g, m, lo, id, data);
    var ops := SetPlan(g, m, id, data).ops;
    forall op | op in ops ensures op.addr + Cost(op) <= f.at || f.End() <= op.addr {
      if op in RepairOps(s, id) { RepairMisses(s, First(lo), id, op, p); }
    }
    CutMisses(m, ops, k, Chip(g), f.at, f.End());
    StoredFrame(g.crc, m, Cut(m, ops, k, Chip(g)), f, lo + g.pageLen);
  }

  /** No entry of the updated log overlaps the old value. */
  lemma UpdatedAvoids(g: Geometry, m: seq<byte>, lo: nat, id: nat, data: seq<byte>, f: Entry)
    requires IsFlash(g, m) && Updates(g, m, lo, id, data)
    requires var p := Last(PageScan(g, m, lo), id);
             p.Some? && p.value.at + HEADER_LEN <= f.at && f.End() <= p.value.End()
    ensures forall e :: e in Updated(g, m, lo, id, data) ==> e.End() <= f.at || f.End() <= e.at
  {
    hide PageScan, Empty;
    var s := PageScan(g, m, lo);
    var p := Last(s, id).value;
    PageLive(g, m, lo);
    EndsBeforeEmpty(g, m, lo, p);
    forall e | e in Without(s, id) ensures e.End() <= f.at || f.End() <= e.at {
      Disjoint(s, First(lo), e, p);
    }
  }

  /** A record that overlaps no entry of `t` is a dead offset that passes the test. */
  lemma DeadRecord(g: Geometry, n: seq<byte>, lo: nat, t: seq<Entry>, f: Entry)
    requires IsFlash(g, n) && lo <= g.pageLen && InOrder(t, First(lo)) && First(lo) <= f.at
    requires Stored(g.crc, n, f, lo + g.pageLen)
    requires forall i :: 0 <= i < |t| ==> t[i].End() <= f.at || f.End() <= t[i].at
    ensures !Quiet(g.crc, n, First(lo), t, lo + g.pageLen) && PageScan(g, n, lo) != t
  {
    Locate(t, First(lo), lo + g.pageLen, f.at, |t|);
    PageLive(g, n, lo);
  }

  /** Storing the value that is already read: nothing is programmed but the repairs of a read. */
  lemma SetSame(g: Geometry, m: seq<byte>, id: nat, data: seq<byte>)
    requires IsFlash(g, m) && id < INVALID_ID && data != []
    requires id in View(g, m) && View(g, m)[id] == data
    ensures SetPlan(g, m, id, data) == GetPlan(g, m, id) && GetPlan(g, m, id).verdict
  {
    hide PageScan, MapOf, Last, RepairOps;
    if Active(g, m).Some? {
      LastIsMap(PageScan(g, m, Active(g, m).value), id);
    }
  }

  /** So storing a value twice writes nothing the second time, if the first call was scanned as it should be. */
  lemma SetTwice(g: Geometry, m: seq<byte>, lo: nat, id: nat, data: seq<byte>)
    requires IsFlash(g, m) && Updates(g, m, lo, id, data)
    requires var plan := SetPlan(g, m, id, data); Done(m, plan.ops, Total(plan.ops), Chip(g))
    requires PageScan(g, Run(m, SetPlan(g, m, id, data).ops, Chip(g)), lo) == Updated(g, m, lo, id, data)
    ensures SetPlan(g, Run(m, SetPlan(g, m, id, data).ops, Chip(g)), id, data) == Plan([], true)
  {
    hide Cut, Done, PageScan, Empty, MapOf, SetPlan, View, RepairOps;
    var n := Run(m, SetPlan(g, m, id, data).ops, Chip(g));
    SetExact(g, m, lo, id, data);
    UpdateActive(g, m, lo, id, data, Total(SetPlan(g, m, id, data).ops));
    SetSame(g, n, id, data);
    UpdatedRepaired(g, m, lo, id, data);
  }

  lemma UpdatedRepaired(g: Geometry, m: seq<byte>, lo: nat, id: nat, data: seq<byte>)
    requires IsFlash(g, m) && lo <= g.pageLen
    ensures RepairOps(Updated(g, m, lo, id, data), id) == []
  {
    hide PageScan, Empty;
    var t := Without(PageScan(g, m, lo), id);
    NoneLeft(t, id);
    assert Updated(g, m, lo, id, data)[..|t|] == t;
  }

  /**
   How a value of more than 249 bytes can become unreadable: after a format it is stored and can be read; the next
   update of its id is cut between payload and kill; and from then on every read, update and invalidation of the id
   fails.
   */
  lemma StuckReached(g: Geometry, m: seq<byte>, id: nat, long: seq<byte>, next: seq<byte>) returns (k: nat)
    requires IsFlash(g, m) && id < USER_IDS && Mild(long) && Mild(next) && long != next
    requires SHORT < |long| <= 0xFFFF && 0 < |next| <= 0xFFFF
    requires MARK_LEN + HEADER_LEN + |long| + HEADER_LEN + |next| < g.pageLen
    ensures var f := Exec(g, m, CFormat);
            var a := Exec(g, f, CSet(id, long));
            var n := Exec(g, a, CTear(id, next, k));
            && Succeeds(g, f, CSet(id, long)) && ReadBack(g, a, id) == Some(long)
            && Lookup(View(g, n), id) == Some(next) && Stuck(g, n, id) && ReadBack(g, n, id) == None
  {
    hide Tidy, Mild, Cut, Done, SetPlan, FormatPlan, Total, View, PageScan, Empty, Updates, HasRoom, Keep, AppendOps, RepairOps,
         ReadBack, Stuck, Last;
    var f := Exec(g, m, CFormat);
    FormatReady(g, m);
    var e := Entry(MARK_LEN, id, long);
    var a := OneStored(g, f, e);
    TidyActive(g, a, 0, [e]);
    TidyScan(g, a, 0, [e]);
    NextUpdates(g, a, e, next);
    k := Total(AppendOps(g, a, 0, id, next));
    SetTotals(g, a, 0, id, next);
    OneEntry(e);
    RepairGoes(g, a, 0, id, k);
    TidyStep(g, a, 0, [e], id, next, k);
    KillNotBegun(g, a, 0, id, next, k);
    TwoCopies(g, Exec(g, a, CTear(id, next, k)), e, New(g, a, 0, id, next));
  }

  lemma OneEntry(e: Entry)
    ensures Keep([e], e.id) == [e] && Last([e], e.id) == Some(e) && !Clogged([e], e.id) && RepairOps([e], e.id) == []
  {
    assert [e][..0] == [];
    assert Without([], e.id) == [];
  }

  lemma OneStored(g: Geometry, f: seq<byte>, e: Entry) returns (a: seq<byte>)
    requires IsFlash(g, f) && Tidy(g, f, 0, []) && e.at == MARK_LEN && e.id < USER_IDS && Mild(e.data)
    requires 0 < |e.data| <= 0xFFFF && e.End() + MIN_FILE_LEN <= g.pageLen
    ensures a == Exec(g, f, CSet(e.id, e.data)) && Succeeds(g, f, CSet(e.id, e.data))
    ensures Tidy(g, a, 0, [e]) && ReadBack(g, a, e.id) == Some(e.data)
  {
    hide Tidy, Mild, Cut, SetPlan, Total, View, ReadBack, PageScan;
    a := Exec(g, f, CSet(e.id, e.data));
    TidyActive(g, f, 0, []);
    TidyScan(g, f, 0, []);
    assert Updates(g, f, 0, e.id, e.data);
    TidySet(g, f, 0, [], e.id, e.data);
    assert Updated(g, f, 0, e.id, e.data) == [e];
    TidyActive(g, a, 0, [e]);
    TidyScan(g, a, 0, [e]);
    OneEntry(e);
    ReadIs(g, a, e.id);
    LastIsMap([e], e.id);
  }

  lemma NextUpdates(g: Geometry, a: seq<byte>, e: Entry, next: seq<byte>)
    requires IsFlash(g, a) && Active(g, a) == Some(0) && PageScan(g, a, 0) == [e] && Empty(g, a, 0) == e.End()
    requires e.at == MARK_LEN && e.id < USER_IDS && next != e.data && 0 < |next| <= 0xFFFF
    requires e.End() + HEADER_LEN + |next| < g.pageLen
    ensures Updates(g, a, 0, e.id, next) && HasRoom(g, 0, Empty(g, a, 0), |next|)
  {
  }

  lemma TwoCopies(g: Geometry, n: seq<byte>, e: Entry, d: Entry)
    requires IsFlash(g, n) && Tidy(g, n, 0, [e] + [d]) && e.id == d.id < USER_IDS && e.at < d.at && |e.data| > SHORT
    ensures Lookup(View(g, n), e.id) == Some(d.data) && Stuck(g, n, e.id) && ReadBack(g, n, e.id) == None
  {
    hide Tidy, View, ReadBack, PageScan, MapOf;
    var t := [e] + [d];
    TidyActive(g, n, 0, t);
    TidyScan(g, n, 0, t);
    LastIsMap(t, e.id);
    assert e in t && Last(t, e.id) == Some(d);
    ReadIs(g, n, e.id);
  }

  /** The last byte of a payload can give the CRC any value, as it can for every CRC of eight bits. */
  ghost predicate LastByteDecides(crc: Crc) {
    forall d: seq<byte>, c: byte :: CanHit(crc, d, c)
  }

  ghost predicate CanHit(crc: Crc, d: seq<byte>, c: byte) {
    exists x: byte :: crc(d + [x]) == c
  }

  /** A claim that reaches past the page can be made a record, or none, by a byte that is not on the page. */
  lemma FlipClaim(crc: Crc, m: seq<byte>, o: nat, hi: nat) returns (n: seq<byte>)
    requires hi + SPILL <= |m| && LastByteDecides(crc) && Claims(m, o, hi) && EntryAt(m, o).End() > hi
    ensures |n| == |m| && (forall y :: 0 <= y < hi ==> n[y] == m[y])
    ensures IsRecord(crc, n, o, hi) != IsRecord(crc, m, o, hi)
  {
    var e := EntryAt(m, o);
    var d := e.data[..|e.data| - 1];
    var c: byte := if IsRecord(crc, m, o, hi) then (if m[o + 6] == 0 then 1 else 0) else m[o + 6];
    assert CanHit(crc, d, c);
    var x: byte :| crc(d + [x]) == c;
    n := m[e.End() - 1 := x];
    assert EntryAt(n, o).data == d + [x];
  }

  /** Where a scan that has looked at offset `o` goes on. */
  function NextOffset(crc: Crc, m: seq<byte>, o: nat, hi: nat): nat
    requires hi + SPILL <= |m|
  {
    if IsRecord(crc, m, o, hi) then EntryAt(m, o).End() else o + 1
  }

  /** A scan with a claim that reaches past the page depends on what is there. */
  lemma {:induction false} OverhangReads(crc: Crc, m: seq<byte>, o: nat, hi: nat) returns (n: seq<byte>)
    requires hi + SPILL <= |m| && LastByteDecides(crc) && !Contained(crc, m, o, hi)
    ensures |n| == |m| && (forall y :: 0 <= y < hi ==> n[y] == m[y])
    ensures Scan(crc, n, o, hi) != Scan(crc, m, o, hi)
    decreases hi - o
  {
    hide LastByteDecides, Scan;
    if Claims(m, o, hi) && EntryAt(m, o).End() > hi {
      n := FlipClaim(crc, m, o, hi);
      ScanAtOnly(crc, m, o, hi);
      ScanAtOnly(crc, n, o, hi);
    } else {
      n := OverhangReads(crc, m, NextOffset(crc, m, o, hi), hi);
      RecordFrame(crc, m, n, o, hi);
      ScanGoesOn(crc, m, n, o, hi);
    }
  }

  lemma ScanAtOnly(crc: Crc, m: seq<byte>, o: nat, hi: nat)
    requires hi + SPILL <= |m| && o + MIN_FILE_LEN < hi
    ensures IsRecord(crc, m, o, hi) <==> Scan(crc, m, o, hi) != [] && Scan(crc, m, o, hi)[0].at == o
  {
  }

  /** Scans that agree at `o` differ if they differ from there on. */
  lemma ScanGoesOn(crc: Crc, m: seq<byte>, n: seq<byte>, o: nat, hi: nat)
    requires hi + SPILL <= |m| && |n| == |m| && o + MIN_FILE_LEN < hi
    requires IsRecord(crc, n, o, hi) == IsRecord(crc, m, o, hi)
    requires IsRecord(crc, m, o, hi) ==> EntryAt(n, o) == EntryAt(m, o)
    requires Scan(crc, n, NextOffset(crc, m, o, hi), hi) != Scan(crc, m, NextOffset(crc, m, o, hi), hi)
    ensures Scan(crc, n, o, hi) != Scan(crc, m, o, hi)
  {
    ScanStepsOn(crc, m, o, hi);
    ScanStepsOn(crc, n, o, hi);
  }

  lemma ScanStepsOn(crc: Crc, m: seq<byte>, o: nat, hi: nat)
    requires hi + SPILL <= |m| && o + MIN_FILE_LEN < hi
    ensures var s := Scan(crc, m, o, hi);
            Scan(crc, m, NextOffset(crc, m, o, hi), hi) == if IsRecord(crc, m, o, hi) then s[1..] else s
  {
  }

  /** Page 1 is scanned the same whatever page 2 holds. */
  ghost predicate StandsAlone(g: Geometry, m: seq<byte>)
    requires IsFlash(g, m)
  {
    forall n: seq<byte> :: Same(m, n, 0, g.pageLen) ==> ScannedAlike(g, m, n)
  }

  predicate ScannedAlike(g: Geometry, m: seq<byte>, n: seq<byte>)
    requires IsFlash(g, m) && |n| == |m|
  {
    PageScan(g, n, 0) == PageScan(g, m, 0)
  }

  /**
   How much a page turn has to ask of page 1. Its scan is the same whatever page 2 holds, if and only if nothing that
   it visits claims bytes of page 2.
   */
  lemma ContainedExactly(g: Geometry, m: seq<byte>)
    requires IsFlash(g, m) && LastByteDecides(g.crc)
    ensures Contained(g.crc, m, First(0), g.pageLen) <==> StandsAlone(g, m)
  {
    hide Contained, Scan, LastByteDecides;
    if Contained(g.crc, m, First(0), g.pageLen) {
      forall n: seq<byte> | Same(m, n, 0, g.pageLen) ensures ScannedAlike(g, m, n) {
        ScanFrame(g.crc, m, n, First(0), g.pageLen);
      }
    } else {
      var n := OverhangReads(g.crc, m, First(0), g.pageLen);
      assert Same(m, n, 0, g.pageLen) && !ScannedAlike(g, m, n);
    }
  }
}
