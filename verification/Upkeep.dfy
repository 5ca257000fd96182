/** Maintenance and formatting: when a page is turned, what that gains, and what a cut format leaves. */
module Upkeep {
  import opened Bytes
  import opened NorFlash
  import opened Records
  import opened Store
  import opened StoreSteps
  import opened Copies
  import opened StoreLaws
  import opened TurnLaws
  import opened TidyStore
  import opened TidyOps
  import opened Steady
  import opened Reads
  import opened Runs
  import opened Limits

  /** The active page holds no record of the invalid id. */
  predicate Regular(g: Geometry, m: seq<byte>, lo: nat)
    requires IsFlash(g, m)
  {
    Active(g, m) == Some(lo) && forall e :: e in PageScan(g, m, lo) ==> e.id != 0xFFFF
  }

  lemma RegularNone(g: Geometry, m: seq<byte>, lo: nat)
    requires IsFlash(g, m) && Regular(g, m, lo)
    ensures Last(PageScan(g, m, lo), INVALID_ID) == None && RepairOps(PageScan(g, m, lo), INVALID_ID) == []
  {
    NoneLeft(PageScan(g, m, lo), INVALID_ID);
  }

  /**
   Maintenance leaves the flash alone where eight bytes are left, and also where the log overhangs the page, because
   the space computed there wraps around.
   */
  lemma MaintainStays(g: Geometry, m: seq<byte>, lo: nat, k: nat)
    requires IsFlash(g, m) && Regular(g, m, lo)
    requires Empty(g, m, lo) + 8 <= lo + g.pageLen || Empty(g, m, lo) > lo + g.pageLen
    ensures MaintainRun(g, m, k) == Outcome(m, k, true)
  {
    hide PageScan, Empty, RepairOps, TurnRun, Last;
    LogEnd(g, m, lo);
    RegularNone(g, m, lo);
    CutNone(m, k, Chip(g));
  }

  /**
   With seven bytes left or less it turns the page: the other page is active and holds the same records, and all that
   they do not need is erased.
   */
  lemma MaintainTurns(g: Geometry, m: seq<byte>, lo: nat, k: nat)
    requires IsFlash(g, m) && Regular(g, m, lo) && Fits(g, m, lo)
    requires lo + g.pageLen < Empty(g, m, lo) + 8 && k >= Total(TurnPlan(g, m).ops)
    ensures var r := MaintainRun(g, m, k);
            var np := if lo == 0 then g.pageLen else 0;
            var s := PageScan(g, m, lo);
            var t := PageScan(g, r.flash, np);
            && r.res && Active(g, r.flash) == Some(np) && View(g, r.flash) == View(g, m)
            && |t| == |s| && (forall i :: 0 <= i < |s| ==> t[i].id == s[i].id && t[i].data == s[i].data)
            && Empty(g, r.flash, np) == np + 4 + Size(s) && Blank(r.flash, np + 4 + Size(s), np + g.pageLen)
  {
    hide PageScan, Empty, Fits, View, TurnRun, TurnPlan, Done, Cut, Spent, Last, RepairOps, Total, Active;
    ActiveSome(g, m, lo);
    ReadableEnd(g, m, lo);
    RegularNone(g, m, lo);
    TurnIsPlan(g, m, k);
    TurnAccepted(g, m, lo);
    DoneMore(m, TurnPlan(g, m).ops, Total(TurnPlan(g, m).ops), k, Chip(g));
    TurnCopies(g, m, lo, k);
    TurnWants(g, m, lo);
    TurnDue(g, m, lo);
  }

  lemma ActiveSome(g: Geometry, m: seq<byte>, lo: nat)
    requires IsFlash(g, m) && Active(g, m) == Some(lo) && Fits(g, m, lo)
    ensures Readable(g, m) && (lo == 0 || lo == g.pageLen)
  {
  }

  lemma TurnWants(g: Geometry, m: seq<byte>, lo: nat)
    requires IsFlash(g, m) && Active(g, m) == Some(lo)
    ensures TurnPlan(g, m).verdict
  {
  }

  lemma TurnDue(g: Geometry, m: seq<byte>, lo: nat)
    requires IsFlash(g, m) && Active(g, m) == Some(lo) && Last(PageScan(g, m, lo), INVALID_ID) == None
    requires lo + g.pageLen < Empty(g, m, lo) + 8 && First(lo) <= Empty(g, m, lo) <= lo + g.pageLen
    ensures forall k :: MaintainRun(g, m, k) == TurnRun(g, m, k)
  {
    hide PageScan, Empty, TurnRun, Last;
  }

  /** Without an active page nothing happens, and the call reports success. */
  lemma MaintainNothing(g: Geometry, m: seq<byte>, k: nat)
    requires IsFlash(g, m) && Active(g, m) == None
    ensures MaintainRun(g, m, k) == Outcome(m, k, true) && TurnRun(g, m, k) == Outcome(m, k, false)
  {
    CutNone(m, k, Chip(g));
  }

  /** Nor is a page turned that holds a record of the invalid id: the copies of that are repaired. */
  lemma MaintainRepairs(g: Geometry, m: seq<byte>, lo: nat, k: nat)
    requires IsFlash(g, m) && Active(g, m) == Some(lo) && exists e :: e in PageScan(g, m, lo) && e.id == 0xFFFF
    ensures var r := MaintainRun(g, m, k);
            r.res && r.flash == Cut(m, RepairOps(PageScan(g, m, lo), 0xFFFF), k, Chip(g))
  {
    hide PageScan, RepairOps, TurnRun, Cut, Done, Spent;
    LastNone(PageScan(g, m, lo), INVALID_ID);
  }

  /** A freshly formatted store is not turned. */
  lemma MaintainFresh(g: Geometry, m: seq<byte>, k: nat)
    requires IsFlash(g, m)
    ensures var f := Run(m, FormatPlan(g).ops, Chip(g)); MaintainRun(g, f, k) == Outcome(f, k, true)
  {
    hide Tidy, PageScan, MaintainRun, Empty, Cut, FormatPlan;
    FormatReady(g, m);
    var f := Run(m, FormatPlan(g).ops, Chip(g));
    TidyActive(g, f, 0, []);
    TidyScan(g, f, 0, []);
    MaintainStays(g, f, 0, k);
  }

  /**
   What maintenance is for. On a tidy page with at most seven bytes left, a value that has room beside the live records
   but not behind the log is refused; after maintenance it is stored and can be read.
   */
  lemma MaintainMakesRoom(g: Geometry, m: seq<byte>, lo: nat, s: seq<Entry>, id: nat, data: seq<byte>)
    requires IsFlash(g, m) && Tidy(g, m, lo, s) && lo + g.pageLen < Bound(s, First(lo), |s|) + 8
    requires id < USER_IDS && 8 <= |data| <= 0xFFFF && Mild(data) && 4 + Size(s) + 7 + |data| <= g.pageLen
    requires (id in View(g, m) ==> View(g, m)[id] != data) && !Stuck(g, m, id)
    ensures !Succeeds(g, m, CSet(id, data))
    ensures var n := Exec(g, m, CMaintain);
            Succeeds(g, n, CSet(id, data)) && ReadBack(g, Exec(g, n, CSet(id, data)), id) == Some(data)
  {
    hide Tidy, Mild, PageScan, Empty, Fits, View, Cut, Done, Exec, Succeeds, MaintainRun, TurnPlan, Total, Stuck, Size, SetPlan,
         NeedsTurn, ReadBack, Alike, AllMild;
    TidyActive(g, m, lo, s);
    TidyScan(g, m, lo, s);
    TidyRegular(g, m, lo, s);
    NoRoomYet(g, m, lo, id, data);
    var n := TurnedTidy(g, m, lo, s);
    RoomNow(g, m, lo, s, n, id, data);
  }

  lemma TidyRegular(g: Geometry, m: seq<byte>, lo: nat, s: seq<Entry>)
    requires IsFlash(g, m) && Tidy(g, m, lo, s)
    ensures Regular(g, m, lo)
  {
    hide Tidy, PageScan, Mild;
    TidyActive(g, m, lo, s);
    TidyScan(g, m, lo, s);
    TidyMild(g, m, lo, s);
  }

  lemma NoRoomYet(g: Geometry, m: seq<byte>, lo: nat, id: nat, data: seq<byte>)
    requires IsFlash(g, m) && Active(g, m) == Some(lo) && |data| >= 8
    requires First(lo) <= Empty(g, m, lo) <= lo + g.pageLen < Empty(g, m, lo) + 8
    requires id in View(g, m) ==> View(g, m)[id] != data
    ensures !Succeeds(g, m, CSet(id, data))
  {
    hide PageScan, Empty, Last, MapOf, RepairOps, UpdateOps, Done;
    LastIsMap(PageScan(g, m, lo), id);
  }

  /** Maintenance of a full tidy page leaves the records packed on the other one. */
  lemma TurnedTidy(g: Geometry, m: seq<byte>, lo: nat, s: seq<Entry>) returns (n: seq<byte>)
    requires IsFlash(g, m) && Tidy(g, m, lo, s) && lo + g.pageLen < Bound(s, First(lo), |s|) + 8
    ensures n == Exec(g, m, CMaintain) && IsFlash(g, n)
    ensures Tidy(g, n, Passive(g, lo), Moved(s, First(Passive(g, lo)))) && View(g, n) == View(g, m)
    ensures forall j: nat :: Alike(g, m, n, j)
  {
    hide Tidy, PageScan, Empty, Fits, View, Cut, Done, TurnPlan, Total, AllMild, Moved, ReadBack, Stuck;
    TidyActive(g, m, lo, s);
    TidyScan(g, m, lo, s);
    TidyMild(g, m, lo, s);
    TidyRegular(g, m, lo, s);
    TurnAccepted(g, m, lo);
    FullTurns(g, m, lo);
    TurnTidy(g, m, lo, Total(TurnPlan(g, m).ops));
    TurnReads(g, m, lo, Total(TurnPlan(g, m).ops));
    n := Exec(g, m, CMaintain);
  }

  lemma FullTurns(g: Geometry, m: seq<byte>, lo: nat)
    requires IsFlash(g, m) && Regular(g, m, lo) && First(lo) <= Empty(g, m, lo) <= lo + g.pageLen < Empty(g, m, lo) + 8
    ensures MaintainPlan(g, m) == TurnPlan(g, m)
  {
    hide PageScan, Empty, Last, TurnPlan;
    RegularNone(g, m, lo);
  }

  lemma RoomNow(g: Geometry, m: seq<byte>, lo: nat, s: seq<Entry>, n: seq<byte>, id: nat, data: seq<byte>)
    requires IsFlash(g, m) && IsFlash(g, n) && (lo == 0 || lo == g.pageLen) && PageScan(g, m, lo) == s
    requires Tidy(g, n, Passive(g, lo), Moved(s, First(Passive(g, lo)))) && View(g, n) == View(g, m) && Alike(g, m, n, id)
    requires id < USER_IDS && 8 <= |data| <= 0xFFFF && Mild(data) && 4 + Size(s) + 7 + |data| <= g.pageLen
    requires (id in View(g, m) ==> View(g, m)[id] != data) && !Stuck(g, m, id)
    ensures Succeeds(g, n, CSet(id, data)) && ReadBack(g, Exec(g, n, CSet(id, data)), id) == Some(data)
  {
    hide Tidy, Mild, PageScan, View, Cut, Done, Total, SetPlan, ReadBack, Empty, Moved, Size, Keep, MapOf, Clogged, RepairOps, Last;
    var np := Passive(g, lo);
    var t := Moved(s, First(np));
    TidyActive(g, n, np, t);
    TidyScan(g, n, np, t);
    MovedBound(s, First(np), |s|);
    assert s[..|s|] == s;
    NewValue(g, n, np, id, data);
    NotStuckGoes(g, n, np, id, Total(RepairOps(t, id)));
    RepairGoes(g, n, np, id, Total(RepairOps(t, id)));
    TidySet(g, n, np, t, id, data);
    StoredReads(g, n, np, t, id, data);
  }

  lemma NewValue(g: Geometry, n: seq<byte>, np: nat, id: nat, data: seq<byte>)
    requires IsFlash(g, n) && Active(g, n) == Some(np) && id < USER_IDS && 8 <= |data| <= 0xFFFF
    requires First(np) <= Empty(g, n, np) && Empty(g, n, np) + 7 + |data| <= np + g.pageLen
    requires id in View(g, n) ==> View(g, n)[id] != data
    ensures Updates(g, n, np, id, data) && HasRoom(g, np, Empty(g, n, np), |data|)
  {
    hide PageScan, Empty, Last, MapOf;
    LastIsMap(PageScan(g, n, np), id);
  }

  lemma StoredReads(g: Geometry, n: seq<byte>, np: nat, t: seq<Entry>, id: nat, data: seq<byte>)
    requires IsFlash(g, n) && Tidy(g, n, np, t) && Updates(g, n, np, id, data) && id < USER_IDS && Mild(data)
    requires Tidy(g, Run(n, SetPlan(g, n, id, data).ops, Chip(g)), np, Updated(g, n, np, id, data))
    requires View(g, Run(n, SetPlan(g, n, id, data).ops, Chip(g))) == View(g, n)[id := data]
    ensures ReadBack(g, Exec(g, n, CSet(id, data)), id) == Some(data)
  {
    hide Tidy, Mild, PageScan, View, Cut, Total, SetPlan, ReadBack, Empty, Without, MapOf;
    var r := Exec(g, n, CSet(id, data));
    var u := Updated(g, n, np, id, data);
    TidyActive(g, r, np, u);
    TidyScan(g, r, np, u);
    OnlyNew(PageScan(g, n, np), id, New(g, n, np, id, data));
    ReadIs(g, r, id);
  }

  lemma OnlyNew(s: seq<Entry>, id: nat, e: Entry)
    requires e.id == id
    ensures !Clogged(Without(s, id) + [e], id)
  {
    hide Without;
    OneCopy(Without(s, id) + [e], id, e);
  }

  /** A byte of a page mark that is not as it should be. */
  lemma Unmarked(n: seq<byte>, lo: nat, i: nat)
    requires lo + MARK_LEN <= |n| && i < 4 && n[lo + i] != MARK[i]
    ensures !Marked(n, lo)
  {
    assert n[lo..lo + MARK_LEN][i] == n[lo + i];
  }

  /** The three stages of a format: the mark of page 2 goes, then page 1 is erased from its start, then marked. */
  lemma FormatStages(g: Geometry, m: seq<byte>, k: nat)
    requires IsFlash(g, m)
    ensures var n := Cut(m, FormatPlan(g).ops, k, Chip(g));
            var a := Apply(m, Zero(g.pageLen, 4), k);
            && (k < 4 ==> n == a)
            && (k >= 4 ==>
                  var b := Apply(a, Erase(0, g.pageLen), k - 4);
                  n == if k - 4 < g.pageLen then b else Apply(b, Write(0, MARK), k - 4 - g.pageLen))
  {
    hide Cut, Done, Apply, Total, Spent;
    CutOne(m, Zero(g.pageLen, MARK_LEN), k, Chip(g));
    CutSnoc(m, [Zero(g.pageLen, MARK_LEN)], Erase(0, g.pageLen), k, Chip(g));
    CutSnoc(m, [Zero(g.pageLen, MARK_LEN)] + [Erase(0, g.pageLen)], Write(0, MARK), k, Chip(g));
  }

  /** The last two bytes of the mark of page 2 are in place; the first two are zero in the mark. */
  predicate HalfMark(g: Geometry, m: seq<byte>)
    requires IsFlash(g, m)
  {
    m[g.pageLen + 2] == 0xA5 && m[g.pageLen + 3] == 0x5A
  }

  /**
   Zeroing the mark of page 2 leaves what was active as it was, or nothing active; but two zeros make a mark of a half
   one.
   */
  lemma FormatFirst(g: Geometry, m: seq<byte>, k: nat)
    requires IsFlash(g, m) && (Active(g, m).Some? ==> Fits(g, m, Active(g, m).value))
    ensures var n := Apply(m, Zero(g.pageLen, 4), k);
            || Active(g, n) == None
            || (Active(g, n) == Active(g, m) && View(g, n) == View(g, m))
            || (Active(g, m) == None && 0 < k < 3 && HalfMark(g, m) && Active(g, n) == Some(g.pageLen))
  {
    hide PageScan, Fits, View, Apply;
    var n := Apply(m, Zero(g.pageLen, 4), k);
    ApplyOutside(m, Zero(g.pageLen, 4), k, 0, g.pageLen);
    ApplyOutside(m, Zero(g.pageLen, 4), k, g.pageLen + 4, |m|);
    assert n[0..MARK_LEN] == m[0..MARK_LEN];
    MarkZeroed(g, m, k);
    if Active(g, n).Some? && Active(g, n) == Active(g, m) {
      SamePage(g, m, n, Active(g, m).value);
    }
  }

  lemma MarkZeroed(g: Geometry, m: seq<byte>, k: nat)
    requires IsFlash(g, m)
    ensures var n := Apply(m, Zero(g.pageLen, 4), k);
            && (k == 0 ==> n == m) && (k >= 3 ==> !Marked(n, g.pageLen))
            && (k < 3 && Marked(n, g.pageLen) ==> HalfMark(g, m))
  {
    var n := Apply(m, Zero(g.pageLen, 4), k);
    var a := n[g.pageLen..g.pageLen + MARK_LEN];
    assert a[2] == n[g.pageLen + 2] && a[3] == n[g.pageLen + 3];
    if k >= 3 {
      AndByte(m[g.pageLen + 2]);
    }
  }

  lemma MarkSame(m: seq<byte>, n: seq<byte>, lo: nat)
    requires lo + MARK_LEN <= |m| && Same(m, n, lo, lo + MARK_LEN)
    ensures Marked(n, lo) == Marked(m, lo)
  {
    assert n[lo..lo + MARK_LEN] == m[lo..lo + MARK_LEN];
  }

  /** While page 1 is being erased no page is active. */
  lemma FormatErasing(g: Geometry, a: seq<byte>, j: nat)
    requires IsFlash(g, a) && !Marked(a, g.pageLen)
    ensures var b := Apply(a, Erase(0, g.pageLen), j);
            !Marked(b, g.pageLen) && (j == 0 ==> b == a) && (0 < j ==> Active(g, b) == None)
            && (j >= g.pageLen ==> Blank(b, 0, g.pageLen))
  {
    hide Marked;
    var b := Apply(a, Erase(0, g.pageLen), j);
    ApplyOutside(a, Erase(0, g.pageLen), j, g.pageLen, |a|);
    MarkSame(a, b, g.pageLen);
    if 0 < j {
      Unmarked(b, 0, 0);
    }
  }

  /** Nor is one until the mark of page 1 is whole; then the store is empty. */
  lemma FormatMarking(g: Geometry, a: seq<byte>, j: nat)
    requires IsFlash(g, a) && !Marked(a, g.pageLen) && j >= g.pageLen
    ensures var n := Apply(Apply(a, Erase(0, g.pageLen), j), Write(0, MARK), j - g.pageLen);
            if j - g.pageLen < 4 then Active(g, n) == None else Active(g, n) == Some(0) && View(g, n) == map[]
  {
    hide View, Marked, Apply;
    var b := Apply(a, Erase(0, g.pageLen), j);
    var n := Apply(b, Write(0, MARK), j - g.pageLen);
    FormatErasing(g, a, j);
    ApplyOutside(b, Write(0, MARK), j - g.pageLen, g.pageLen, |b|);
    MarkSame(b, n, g.pageLen);
    MarkWritten(b, 0, j - g.pageLen);
    if j - g.pageLen >= 4 {
      FormatTidy(g, a, n, j, j - g.pageLen);
    }
  }

  /**
   A format cut after any byte. What is read is what was read before, or nothing: the old records are never read
   again once page 1 is being erased. The one exception is a half mark on page 2 where no page was active, which the
   first two bytes of the format complete. After a completed format page 1 is active and empty.
   */
  lemma FormatAtomic(g: Geometry, m: seq<byte>, k: nat)
    requires IsFlash(g, m) && (Active(g, m).Some? ==> Fits(g, m, Active(g, m).value))
    ensures var n := Cut(m, FormatPlan(g).ops, k, Chip(g));
            || View(g, n) == View(g, m)
            || View(g, n) == map[]
            || (Active(g, m) == None && 0 < k < 3 && HalfMark(g, m))
    ensures var n := Cut(m, FormatPlan(g).ops, k, Chip(g));
            && (4 < k < 8 + g.pageLen ==> Active(g, n) == None)
            && (k >= 8 + g.pageLen ==> Active(g, n) == Some(0) && View(g, n) == map[])
  {
    hide Cut, Apply, PageScan, Fits, Marked;
    FormatStages(g, m, k);
    FormatFirst(g, m, k);
    MarkZeroed(g, m, k);
    if k >= 4 {
      hide View;
      var a := Apply(m, Zero(g.pageLen, 4), k);
      FormatErasing(g, a, k - 4);
      if k - 4 >= g.pageLen {
        FormatMarking(g, a, k - 4);
      }
      NothingActive(g, Cut(m, FormatPlan(g).ops, k, Chip(g)));
    }
    NothingActive(g, Apply(m, Zero(g.pageLen, 4), k));
  }

  lemma NothingActive(g: Geometry, n: seq<byte>)
    requires IsFlash(g, n)
    ensures Active(g, n) == None ==> View(g, n) == map[]
  {
  }
}
