/** What repairs, updates, page turns and formatting make of a tidy store. */
module TidyOps {
  import opened Bytes
  import opened NorFlash
  import opened Records
  import opened Store
  import opened StoreSteps
  import opened Copies
  import opened StoreLaws
  import opened TurnLaws
  import opened TidyStore

  lemma TidyBlank(g: Geometry, m: seq<byte>, lo: nat, s: seq<Entry>)
    requires IsFlash(g, m) && Tidy(g, m, lo, s)
    ensures Blank(m, Empty(g, m, lo), lo + g.pageLen)
  {
    TidyScan(g, m, lo, s);
  }

  /** The log while the first `i` records have been repaired. */
  function Repaired(s: seq<Entry>, id: nat, i: nat): seq<Entry>
    requires i <= |s|
  {
    Keep(s[..i], id) + s[i..]
  }

  /** One more record visited: either nothing changes, or the last copy so far is dropped. */
  lemma RepairedStep(s: seq<Entry>, id: nat, i: nat) returns (j: nat)
    requires i < |s|
    ensures s[i].id == id && Last(s[..i], id).Some? ==>
              && j + 1 < |Repaired(s, id, i)| && Repaired(s, id, i)[j] == Last(s[..i], id).value
              && Drop(Repaired(s, id, i), j) == Repaired(s, id, i + 1)
    ensures !(s[i].id == id && Last(s[..i], id).Some?) ==> Repaired(s, id, i + 1) == Repaired(s, id, i)
  {
    hide Keep, Drop, Last, Without;
    KeepNext(s, id, i);
    j := 0;
    if s[i].id == id {
      if Last(s[..i], id).Some? {
        j := KeepDrop(s[..i], id);
        DropFront(Keep(s[..i], id), s[i..], j);
      } else {
        KeepAbsent(s[..i], id);
      }
    }
  }

  lemma RepairedEnds(s: seq<Entry>, id: nat)
    ensures Repaired(s, id, 0) == s && Repaired(s, id, |s|) == Keep(s, id)
  {
    assert s[..|s|] == s;
  }

  lemma RepairedIn(s: seq<Entry>, id: nat, i: nat)
    requires i <= |s|
    ensures forall e :: e in Repaired(s, id, i) ==> e in s
  {
    hide Keep;
    KeepIn(s[..i], id);
  }

  /** Repairs keep a tidy page tidy. */
  lemma {:induction false} RepairTidy(g: Geometry, m: seq<byte>, lo: nat, s: seq<Entry>, id: nat, i: nat, k: nat)
    requires IsFlash(g, m) && Tidy(g, m, lo, s) && i <= |s|
    requires Done(m, RepairOps(s[..i], id), k, Chip(g))
    ensures Tidy(g, Cut(m, RepairOps(s[..i], id), k, Chip(g)), lo, Repaired(s, id, i))
  {
    hide Tidy, Cut, Done, RepairOps, Repaired, Keep, Apply, Total, Takes, Accepts, Spent, Last, Drop;
    if i == 0 {
      RepairNone(s, id);
      CutNone(m, k, Chip(g));
      RepairedEnds(s, id);
    } else {
      RepairStep(s, i - 1, id);
      var j := RepairedStep(s, id, i - 1);
      var ops := RepairOps(s[..i - 1], id);
      var p := Last(s[..i - 1], id);
      if s[i - 1].id == id && p.Some? {
        CutSnoc(m, ops, Zero(p.value.at, HEADER_LEN + |p.value.data|), k, Chip(g));
        RepairTidy(g, m, lo, s, id, i - 1, k);
        TidyDrop(g, Cut(m, ops, k, Chip(g)), lo, Repaired(s, id, i - 1), j, k - Total(ops));
      } else {
        RepairTidy(g, m, lo, s, id, i - 1, k);
      }
    }
  }

  lemma ApplyMore(c: seq<byte>, op: Op, k: nat)
    requires Cost(op) <= k
    ensures Apply(c, op, k) == Apply(c, op, Cost(op))
  {
  }

  lemma TidyDrop(g: Geometry, c: seq<byte>, lo: nat, u: seq<Entry>, j: nat, k: nat)
    requires IsFlash(g, c) && Tidy(g, c, lo, u) && j + 1 < |u| && HEADER_LEN + |u[j].data| <= k
    ensures Tidy(g, Apply(c, Zero(u[j].at, HEADER_LEN + |u[j].data|), k), lo, Drop(u, j))
  {
    hide Tidy, Apply, Drop;
    ApplyMore(c, Zero(u[j].at, HEADER_LEN + |u[j].data|), k);
    TidyKill(g, c, lo, u, j, HEADER_LEN + |u[j].data|);
  }

  /** How far repairs get that a supply lasts for: to the end, or to the first copy that is refused. */
  lemma {:induction false} RepairReach(m: seq<byte>, s: seq<Entry>, id: nat, k: nat, chip: Device) returns (i: nat)
    requires Total(RepairOps(s, id)) <= k
    ensures i <= |s| && Done(m, RepairOps(s[..i], id), k, chip)
    ensures Cut(m, RepairOps(s, id), k, chip) == Cut(m, RepairOps(s[..i], id), k, chip)
    ensures Done(m, RepairOps(s, id), k, chip) ==> i == |s|
  {
    hide Cut, Done, RepairOps, Spent;
    assert s[..|s|] == s;
    if s == [] {
      RepairNone(s, id);
      CutNone(m, k, chip);
      i := 0;
    } else if Done(m, RepairOps(s, id), k, chip) {
      i := |s|;
    } else {
      var t := s[..|s| - 1];
      RepairStep(s, |s| - 1, id);
      if RepairOps(s, id) == RepairOps(t, id) {
        i := RepairReach(m, t, id, k, chip);
      } else {
        var op := RepairOps(s, id)[|RepairOps(t, id)|];
        CutSnoc(m, RepairOps(t, id), op, k, chip);
        if Done(m, RepairOps(t, id), k, chip) {
          i := |s| - 1;
        } else {
          i := RepairReach(m, t, id, k, chip);
        }
      }
      assert t[..i] == s[..i];
    }
  }

  /** A search on a tidy page leaves a tidy page of records that were there; if it repairs all, only the last copy. */
  lemma TidySearch(g: Geometry, m: seq<byte>, lo: nat, s: seq<Entry>, id: nat, k: nat) returns (t: seq<Entry>)
    requires IsFlash(g, m) && Tidy(g, m, lo, s) && Total(RepairOps(s, id)) <= k
    ensures var n := Cut(m, RepairOps(s, id), k, Chip(g));
            Tidy(g, n, lo, t) && (forall e :: e in t ==> e in s)
    ensures Done(m, RepairOps(s, id), k, Chip(g)) ==> t == Keep(s, id)
  {
    hide Tidy, Cut, Done, RepairOps, Keep, Repaired, Total;
    var i := RepairReach(m, s, id, k, Chip(g));
    RepairTidy(g, m, lo, s, id, i, k);
    RepairedIn(s, id, i);
    RepairedEnds(s, id);
    t := Repaired(s, id, i);
  }

  /** Repairs leave the last record of the log. */
  lemma {:induction false} KeepEnd(s: seq<Entry>, id: nat, o: nat)
    ensures Bound(Keep(s, id), o, |Keep(s, id)|) == Bound(s, o, |s|)
    ensures s != [] ==> Keep(s, id) != [] && Keep(s, id)[|Keep(s, id)| - 1] == s[|s| - 1]
  {
  }

  /** Header and payload written at the end of a tidy page. */
  lemma TidyStep(g: Geometry, m: seq<byte>, lo: nat, s: seq<Entry>, id: nat, data: seq<byte>, k: nat)
    requires IsFlash(g, m) && Tidy(g, m, lo, s)
    requires Updates(g, m, lo, id, data) && id < USER_IDS && Mild(data)
    requires HasRoom(g, lo, Empty(g, m, lo), |data|)
    requires Done(m, RepairOps(s, id), k, Chip(g)) && Total(AppendOps(g, m, lo, id, data)) <= k
    ensures Done(m, AppendOps(g, m, lo, id, data), k, Chip(g))
    ensures Tidy(g, Cut(m, AppendOps(g, m, lo, id, data), k, Chip(g)), lo, Keep(s, id) + [New(g, m, lo, id, data)])
  {
    hide Tidy, Mild, PageScan, Header, Cut, Done, Stored, Total, RepairOps, Keep, Programmable, Spent;
    var e := New(g, m, lo, id, data);
    var ops := RepairOps(s, id);
    var w := [Write(e.at, Header(g, id, data)), Write(e.at + HEADER_LEN, data)];
    TidyScan(g, m, lo, s);
    assert AppendOps(g, m, lo, id, data) == ops + w;
    var t := TidySearch(g, m, lo, s, id, k);
    TidyBlank(g, m, lo, s);
    BlankProgrammable(m, e.at, Encode(g, e));
    AppendGoes(g, m, lo, id, data, k);
    NewStored(g, m, lo, id, data, k);
    CutConcat(m, ops, w, k, Chip(g));
    CutFrame(Cut(m, ops, k, Chip(g)), w, k - Total(ops), Chip(g), e.at, e.End());
    KeepEnd(s, id, First(lo));
    TidyAppend(g, Cut(m, ops, k, Chip(g)), Cut(m, ops + w, k, Chip(g)), lo, t, e);
  }

  /** A successful update of a tidy page: no dead byte can harm it. */
  lemma TidySet(g: Geometry, m: seq<byte>, lo: nat, s: seq<Entry>, id: nat, data: seq<byte>)
    requires IsFlash(g, m) && Tidy(g, m, lo, s)
    requires Updates(g, m, lo, id, data) && id < USER_IDS && Mild(data)
    requires HasRoom(g, lo, Empty(g, m, lo), |data|)
    requires forall e :: e in s && e !in Keep(s, id) ==> |e.data| <= 249
    ensures var plan := SetPlan(g, m, id, data);
            var n := Run(m, plan.ops, Chip(g));
            && plan.verdict && Done(m, plan.ops, Total(plan.ops), Chip(g))
            && Tidy(g, n, lo, Updated(g, m, lo, id, data))
            && View(g, n) == View(g, m)[id := data]
  {
    hide Tidy, Mild, Empty, AppendOps, Cut, Done, View, SetPlan, PageScan, MapOf, Keep, RepairOps, Total, HasRoom;
    var plan := SetPlan(g, m, id, data);
    var e := New(g, m, lo, id, data);
    var k := Total(plan.ops);
    var n := Cut(m, plan.ops, k, Chip(g));
    TidyScan(g, m, lo, s);
    SetPlanIs(g, m, lo, id, data);
    SetTotals(g, m, lo, id, data);
    RepairGoes(g, m, lo, id, k);
    TidyStep(g, m, lo, s, id, data, k);
    UpdateMap(s, e);
    if Last(s, id).Some? {
      SetKill(g, m, lo, s, id, data, k);
    } else {
      var ops := AppendOps(g, m, lo, id, data);
      assert ops + [] == ops;
      KeepAbsent(s, id);
    }
    TidyScan(g, n, lo, Updated(g, m, lo, id, data));
  }

  lemma SetTotals(g: Geometry, m: seq<byte>, lo: nat, id: nat, data: seq<byte>)
    requires IsFlash(g, m) && Updates(g, m, lo, id, data)
    ensures Total(RepairOps(PageScan(g, m, lo), id)) <= Total(AppendOps(g, m, lo, id, data)) <= Total(SetPlan(g, m, id, data).ops)
    ensures Last(PageScan(g, m, lo), id).Some? ==>
      Total(SetPlan(g, m, id, data).ops) == Total(AppendOps(g, m, lo, id, data)) + HEADER_LEN
  {
    hide PageScan, RepairOps, Header, SetPlan, Cut, Done, Spent;
    SetPlanIs(g, m, lo, id, data);
    var e := New(g, m, lo, id, data);
    var ops := RepairOps(PageScan(g, m, lo), id);
    CutTwo(m, ops, Write(e.at, Header(g, id, data)), Write(e.at + HEADER_LEN, data), 0, Chip(g));
    var p := Last(PageScan(g, m, lo), id);
    if p.Some? {
      CutSnoc(m, AppendOps(g, m, lo, id, data), Zero(p.value.at, HEADER_LEN), 0, Chip(g));
    } else {
      assert AppendOps(g, m, lo, id, data) + [] == AppendOps(g, m, lo, id, data);
    }
  }

  lemma SetKill(g: Geometry, m: seq<byte>, lo: nat, s: seq<Entry>, id: nat, data: seq<byte>, k: nat)
    requires IsFlash(g, m) && Tidy(g, m, lo, s) && Updates(g, m, lo, id, data) && Last(s, id).Some?
    requires k == Total(SetPlan(g, m, id, data).ops) && PageScan(g, m, lo) == s
    requires Done(m, AppendOps(g, m, lo, id, data), k, Chip(g))
    requires Tidy(g, Cut(m, AppendOps(g, m, lo, id, data), k, Chip(g)), lo, Keep(s, id) + [New(g, m, lo, id, data)])
    ensures Done(m, SetPlan(g, m, id, data).ops, k, Chip(g))
    ensures Tidy(g, Cut(m, SetPlan(g, m, id, data).ops, k, Chip(g)), lo, Updated(g, m, lo, id, data))
  {
    hide Tidy, Empty, AppendOps, Cut, Done, View, SetPlan, PageScan, Keep, Without, Drop, Total, Stored, Apply;
    var ops := AppendOps(g, m, lo, id, data);
    var e := New(g, m, lo, id, data);
    var p := Last(s, id).value;
    SetPlanIs(g, m, lo, id, data);
    SetTotals(g, m, lo, id, data);
    CutSnoc(m, ops, Zero(p.at, HEADER_LEN), k, Chip(g));
    PageLive(g, m, lo);
    StoredInSight(g, m, p, lo + g.pageLen);
    var j := KeepDrop(s, id);
    DropFront(Keep(s, id), [e], j);
    ApplyMore(Cut(m, ops, k, Chip(g)), Zero(p.at, HEADER_LEN), k - Total(ops));
    TidyKill(g, Cut(m, ops, k, Chip(g)), lo, Keep(s, id) + [e], j, HEADER_LEN);
  }

  /** The page kept its bytes and stayed active. */
  lemma TidySame(g: Geometry, m: seq<byte>, n: seq<byte>, lo: nat, s: seq<Entry>)
    requires IsFlash(g, m) && IsFlash(g, n) && Tidy(g, m, lo, s)
    requires Active(g, n) == Some(lo) && Same(m, n, First(lo), PageTop(g, lo))
    ensures Tidy(g, n, lo, s)
  {
    hide Neat;
    forall i | 0 <= i < |s| ensures NeatAt(g, n, lo, s, i) {
      TidyAt(g, m, lo, s, i);
      NeatFrame(g, m, n, Bound(s, First(lo), i), s[i], lo + g.pageLen);
    }
    if s != [] { TidyAt(g, m, lo, s, |s| - 1); }
  }

  /** A log of mild user records, packed, is a tidy page, without any dead byte. */
  lemma TidyPacked(g: Geometry, m: seq<byte>, n: seq<byte>, lo: nat)
    requires IsFlash(g, m) && IsFlash(g, n) && Active(g, m) == Some(lo)
    requires Fits(g, m, lo) && AllMild(PageScan(g, m, lo))
    requires Active(g, n) == Some(Passive(g, lo)) && Packed(g, n, PageScan(g, m, lo), Passive(g, lo))
    ensures Tidy(g, n, Passive(g, lo), Moved(PageScan(g, m, lo), First(Passive(g, lo))))
  {
    hide Neat, Moved, Coded, PageScan, Fits, Stored, Mild, Size;
    var np := Passive(g, lo);
    var s := PageScan(g, m, lo);
    var t := Moved(s, First(np));
    forall i | 0 <= i < |t| ensures NeatAt(g, n, np, t, i) {
      assert s[i] in s;
      MovedBound(s, First(np), i);
      MovedStored(g, m, lo, n, i);
      NeatLast(g, n, t[i], np + g.pageLen);
    }
    MovedBound(s, First(np), |s|);
    assert s[..|s|] == s;
  }

  /** Every record has a user id and a mild value. */
  ghost predicate AllMild(s: seq<Entry>) {
    forall e :: e in s ==> e.id < USER_IDS && Mild(e.data)
  }

  lemma NeatMild(g: Geometry, m: seq<byte>, b: nat, e: Entry, hi: nat)
    requires hi + SPILL <= |m| && Neat(g, m, b, e, hi)
    ensures Mild(e.data) && e.id < USER_IDS
  {
  }

  lemma TidyMild(g: Geometry, m: seq<byte>, lo: nat, s: seq<Entry>)
    requires IsFlash(g, m) && Tidy(g, m, lo, s)
    ensures AllMild(s)
  {
    hide Tidy, Neat, Mild;
    forall e | e in s ensures e.id < USER_IDS && Mild(e.data) {
      var i :| 0 <= i < |s| && s[i] == e;
      TidyAt(g, m, lo, s, i);
      NeatMild(g, m, Bound(s, First(lo), i), s[i], lo + g.pageLen);
    }
  }

  /** A page turn cut after any number of bytes leaves a tidy store with the same map. */
  lemma TidyTurn(g: Geometry, m: seq<byte>, lo: nat, s: seq<Entry>, k: nat)
    requires IsFlash(g, m) && Tidy(g, m, lo, s)
    ensures var n := Cut(m, TurnPlan(g, m).ops, k, Chip(g));
            Ready(g, n) && View(g, n) == View(g, m)
  {
    hide Tidy, Cut, TurnPlan, Packed, PageScan, Fits, Moved;
    var n := Cut(m, TurnPlan(g, m).ops, k, Chip(g));
    TidyActive(g, m, lo, s);
    TidyScan(g, m, lo, s);
    TurnSurvives(g, m, lo, k);
    SurvivesReads(g, m, lo, n);
    if Active(g, n) == Some(lo) && Same(m, n, First(lo), PageTop(g, lo)) {
      TidySame(g, m, n, lo, s);
    } else {
      TidyMild(g, m, lo, s);
      TidyPacked(g, m, n, lo);
    }
  }

  /** A completed turn of any log of mild records that fits leaves a tidy page with erased flash after it. */
  lemma TurnTidy(g: Geometry, m: seq<byte>, lo: nat, k: nat)
    requires IsFlash(g, m) && Active(g, m) == Some(lo) && Done(m, TurnPlan(g, m).ops, k, Chip(g))
    requires Fits(g, m, lo) && AllMild(PageScan(g, m, lo))
    ensures var n := Cut(m, TurnPlan(g, m).ops, k, Chip(g));
            && Tidy(g, n, Passive(g, lo), Moved(PageScan(g, m, lo), First(Passive(g, lo))))
            && View(g, n) == View(g, m)
  {
    hide Cut, Done, TurnPlan, PageScan, Fits, AllMild, Packed, Moved, Tidy, View;
    TurnSurvives(g, m, lo, k);
    SurvivesReads(g, m, lo, Cut(m, TurnPlan(g, m).ops, k, Chip(g)));
    TidyPacked(g, m, Cut(m, TurnPlan(g, m).ops, k, Chip(g)), lo);
  }

  /** A store whose active page is tidy. */
  ghost predicate Ready(g: Geometry, m: seq<byte>)
    requires IsFlash(g, m)
  {
    exists lo: nat, s: seq<Entry> :: Tidy(g, m, lo, s)
  }

  /** No step of a format is stopped by a check of the driver. */
  lemma FormatGoes(g: Geometry, m: seq<byte>) returns (b: seq<byte>, j: nat, k: nat)
    requires IsFlash(g, m)
    ensures Done(m, FormatPlan(g).ops, Total(FormatPlan(g).ops), Chip(g))
    ensures j >= g.pageLen && k >= MARK_LEN
    ensures b == Apply(m, Zero(g.pageLen, MARK_LEN), MARK_LEN)
    ensures Run(m, FormatPlan(g).ops, Chip(g)) == Apply(Apply(b, Erase(0, g.pageLen), j), Write(0, MARK), k)
  {
    hide Programmable, Cut, Done, Spent, Apply, Total, Takes, Accepts;
    FormatAccepts(g, m);
    var a := [Zero(g.pageLen, MARK_LEN)];
    var n := Total(FormatPlan(g).ops);
    CutOne(m, Zero(g.pageLen, MARK_LEN), n, Chip(g));
    CutTwo(m, a, Erase(0, g.pageLen), Write(0, MARK), n, Chip(g));
    j, k := n - Total(a), n - Total(a) - g.pageLen;
    ApplyMore(m, Zero(g.pageLen, MARK_LEN), n);
    b := Apply(m, Zero(g.pageLen, MARK_LEN), MARK_LEN);
    EraseTakes(b, 0, g.pageLen, Chip(g));
    ErasedStart(g, b, j);
    BlankTakes(g, Apply(b, Erase(0, g.pageLen), j));
  }

  lemma FormatAccepts(g: Geometry, m: seq<byte>)
    ensures Accepts(Zero(g.pageLen, MARK_LEN), Chip(g)) && Accepts(Erase(0, g.pageLen), Chip(g))
    ensures Accepts(Write(0, MARK), Chip(g)) && Takes(m, Zero(g.pageLen, MARK_LEN), Chip(g))
  {
  }

  lemma BlankTakes(g: Geometry, n: seq<byte>)
    requires IsFlash(g, n) && Blank(n, 0, MARK_LEN)
    ensures Takes(n, Write(0, MARK), Chip(g))
  {
    hide Programmable;
    BlankProgrammable(n, 0, MARK);
  }

  lemma ErasedStart(g: Geometry, b: seq<byte>, j: nat)
    requires IsFlash(g, b) && j >= g.pageLen
    ensures Blank(Apply(b, Erase(0, g.pageLen), j), 0, MARK_LEN)
  {
  }

  /** Formatting any flash content gives an empty tidy store, and zeros where the mark of page 2 would be. */
  lemma FormatReady(g: Geometry, m: seq<byte>)
    requires IsFlash(g, m)
    ensures var n := Run(m, FormatPlan(g).ops, Chip(g));
            && Done(m, FormatPlan(g).ops, Total(FormatPlan(g).ops), Chip(g))
            && Tidy(g, n, 0, []) && Ready(g, n) && View(g, n) == map[]
            && forall x :: g.pageLen <= x < g.pageLen + MARK_LEN ==> n[x] == 0
  {
    hide Tidy, View, Cut, Done, FormatPlan, Ready;
    var b, j, k := FormatGoes(g, m);
    FormatTidy(g, b, Run(m, FormatPlan(g).ops, Chip(g)), j, k);
    forall x | g.pageLen <= x < g.pageLen + MARK_LEN ensures b[x] == 0 { AndByte(m[x]); }
  }

  lemma FormatTidy(g: Geometry, m: seq<byte>, n: seq<byte>, j: nat, k: nat)
    requires IsFlash(g, m) && j >= g.pageLen && k >= MARK_LEN
    requires n == Apply(Apply(m, Erase(0, g.pageLen), j), Write(0, MARK), k)
    ensures Tidy(g, n, 0, []) && Ready(g, n) && View(g, n) == map[]
  {
    var e := Apply(m, Erase(0, g.pageLen), j);
    MarkWritten(e, 0, k);
    assert Tidy(g, n, 0, []);
    TidyScan(g, n, 0, []);
  }
}
