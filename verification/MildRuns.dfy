/**
 Runs about which nothing is assumed. With the ids that the interface leaves to users and mild values, the dead
 bytes a call leaves can never collide with a record; only what a power loss in an update tears can.
 */
module MildRuns {
  import opened Bytes
  import opened NorFlash
  import opened Records
  import opened Store
  import opened StoreSteps
  import opened Copies
  import opened StoreLaws
  import opened TurnLaws
  import opened TidyStore
  import opened TidyOps
  import opened Steady
  import opened Reads
  import opened Runs

  /**
   Whether the page is tidy: not after a power loss in anything but a turn, or after invalidating the last record,
   until a page turn reports success.
   */
  predicate CalmAfter(g: Geometry, m: seq<byte>, c: Cmd, calm: bool)
    requires IsFlash(g, m)
  {
    match c
    case CFormat => true
    case CTurn(_) => calm || Succeeds(g, m, c)
    case CTear(_, _, _) => false
    case CDrop(_, _) => false
    case CSearch(_, _) => false
    case CInvalidate(id) => calm && !HitsLast(g, m, id)
    case _ => calm
  }

  /** Commands that need no assumption: those on a tidy page, but for power losses and invalidating the last record. */
  predicate Gentle(g: Geometry, m: seq<byte>, calm: bool, c: Cmd)
    requires IsFlash(g, m)
  {
    calm && !c.CTear? && !c.CDrop? && !c.CSearch? && !(c.CInvalidate? && HitsLast(g, m, c.id))
  }

  /** User ids and mild values throughout; commands that are not gentle are admissible as they stand. */
  ghost predicate Allowed(g: Geometry, m: seq<byte>, clean: bool, calm: bool, c: Cmd)
    requires IsFlash(g, m)
  {
    && (c.CSet? || c.CTear? ==> c.id < USER_IDS && |c.data| <= 0xFFFF && Mild(c.data) && RoomOrRefused(g, m, c.data))
    && (Gentle(g, m, calm, c) || Admissible(g, m, clean, c))
  }

  ghost predicate MildState(g: Geometry, m: seq<byte>, clean: bool, calm: bool)
    requires IsFlash(g, m)
  {
    && Sound(g, m, clean) && AllMild(PageScan(g, m, Active(g, m).value))
    && (calm ==> clean && Ready(g, m))
  }

  /** A tidy page of records of the page before, and possibly the new one. */
  lemma TidyHarmless(g: Geometry, m: seq<byte>, n: seq<byte>, lo: nat, t: seq<Entry>, extra: Option<Entry>)
    requires IsFlash(g, m) && IsFlash(g, n) && lo <= g.pageLen && Tidy(g, n, lo, t)
    requires forall e :: e in t ==> e in PageScan(g, m, lo) || Some(e) == extra
    ensures Harmless(g, m, n, lo, extra) && Ready(g, n)
  {
    hide Tidy, PageScan, Fits;
    TidyScan(g, n, lo, t);
  }

  lemma GentleSearch(g: Geometry, m: seq<byte>, lo: nat, s: seq<Entry>, id: nat)
    requires IsFlash(g, m) && Tidy(g, m, lo, s)
    ensures var n := Run(m, RepairOps(s, id), Chip(g));
            lo <= g.pageLen && Harmless(g, m, n, lo, None) && Ready(g, n)
  {
    hide Tidy, PageScan, Fits, Cut, RepairOps, Total, Harmless, Ready;
    TidyActive(g, m, lo, s);
    TidyScan(g, m, lo, s);
    var t := TidySearch(g, m, lo, s, id, Total(RepairOps(s, id)));
    TidyHarmless(g, m, Run(m, RepairOps(s, id), Chip(g)), lo, t, None);
  }

  lemma GentleNothing(g: Geometry, m: seq<byte>, lo: nat, s: seq<Entry>)
    requires IsFlash(g, m) && Tidy(g, m, lo, s)
    ensures Run(m, [], Chip(g)) == m && lo <= g.pageLen && Harmless(g, m, m, lo, None)
  {
    hide Tidy, PageScan, Fits;
    TidyActive(g, m, lo, s);
    TidyScan(g, m, lo, s);
  }

  lemma HarmlessMore(g: Geometry, m: seq<byte>, n: seq<byte>, lo: nat, extra: Option<Entry>)
    requires IsFlash(g, m) && IsFlash(g, n) && lo <= g.pageLen && Harmless(g, m, n, lo, None)
    ensures Harmless(g, m, n, lo, extra)
  {
  }

  lemma GentleSet(g: Geometry, m: seq<byte>, lo: nat, s: seq<Entry>, id: nat, data: seq<byte>)
    requires IsFlash(g, m) && Tidy(g, m, lo, s) && id < USER_IDS && |data| <= 0xFFFF && Mild(data)
    requires RoomOrRefused(g, m, data)
    ensures var n := Run(m, SetPlan(g, m, id, data).ops, Chip(g));
            lo <= g.pageLen && Harmless(g, m, n, lo, Some(New(g, m, lo, id, data))) && Ready(g, n)
  {
    hide Tidy, PageScan, Fits, Cut, Done, RepairOps, Total, Harmless, Ready, SetPlan, Updates, Empty, RemSpace, HasRoom,
         Keep, View, Mild, Updated, RoomOrRefused;
    TidyActive(g, m, lo, s);
    TidyScan(g, m, lo, s);
    GentleSearch(g, m, lo, s, id);
    var plan := SetPlan(g, m, id, data);
    var extra := Some(New(g, m, lo, id, data));
    if !Updates(g, m, lo, id, data) {
      NoUpdate(g, m, lo, id, data);
      if plan.ops == [] {
        CutNone(m, 0, Chip(g));
        TidyHarmless(g, m, m, lo, s, extra);
      } else {
        HarmlessMore(g, m, Run(m, plan.ops, Chip(g)), lo, extra);
      }
    } else {
      UpdateRoom(g, m, lo, id, data);
      if forall e :: e in s && e !in Keep(s, id) ==> |e.data| <= 249 {
        TidySet(g, m, lo, s, id, data);
        UpdatedIn(g, m, lo, id, data);
        TidyHarmless(g, m, Run(m, plan.ops, Chip(g)), lo, Updated(g, m, lo, id, data), extra);
      } else {
        RefusedIsSearch(g, m, lo, id, data);
        HarmlessMore(g, m, Run(m, plan.ops, Chip(g)), lo, extra);
      }
    }
  }

  lemma UpdatedIn(g: Geometry, m: seq<byte>, lo: nat, id: nat, data: seq<byte>)
    requires IsFlash(g, m) && lo <= g.pageLen
    ensures forall e :: e in Updated(g, m, lo, id, data) ==>
              e in PageScan(g, m, lo) || Some(e) == Some(New(g, m, lo, id, data))
  {
    hide PageScan, Empty;
  }

  /** An update whose repairs are refused is the search alone. */
  lemma RefusedIsSearch(g: Geometry, m: seq<byte>, lo: nat, id: nat, data: seq<byte>)
    requires IsFlash(g, m) && Updates(g, m, lo, id, data)
    requires var s := PageScan(g, m, lo); exists e :: e in s && e !in Keep(s, id) && |e.data| > 249
    ensures Run(m, SetPlan(g, m, id, data).ops, Chip(g)) == Run(m, RepairOps(PageScan(g, m, lo), id), Chip(g))
  {
    hide Cut, Done, Spent, PageScan, RepairOps, Keep, Empty, Total, UpdateOps;
    var ops := RepairOps(PageScan(g, m, lo), id);
    var plan := SetPlan(g, m, id, data);
    var k := Total(plan.ops);
    SetTotals(g, m, lo, id, data);
    RepairGoes(g, m, lo, id, k);
    RepairGoes(g, m, lo, id, Total(ops));
    HaltsAt(m, ops, UpdateOps(g, Empty(g, m, lo), id, data, Last(PageScan(g, m, lo), id)), k, Chip(g));
    CutSame(m, ops, Total(ops), k, Chip(g));
  }

  /** Invalidating an id that is not that of the last record. */
  lemma GentleInvalidate(g: Geometry, m: seq<byte>, lo: nat, s: seq<Entry>, id: nat)
    requires IsFlash(g, m) && Tidy(g, m, lo, s) && !HitsLast(g, m, id)
    ensures var n := Run(m, InvalidatePlan(g, m, id).ops, Chip(g));
            lo <= g.pageLen && Harmless(g, m, n, lo, None) && Ready(g, n)
  {
    hide Tidy, PageScan, Fits, Cut, Done, RepairOps, Total, Harmless, Ready, Keep, Apply, Drop, Without;
    TidyActive(g, m, lo, s);
    TidyScan(g, m, lo, s);
    GentleSearch(g, m, lo, s, id);
    var plan := InvalidatePlan(g, m, id);
    var k := Total(plan.ops);
    var n := Run(m, plan.ops, Chip(g));
    InvalidateCases(g, m, lo, id, k);
    CutSearch(g, m, lo, id);
    if plan.verdict && Done(m, plan.ops, k, Chip(g)) {
      var t := KilledInner(g, m, lo, s, id, k);
      TidyHarmless(g, m, n, lo, t, None);
    }
  }

  lemma CutSearch(g: Geometry, m: seq<byte>, lo: nat, id: nat)
    requires IsFlash(g, m) && Active(g, m) == Some(lo)
    ensures var ops := RepairOps(PageScan(g, m, lo), id);
            var k := Total(InvalidatePlan(g, m, id).ops);
            Total(ops) <= k && Cut(m, ops, k, Chip(g)) == Run(m, ops, Chip(g))
  {
    hide PageScan, RepairOps, Cut, Done, Spent;
    var s := PageScan(g, m, lo);
    var p := Last(s, id);
    if p.Some? {
      CutSnoc(m, RepairOps(s, id), Zero(p.value.at, HEADER_LEN + |p.value.data|), 0, Chip(g));
    }
    CutSame(m, RepairOps(s, id), Total(InvalidatePlan(g, m, id).ops), Total(RepairOps(s, id)), Chip(g));
  }

  lemma KilledInner(g: Geometry, m: seq<byte>, lo: nat, s: seq<Entry>, id: nat, k: nat) returns (t: seq<Entry>)
    requires IsFlash(g, m) && Tidy(g, m, lo, s) && PageScan(g, m, lo) == s && Active(g, m) == Some(lo)
    requires InvalidatePlan(g, m, id).verdict && Done(m, InvalidatePlan(g, m, id).ops, k, Chip(g))
    requires s != [] && s[|s| - 1].id != id
    ensures Tidy(g, Cut(m, InvalidatePlan(g, m, id).ops, k, Chip(g)), lo, t) && forall e :: e in t ==> e in s
  {
    hide Tidy, PageScan, Cut, Done, RepairOps, Total, Keep, Apply, Drop, Spent, Takes, Accepts, Last, InvalidatePlan;
    var ops := RepairOps(s, id);
    KillShape(g, m, lo, id);
    var e := Last(s, id).value;
    var op := Zero(e.at, HEADER_LEN + |e.data|);
    CutSnoc(m, ops, op, k, Chip(g));
    var u := TidySearch(g, m, lo, s, id, k);
    var j := InnerCopy(s, id);
    ApplyMore(Cut(m, ops, k, Chip(g)), op, k - Total(ops));
    TidyKill(g, Cut(m, ops, k, Chip(g)), lo, u, j, Cost(op));
    t := Drop(u, j);
    DropIn(u, j);
  }

  lemma KillShape(g: Geometry, m: seq<byte>, lo: nat, id: nat)
    requires IsFlash(g, m) && Active(g, m) == Some(lo) && InvalidatePlan(g, m, id).verdict
    ensures Last(PageScan(g, m, lo), id).Some?
    ensures var e := Last(PageScan(g, m, lo), id).value;
            InvalidatePlan(g, m, id).ops == RepairOps(PageScan(g, m, lo), id) + [Zero(e.at, HEADER_LEN + |e.data|)]
  {
    hide PageScan, RepairOps, Last;
  }

  /** A copy of an id that is not that of the last record is not the last record. */
  lemma InnerCopy(s: seq<Entry>, id: nat) returns (j: nat)
    requires s != [] && s[|s| - 1].id != id && Last(s, id).Some?
    ensures j + 1 < |Keep(s, id)| && Keep(s, id)[j] == Last(s, id).value
  {
    hide Keep, Drop;
    j := KeepDrop(s, id);
    KeepEnd(s, id, 0);
  }

  lemma DropIn(u: seq<Entry>, j: nat)
    requires j < |u|
    ensures forall e :: e in Drop(u, j) ==> e in u
  {
  }

  lemma GentleTurn(g: Geometry, m: seq<byte>, lo: nat, s: seq<Entry>, k: nat)
    requires IsFlash(g, m) && Tidy(g, m, lo, s)
    ensures Ready(g, Cut(m, TurnPlan(g, m).ops, k, Chip(g)))
  {
    TidyTurn(g, m, lo, s, k);
  }

  /** A gentle command is admissible and leaves a tidy store. */
  lemma GentleStep(g: Geometry, m: seq<byte>, clean: bool, calm: bool, c: Cmd)
    requires IsFlash(g, m) && MildState(g, m, clean, calm) && Allowed(g, m, clean, calm, c) && Gentle(g, m, calm, c)
    ensures Admissible(g, m, clean, c) && Ready(g, Exec(g, m, c))
  {
    hide Tidy, PageScan, Fits, Cut, Harmless, SetPlan, TurnPlan, InvalidatePlan, FormatPlan, View, Sound, AllMild, Mild,
         NeedsTurn, HitsLast, RoomOrRefused, RepairOps;
    var lo, s :| Tidy(g, m, lo, s);
    TidyActive(g, m, lo, s);
    TidyScan(g, m, lo, s);
    match c
    case CFormat => FormatReady(g, m);
    case CSet(id, data) => GentleSet(g, m, lo, s, id, data);
    case CGet(id) =>
      GentleSearch(g, m, lo, s, id);
      GentleNothing(g, m, lo, s);
    case CInvalidate(id) => GentleInvalidate(g, m, lo, s, id);
    case CMaintain =>
      GentleSearch(g, m, lo, s, INVALID_ID);
      GentleTurn(g, m, lo, s, Total(TurnPlan(g, m).ops));
    case CTurn(k) => GentleTurn(g, m, lo, s, k);
    case _ =>
  }

  lemma ReadyMild(g: Geometry, m: seq<byte>)
    requires IsFlash(g, m) && Ready(g, m)
    ensures Active(g, m).Some? && AllMild(PageScan(g, m, Active(g, m).value))
  {
    hide Tidy, PageScan, AllMild;
    var lo, s :| Tidy(g, m, lo, s);
    TidyActive(g, m, lo, s);
    TidyScan(g, m, lo, s);
    TidyMild(g, m, lo, s);
  }

  /** Turning a page keeps its values. */
  lemma TurnMild(g: Geometry, m: seq<byte>, k: nat)
    requires IsFlash(g, m) && Readable(g, m) && AllMild(PageScan(g, m, Active(g, m).value))
    ensures var n := Cut(m, TurnPlan(g, m).ops, k, Chip(g));
            && Active(g, n).Some? && AllMild(PageScan(g, n, Active(g, n).value))
            && (Done(m, TurnPlan(g, m).ops, k, Chip(g)) ==> Ready(g, n))
  {
    hide Cut, Done, PageScan, Fits, View, Packed, TurnPlan, Mild, Moved, Tidy;
    var lo := Active(g, m).value;
    var n := Cut(m, TurnPlan(g, m).ops, k, Chip(g));
    TurnSurvives(g, m, lo, k);
    if Active(g, n) == Some(lo) && Same(m, n, First(lo), PageTop(g, lo)) {
      SamePage(g, m, n, lo);
    } else {
      TidyPacked(g, m, n, lo);
      ReadyMild(g, n);
    }
  }

  /** What is left on the page after any other admissible command. */
  lemma RoughStep(g: Geometry, m: seq<byte>, clean: bool, calm: bool, c: Cmd)
    requires IsFlash(g, m) && MildState(g, m, clean, calm) && Allowed(g, m, clean, calm, c) && Admissible(g, m, clean, c)
    ensures var n := Exec(g, m, c);
            && Active(g, n).Some? && AllMild(PageScan(g, n, Active(g, n).value))
            && (c.CFormat? || (c.CTurn? && Succeeds(g, m, c)) ==> Ready(g, n))
  {
    hide PageScan, Fits, Cut, Done, SetPlan, TurnPlan, InvalidatePlan, FormatPlan, View, Mild, NeedsTurn, HitsLast,
         RoomOrRefused, RepairOps, GetPlan, Empty, Tidy, Ready, Total, Erased;
    var n := Exec(g, m, c);
    StepSound(g, m, clean, c);
    match c
    case CFormat => FormatReady(g, m); ReadyMild(g, n);
    case CTurn(k) => TurnMild(g, m, k);
    case CMaintain =>
      if NeedsTurn(g, m) {
        TurnMild(g, m, Total(TurnPlan(g, m).ops));
      } else {
        SearchActive(g, m, INVALID_ID, Supply(g, m, c));
      }
    case CGet(id) =>
      SearchActive(g, m, id, Supply(g, m, c));
      CutNone(m, Supply(g, m, c), Chip(g));
    case CSearch(id, k) => SearchActive(g, m, id, k);
    case CInvalidate(id) => InvalidateActive(g, m, id, Supply(g, m, c));
    case CDrop(id, k) => InvalidateActive(g, m, id, k);
    case CSet(id, data) => SetActive(g, m, id, data, Supply(g, m, c));
    case CTear(id, data, k) => SetActive(g, m, id, data, k);
  }

  lemma SearchActive(g: Geometry, m: seq<byte>, id: nat, k: nat)
    requires IsFlash(g, m)
    ensures Active(g, m).Some? ==> Active(g, Cut(m, GetPlan(g, m, id).ops, k, Chip(g))) == Active(g, m)
  {
    hide PageScan, RepairOps, Cut;
    if Active(g, m).Some? {
      RepairAll(g, m, Active(g, m).value, id, k);
    }
  }

  lemma SetActive(g: Geometry, m: seq<byte>, id: nat, data: seq<byte>, k: nat)
    requires IsFlash(g, m) && id <= 0xFFFF && |data| <= 0xFFFF
    ensures Active(g, m).Some? ==> Active(g, Cut(m, SetPlan(g, m, id, data).ops, k, Chip(g))) == Active(g, m)
  {
    hide PageScan, RepairOps, Cut, SetPlan, Updates, Empty;
    if Active(g, m).Some? {
      var lo := Active(g, m).value;
      if Updates(g, m, lo, id, data) {
        UpdateActive(g, m, lo, id, data, k);
      } else {
        NoUpdate(g, m, lo, id, data);
        CutNone(m, k, Chip(g));
        RepairAll(g, m, lo, id, k);
      }
    }
  }

  lemma InvalidateActive(g: Geometry, m: seq<byte>, id: nat, k: nat)
    requires IsFlash(g, m)
    ensures Active(g, m).Some? ==> Active(g, Cut(m, InvalidatePlan(g, m, id).ops, k, Chip(g))) == Active(g, m)
  {
    hide PageScan, RepairOps, Cut, Empty;
    if Active(g, m).Some? {
      var lo := Active(g, m).value;
      if Last(PageScan(g, m, lo), id).Some? {
        InvalidateFrame(g, m, lo, id, k);
      } else {
        RepairAll(g, m, lo, id, k);
      }
    }
  }

  /** One allowed command. */
  lemma MildStep(g: Geometry, m: seq<byte>, clean: bool, calm: bool, c: Cmd)
    requires IsFlash(g, m) && MildState(g, m, clean, calm) && Allowed(g, m, clean, calm, c)
    ensures Admissible(g, m, clean, c)
    ensures MildState(g, Exec(g, m, c), CleanAfter(g, m, c, clean), CalmAfter(g, m, c, calm))
  {
    hide PageScan, View, Mild, Exec, Admissible, AllMild, Ready, Sound, HitsLast, Succeeds, RoomOrRefused;
    if Gentle(g, m, calm, c) {
      GentleStep(g, m, clean, calm, c);
    }
    StepSound(g, m, clean, c);
    RoughStep(g, m, clean, calm, c);
  }

  ghost predicate AllAllowed(g: Geometry, m: seq<byte>, clean: bool, calm: bool, cs: seq<Cmd>)
    requires IsFlash(g, m)
    decreases |cs|
  {
    cs != [] ==>
      var c := cs[0];
      Allowed(g, m, clean, calm, c) &&
      AllAllowed(g, Exec(g, m, c), CleanAfter(g, m, c, clean), CalmAfter(g, m, c, calm), cs[1..])
  }

  lemma {:induction false} AllowedRun(g: Geometry, m: seq<byte>, clean: bool, calm: bool, cs: seq<Cmd>)
    requires IsFlash(g, m) && MildState(g, m, clean, calm) && AllAllowed(g, m, clean, calm, cs)
    ensures AllAdmissible(g, m, clean, cs)
    decreases |cs|
  {
    hide MildState, Allowed, Exec, CleanAfter, CalmAfter, Admissible;
    if cs != [] {
      MildStep(g, m, clean, calm, cs[0]);
      AllowedRun(g, Exec(g, m, cs[0]), CleanAfter(g, m, cs[0], clean), CalmAfter(g, m, cs[0], calm), cs[1..]);
    }
  }

  /**
   Every run of mild values from a format. The general result holds with nothing assumed of dead flash, but for
   what follows a power loss in an update until the next page turn.
   */
  lemma FreshRun(g: Geometry, m: seq<byte>, cs: seq<Cmd>)
    requires IsFlash(g, m) && AllAllowed(g, Exec(g, m, CFormat), true, true, cs)
    ensures var n := ExecAll(g, m, [CFormat] + cs);
            var v := BelievedAll(g, Exec(g, m, CFormat), map[], cs);
            && Sound(g, n, CleanAll(g, Exec(g, m, CFormat), true, cs))
            && Matches(g, n, v) && forall id: nat :: Sees(g, n, CGet(id)) == Sight(id in v, Lookup(v, id))
  {
    hide Exec, Matches, Sees, AllMild, AllAllowed, AllAdmissible, ExecAll, Sound, Ready, PageScan, BelievedAll, CleanAll;
    FormatMild(g, m);
    AllowedRun(g, Exec(g, m, CFormat), true, true, cs);
    RunFromFormat(g, m, cs);
  }

  lemma FormatMild(g: Geometry, m: seq<byte>)
    requires IsFlash(g, m)
    ensures MildState(g, Exec(g, m, CFormat), true, true)
  {
    hide PageScan, View, AllMild, Sound, Tidy, Ready, FormatPlan, Cut;
    FormatRefines(g, m);
    FormatReady(g, m);
    ReadyMild(g, Exec(g, m, CFormat));
  }
}
