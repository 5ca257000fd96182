/**
 Whole runs. Any sequence of store calls, with any ids and values, in which every call but a format may be cut by
 power loss after any byte, starting from any flash content that is formatted first: what `mm_get` returns for
 every id is what a plain map says that is driven by what the caller sees. Of dead flash it is assumed that no
 call leaves a page on which dead or torn bytes collide with a record.
 */
module Runs {
  import opened Bytes
  import opened NorFlash
  import opened Records
  import opened Store
  import opened StoreSteps
  import opened Copies
  import opened StoreLaws
  import opened TurnLaws
  import opened TidyStore
  import opened TidyOps
  import opened Steady
  import opened Reads

  datatype Cmd =
    | CFormat
    | CSet(id: nat, data: seq<byte>)
    | CGet(id: nat)
    | CInvalidate(id: nat)
    | CMaintain
    /** A page turn whose supply may run out. */
    | CTurn(supply: nat)
    /** A search, of a read or of maintenance, whose supply may run out. */
    | CSearch(id: nat, supply: nat)
    /** An update whose supply may run out, and a read of the id afterwards. */
    | CTear(id: nat, data: seq<byte>, supply: nat)
    /** An invalidation whose supply may run out, and a read of the id afterwards. */
    | CDrop(id: nat, supply: nat)

  function PlanOf(g: Geometry, m: seq<byte>, c: Cmd): Plan
    requires IsFlash(g, m)
  {
    match c
    case CFormat => FormatPlan(g)
    case CSet(id, data) => SetPlan(g, m, id, data)
    case CGet(id) => if id == INVALID_ID then Plan([], false) else GetPlan(g, m, id)
    case CInvalidate(id) => InvalidatePlan(g, m, id)
    case CMaintain => MaintainPlan(g, m)
    case CTurn(_) => TurnPlan(g, m)
    case CSearch(id, _) => GetPlan(g, m, id)
    case CTear(id, data, _) => SetPlan(g, m, id, data)
    case CDrop(id, _) => InvalidatePlan(g, m, id)
  }

  /** Commands that power loss may cut; the others are carried out, or stopped by a check of the driver. */
  predicate Cuttable(c: Cmd) { c.CTurn? || c.CSearch? || c.CTear? || c.CDrop? }

  function Supply(g: Geometry, m: seq<byte>, c: Cmd): nat
    requires IsFlash(g, m)
  {
    if Cuttable(c) then c.supply else Total(PlanOf(g, m, c).ops)
  }

  /** The flash after the command. */
  function Exec(g: Geometry, m: seq<byte>, c: Cmd): (n: seq<byte>)
    requires IsFlash(g, m)
    ensures IsFlash(g, n)
  {
    Cut(m, PlanOf(g, m, c).ops, Supply(g, m, c), Chip(g))
  }

  /** The result that the call reports, if the supply lasts. */
  predicate Succeeds(g: Geometry, m: seq<byte>, c: Cmd)
    requires IsFlash(g, m)
  {
    PlanOf(g, m, c).verdict && Done(m, PlanOf(g, m, c).ops, Supply(g, m, c), Chip(g))
  }

  /**
   What the caller sees: a result, and a value that is read, by the call itself or after power was lost. The read
   after a power loss is a search like any other, and may be a command of its own; it changes nothing that is read.
   */
  datatype Sight = Sight(ok: bool, read: Option<seq<byte>>)

  function Sees(g: Geometry, m: seq<byte>, c: Cmd): Sight
    requires IsFlash(g, m)
  {
    match c
    case CGet(id) => Sight(Succeeds(g, m, c), ReadBack(g, m, id))
    case CSearch(_, _) => Sight(false, None)
    case CTear(id, _, _) => Sight(false, ReadBack(g, Exec(g, m, c), id))
    case CDrop(id, _) => Sight(false, ReadBack(g, Exec(g, m, c), id))
    case _ => Sight(Succeeds(g, m, c), None)
  }

  /** The id is that of the last record of the log. */
  predicate HitsLast(g: Geometry, m: seq<byte>, id: nat)
    requires IsFlash(g, m)
  {
    Active(g, m).Some? && var s := PageScan(g, m, Active(g, m).value); s != [] && s[|s| - 1].id == id
  }

  /**
   Whether the caller may go on to store. It may not after invalidating the last record, nor after a power loss
   in an update whose value is not read afterwards; a page turn that reports success makes up for both.
   */
  predicate CleanAfter(g: Geometry, m: seq<byte>, c: Cmd, clean: bool)
    requires IsFlash(g, m)
  {
    match c
    case CFormat => true
    case CTurn(_) => clean || Succeeds(g, m, c)
    case CTear(_, data, _) => clean && Sees(g, m, c).read == Some(data)
    case CInvalidate(id) => clean && (Succeeds(g, m, c) ==> !HitsLast(g, m, id))
    case CDrop(id, _) => clean && !HitsLast(g, m, id)
    case _ => clean
  }

  /** The value is too long for the code's own space test, or leaves room for its header. */
  predicate RoomOrRefused(g: Geometry, m: seq<byte>, data: seq<byte>)
    requires IsFlash(g, m)
  {
    Active(g, m).Some? ==>
      var lo := Active(g, m).value;
      lo <= Empty(g, m, lo) && RemSpace(g, lo, Empty(g, m, lo)) >= |data| ==> HasRoom(g, lo, Empty(g, m, lo), |data|)
  }

  /** The call leaves a page on which nothing collides with a record. */
  ghost predicate Collides(g: Geometry, m: seq<byte>, c: Cmd)
    requires IsFlash(g, m)
  {
    Active(g, m).Some? &&
    var lo := Active(g, m).value;
    !Harmless(g, m, Exec(g, m, c), lo, if c.CSet? || c.CTear? then Some(New(g, m, lo, c.id, c.data)) else None)
  }

  /** What a caller has to respect, and what is assumed of dead flash. */
  ghost predicate Admissible(g: Geometry, m: seq<byte>, clean: bool, c: Cmd)
    requires IsFlash(g, m)
  {
    match c
    case CFormat => true
    case CTurn(_) => true
    case CMaintain => NeedsTurn(g, m) || !Collides(g, m, c)
    case CGet(_) => !Collides(g, m, c)
    case CSearch(_, _) => !Collides(g, m, c)
    case CInvalidate(_) => !Collides(g, m, c)
    case CDrop(_, _) => !Collides(g, m, c)
    case CSet(id, data) => clean && id <= 0xFFFF && |data| <= 0xFFFF && RoomOrRefused(g, m, data) && !Collides(g, m, c)
    case CTear(id, data, _) => clean && id <= 0xFFFF && |data| <= 0xFFFF && RoomOrRefused(g, m, data) && !Collides(g, m, c)
  }

  /** What a caller should believe after a command, from what it sees. */
  function Believed(v: map<nat, seq<byte>>, c: Cmd, sight: Sight): map<nat, seq<byte>> {
    match c
    case CFormat => map[]
    case CSet(id, data) => if sight.ok then v[id := data] else v
    case CInvalidate(id) => if sight.ok then v - {id} else v
    case CTear(id, _, _) => Learned(v, id, sight.read)
    case CDrop(id, _) => Learned(v, id, sight.read)
    case _ => v
  }

  function Learned(v: map<nat, seq<byte>>, id: nat, read: Option<seq<byte>>): map<nat, seq<byte>> {
    match read case Some(data) => v[id := data] case None => v - {id}
  }

  /** Every read returns what the map says. */
  ghost predicate Matches(g: Geometry, m: seq<byte>, v: map<nat, seq<byte>>)
    requires IsFlash(g, m)
  {
    forall id: nat :: ReadBack(g, m, id) == Lookup(v, id)
  }

  /** Every read returns what it would have before. */
  ghost predicate AllAlike(g: Geometry, m: seq<byte>, n: seq<byte>)
    requires IsFlash(g, m) && IsFlash(g, n)
  {
    forall id: nat :: Alike(g, m, n, id)
  }

  /** Every other id reads as before. */
  ghost predicate OthersAlike(g: Geometry, m: seq<byte>, n: seq<byte>, id: nat)
    requires IsFlash(g, m) && IsFlash(g, n)
  {
    forall j: nat :: j != id ==> Alike(g, m, n, j)
  }

  /** The store can be read, and if it is clean it can be stored to. */
  ghost predicate Sound(g: Geometry, m: seq<byte>, clean: bool)
    requires IsFlash(g, m)
  {
    Readable(g, m) && (clean ==> Erased(g, m))
  }

  /** A call that did nothing but search. */
  lemma SearchRefines(g: Geometry, m: seq<byte>, lo: nat, id: nat, k: nat, n: seq<byte>, clean: bool)
    requires IsFlash(g, m) && Sound(g, m, clean) && Active(g, m) == Some(lo)
    requires n == Cut(m, RepairOps(PageScan(g, m, lo), id), k, Chip(g)) && Harmless(g, m, n, lo, None)
    ensures Sound(g, n, clean) && View(g, n) == View(g, m) && AllAlike(g, m, n)
  {
    hide Cut, PageScan, RepairOps, View, Fits, NoPhantom, Readable, Erased, Alike;
    SearchAtomic(g, m, lo, id, k);
    SteadyKept(g, m, n, lo);
    SearchReads(g, m, lo, id, k);
  }

  /** A call that does not go on to write only searches. */
  lemma NoUpdate(g: Geometry, m: seq<byte>, lo: nat, id: nat, data: seq<byte>)
    requires IsFlash(g, m) && Active(g, m) == Some(lo) && !Updates(g, m, lo, id, data) && id <= 0xFFFF && |data| <= 0xFFFF
    ensures SetPlan(g, m, id, data).ops == [] || SetPlan(g, m, id, data).ops == RepairOps(PageScan(g, m, lo), id)
    ensures SetPlan(g, m, id, data).verdict ==>
              && id < INVALID_ID && id in View(g, m) && View(g, m)[id] == data
              && SetPlan(g, m, id, data) == GetPlan(g, m, id)
  {
    hide PageScan, RepairOps, MapOf, Last;
    EmptyAbove(g, m, lo);
    LastIsMap(PageScan(g, m, lo), id);
  }

  lemma IdleRefines(g: Geometry, m: seq<byte>, c: Cmd)
    requires IsFlash(g, m) && PlanOf(g, m, c).ops == []
    ensures Exec(g, m, c) == m && AllAlike(g, m, m)
  {
    CutNone(m, Supply(g, m, c), Chip(g));
  }

  /** A value that the call goes on to store is not the one that is read. */
  lemma UpdateDiffers(g: Geometry, m: seq<byte>, lo: nat, id: nat, data: seq<byte>)
    requires IsFlash(g, m) && Updates(g, m, lo, id, data)
    ensures id in View(g, m) ==> View(g, m)[id] != data
    ensures ReadBack(g, m, id) != Some(data)
    ensures SetPlan(g, m, id, data).verdict
  {
    hide PageScan, MapOf, Last, RepairOps, UpdateOps;
    LastIsMap(PageScan(g, m, lo), id);
  }

  lemma ReadableActive(g: Geometry, m: seq<byte>)
    requires IsFlash(g, m) && Readable(g, m)
    ensures Active(g, m).Some?
  {
  }

  lemma UpdateRoom(g: Geometry, m: seq<byte>, lo: nat, id: nat, data: seq<byte>)
    requires IsFlash(g, m) && Updates(g, m, lo, id, data) && RoomOrRefused(g, m, data)
    ensures HasRoom(g, lo, Empty(g, m, lo), |data|)
  {
  }

  /** A search reports no record beyond the end of the log. */
  lemma OldOnly(g: Geometry, m: seq<byte>, n: seq<byte>, lo: nat, id: nat, data: seq<byte>, k: nat)
    requires IsFlash(g, m) && Active(g, m) == Some(lo) && First(lo) <= Empty(g, m, lo)
    requires n == Cut(m, RepairOps(PageScan(g, m, lo), id), k, Chip(g))
    requires Harmless(g, m, n, lo, Some(New(g, m, lo, id, data)))
    ensures Harmless(g, m, n, lo, None)
  {
    hide Cut, PageScan, RepairOps, Fits, Empty;
    RepairAll(g, m, lo, id, k);
    NotYet(g, m, n, lo, id, data);
  }

  /** A store call that does not go on to write, cut anywhere. */
  lemma IdleSet(g: Geometry, m: seq<byte>, lo: nat, clean: bool, c: Cmd)
    requires IsFlash(g, m) && Sound(g, m, clean) && Admissible(g, m, clean, c) && (c.CSet? || c.CTear?)
    requires Active(g, m) == Some(lo) && !Updates(g, m, lo, c.id, c.data)
    ensures Sound(g, Exec(g, m, c), clean) && AllAlike(g, m, Exec(g, m, c))
    ensures c.CSet? && Succeeds(g, m, c) ==> ReadBack(g, m, c.id) == Some(c.data)
  {
    hide Cut, Done, PageScan, RepairOps, View, Fits, NoPhantom, Readable, Erased, SetPlan, Updates, RemSpace, Total,
         HasRoom, HitsLast, NeedsTurn, AllAlike, GetPlan;
    NoUpdate(g, m, lo, c.id, c.data);
    if SetPlan(g, m, c.id, c.data).ops == [] {
      IdleRefines(g, m, c);
    } else {
      EmptyAbove(g, m, lo);
      OldOnly(g, m, Exec(g, m, c), lo, c.id, c.data, Supply(g, m, c));
      SearchRefines(g, m, lo, c.id, Supply(g, m, c), Exec(g, m, c), clean);
    }
  }

  lemma SteadyProper(g: Geometry, m: seq<byte>, lo: nat, id: nat, data: seq<byte>)
    requires IsFlash(g, m) && Erased(g, m) && Updates(g, m, lo, id, data) && RoomOrRefused(g, m, data)
    ensures HasRoom(g, lo, Empty(g, m, lo), |data|) && Proper(g, m, lo, id, data)
  {
    hide PageScan, Empty, Erased, Encode, Programmable;
    UpdateRoom(g, m, lo, id, data);
    ErasedTakes(g, m, lo, id, data);
  }

  /** A store call, cut anywhere. */
  lemma WritingSet(g: Geometry, m: seq<byte>, lo: nat, c: Cmd)
    requires IsFlash(g, m) && Sound(g, m, true) && Admissible(g, m, true, c) && (c.CSet? || c.CTear?)
    requires Updates(g, m, lo, c.id, c.data)
    ensures Sound(g, Exec(g, m, c), CleanAfter(g, m, c, true)) && OthersAlike(g, m, Exec(g, m, c), c.id)
    ensures c.CSet? && Succeeds(g, m, c) ==> ReadBack(g, Exec(g, m, c), c.id) == Some(c.data)
    ensures c.CSet? && !Succeeds(g, m, c) ==> Alike(g, m, Exec(g, m, c), c.id)
  {
    hide Cut, Done, PageScan, View, Fits, NoPhantom, Readable, Erased, SetPlan, Empty, RemSpace, Total, HasRoom, HitsLast,
         NeedsTurn, RoomOrRefused, Proper, ReadBack, Stuck, BothFound, Last;
    var k := Supply(g, m, c);
    SteadyProper(g, m, lo, c.id, c.data);
    SetSteady(g, m, lo, c.id, c.data, k);
    UpdateDiffers(g, m, lo, c.id, c.data);
    SetReads(g, m, lo, c.id, c.data, k);
  }

  lemma AlikeMatches(g: Geometry, m: seq<byte>, n: seq<byte>, v: map<nat, seq<byte>>)
    requires IsFlash(g, m) && IsFlash(g, n) && Matches(g, m, v) && AllAlike(g, m, n)
    ensures Matches(g, n, v)
  {
    hide ReadBack, Stuck;
    forall id: nat ensures ReadBack(g, n, id) == Lookup(v, id) {
      assert Alike(g, m, n, id);
    }
  }

  lemma AlikeOthers(g: Geometry, m: seq<byte>, n: seq<byte>, id: nat)
    requires IsFlash(g, m) && IsFlash(g, n) && AllAlike(g, m, n)
    ensures OthersAlike(g, m, n, id) && ReadBack(g, n, id) == ReadBack(g, m, id)
  {
    hide ReadBack, Stuck;
    assert Alike(g, m, n, id);
  }

  lemma MatchesAt(g: Geometry, m: seq<byte>, v: map<nat, seq<byte>>, id: nat)
    requires IsFlash(g, m) && Matches(g, m, v)
    ensures ReadBack(g, m, id) == Lookup(v, id)
  {
  }

  /** Only one id reads differently. */
  lemma OneMatches(g: Geometry, m: seq<byte>, n: seq<byte>, v: map<nat, seq<byte>>, w: map<nat, seq<byte>>, id: nat)
    requires IsFlash(g, m) && IsFlash(g, n) && Matches(g, m, v) && OthersAlike(g, m, n, id)
    requires w - {id} == v - {id} && ReadBack(g, n, id) == Lookup(w, id)
    ensures Matches(g, n, w)
  {
    hide ReadBack, Stuck;
    forall j: nat ensures ReadBack(g, n, j) == Lookup(w, j) {
      if j != id {
        assert Alike(g, m, n, j);
        assert j in w <==> j in w - {id};
        assert j in v <==> j in v - {id};
        assert j in v ==> (v - {id})[j] == v[j];
        assert j in w ==> (w - {id})[j] == w[j];
      }
    }
  }

  lemma SetRefines(g: Geometry, m: seq<byte>, clean: bool, c: Cmd, v: map<nat, seq<byte>>)
    requires IsFlash(g, m) && Sound(g, m, clean) && Admissible(g, m, clean, c) && (c.CSet? || c.CTear?) && Matches(g, m, v)
    ensures Sound(g, Exec(g, m, c), CleanAfter(g, m, c, clean))
    ensures Matches(g, Exec(g, m, c), Believed(v, c, Sees(g, m, c)))
  {
    hide Readable, Erased, Updates, ReadBack, Stuck, Exec, Succeeds, Harmless, RoomOrRefused, HitsLast, Matches, OthersAlike;
    ReadableActive(g, m);
    var lo := Active(g, m).value;
    if Updates(g, m, lo, c.id, c.data) {
      WritingSet(g, m, lo, c);
    } else {
      IdleSet(g, m, lo, clean, c);
      AlikeOthers(g, m, Exec(g, m, c), c.id);
    }
    MatchesAt(g, m, v, c.id);
    OneMatches(g, m, Exec(g, m, c), v, Believed(v, c, Sees(g, m, c)), c.id);
  }

  /** An invalidation, cut anywhere, leaves a page that can be read, and its end where it was if that is of another id. */
  lemma InvalidateSound(g: Geometry, m: seq<byte>, lo: nat, id: nat, k: nat, clean: bool)
    requires IsFlash(g, m) && Sound(g, m, clean) && Active(g, m) == Some(lo)
    requires Harmless(g, m, Cut(m, InvalidatePlan(g, m, id).ops, k, Chip(g)), lo, None)
    ensures Sound(g, Cut(m, InvalidatePlan(g, m, id).ops, k, Chip(g)), clean && !HitsLast(g, m, id))
  {
    hide Cut, PageScan, RepairOps, View, Fits, NoPhantom, Erased, Empty, Last;
    var n := Cut(m, InvalidatePlan(g, m, id).ops, k, Chip(g));
    if Last(PageScan(g, m, lo), id).None? {
      SearchRefines(g, m, lo, id, k, n, clean);
    } else {
      InvalidateFrame(g, m, lo, id, k);
      if !HitsLast(g, m, id) {
        SomeLast(g, m, lo, id);
        InvalidateEnd(g, m, lo, id, k);
        SteadyKept(g, m, n, lo);
      }
    }
  }

  lemma SomeLast(g: Geometry, m: seq<byte>, lo: nat, id: nat)
    requires IsFlash(g, m) && lo <= g.pageLen && Last(PageScan(g, m, lo), id).Some?
    ensures PageScan(g, m, lo) != []
  {
  }

  /** An invalidation that is not completed only searched. */
  lemma InvalidateCases(g: Geometry, m: seq<byte>, lo: nat, id: nat, k: nat)
    requires IsFlash(g, m) && Active(g, m) == Some(lo)
    ensures var p := InvalidatePlan(g, m, id);
            && (p.verdict <==> Last(PageScan(g, m, lo), id).Some?)
            && (k == Total(p.ops) && !(p.verdict && Done(m, p.ops, k, Chip(g))) ==>
                  Cut(m, p.ops, k, Chip(g)) == Cut(m, RepairOps(PageScan(g, m, lo), id), k, Chip(g)))
  {
    hide Cut, Done, PageScan, RepairOps, Spent;
    var s := PageScan(g, m, lo);
    if Last(s, id).Some? {
      var e := Last(s, id).value;
      CutSnoc(m, RepairOps(s, id), Zero(e.at, HEADER_LEN + |e.data|), k, Chip(g));
    }
  }

  lemma InvalidateRefines(g: Geometry, m: seq<byte>, clean: bool, c: Cmd, v: map<nat, seq<byte>>)
    requires IsFlash(g, m) && Sound(g, m, clean) && Admissible(g, m, clean, c) && (c.CInvalidate? || c.CDrop?)
    requires Matches(g, m, v)
    ensures Sound(g, Exec(g, m, c), CleanAfter(g, m, c, clean))
    ensures Matches(g, Exec(g, m, c), Believed(v, c, Sees(g, m, c)))
  {
    hide Cut, Done, PageScan, RepairOps, View, Fits, NoPhantom, Readable, Erased, InvalidatePlan, Empty, Total, ReadBack, Stuck,
         HitsLast, Matches;
    ReadableActive(g, m);
    var lo := Active(g, m).value;
    var k := Supply(g, m, c);
    if c.CInvalidate? && !Succeeds(g, m, c) {
      InvalidateCases(g, m, lo, c.id, k);
      SearchRefines(g, m, lo, c.id, k, Exec(g, m, c), clean);
      AlikeOthers(g, m, Exec(g, m, c), c.id);
    } else {
      InvalidateSound(g, m, lo, c.id, k, clean);
      InvalidateReads(g, m, lo, c.id, k);
    }
    MatchesAt(g, m, v, c.id);
    OneMatches(g, m, Exec(g, m, c), v, Believed(v, c, Sees(g, m, c)), c.id);
  }

  lemma TurnRefines(g: Geometry, m: seq<byte>, clean: bool, k: nat)
    requires IsFlash(g, m) && Sound(g, m, clean)
    ensures var n := Cut(m, TurnPlan(g, m).ops, k, Chip(g));
            Sound(g, n, clean || Done(m, TurnPlan(g, m).ops, k, Chip(g))) && AllAlike(g, m, n)
  {
    hide Cut, Done, PageScan, View, Fits, Erased, TurnPlan, Alike;
    TurnSteady(g, m, k);
    TurnReads(g, m, Active(g, m).value, k);
  }

  lemma MaintainRefines(g: Geometry, m: seq<byte>, clean: bool)
    requires IsFlash(g, m) && Sound(g, m, clean) && Admissible(g, m, clean, CMaintain)
    ensures Sound(g, Exec(g, m, CMaintain), clean) && AllAlike(g, m, Exec(g, m, CMaintain))
  {
    hide Cut, Done, PageScan, RepairOps, View, Fits, NoPhantom, Readable, Erased, TurnPlan, Total, NeedsTurn, AllAlike;
    ReadableActive(g, m);
    var lo := Active(g, m).value;
    if NeedsTurn(g, m) {
      TurnRefines(g, m, clean, Total(TurnPlan(g, m).ops));
    } else {
      SearchRefines(g, m, lo, INVALID_ID, Supply(g, m, CMaintain), Exec(g, m, CMaintain), clean);
    }
  }

  lemma FormatRefines(g: Geometry, m: seq<byte>)
    requires IsFlash(g, m)
    ensures Sound(g, Exec(g, m, CFormat), true) && Matches(g, Exec(g, m, CFormat), map[])
  {
    hide Cut, Tidy, Fits, View, PageScan, FormatPlan, ReadBack;
    FormatReady(g, m);
    var n := Exec(g, m, CFormat);
    TidyActive(g, n, 0, []);
    TidyScan(g, n, 0, []);
    TidyBlank(g, n, 0, []);
    EmptyReads(g, n);
  }

  lemma LookRefines(g: Geometry, m: seq<byte>, clean: bool, c: Cmd)
    requires IsFlash(g, m) && Sound(g, m, clean) && Admissible(g, m, clean, c) && (c.CGet? || c.CSearch?)
    ensures Sound(g, Exec(g, m, c), clean) && AllAlike(g, m, Exec(g, m, c))
  {
    hide Cut, Done, PageScan, RepairOps, View, Fits, NoPhantom, Readable, Erased, Total, AllAlike;
    ReadableActive(g, m);
    if PlanOf(g, m, c).ops == [] {
      IdleRefines(g, m, c);
    } else {
      SearchRefines(g, m, Active(g, m).value, c.id, Supply(g, m, c), Exec(g, m, c), clean);
    }
  }

  /** One command: the store stays sound, and every read returns what the caller believes. */
  lemma StepRefines(g: Geometry, m: seq<byte>, clean: bool, c: Cmd, v: map<nat, seq<byte>>)
    requires IsFlash(g, m) && Sound(g, m, clean) && Admissible(g, m, clean, c) && Matches(g, m, v)
    ensures Sound(g, Exec(g, m, c), CleanAfter(g, m, c, clean))
    ensures Matches(g, Exec(g, m, c), Believed(v, c, Sees(g, m, c)))
  {
    hide Matches, AllAlike, Sound, Cut, Done, TurnPlan, Total;
    match c
    case CFormat => FormatRefines(g, m);
    case CSet(_, _) => SetRefines(g, m, clean, c, v);
    case CTear(_, _, _) => SetRefines(g, m, clean, c, v);
    case CInvalidate(_) => InvalidateRefines(g, m, clean, c, v);
    case CDrop(_, _) => InvalidateRefines(g, m, clean, c, v);
    case CMaintain =>
      MaintainRefines(g, m, clean);
      AlikeMatches(g, m, Exec(g, m, c), v);
    case CTurn(k) =>
      TurnRefines(g, m, clean, k);
      TurnWanted(g, m, clean);
      AlikeMatches(g, m, Exec(g, m, c), v);
    case CGet(_) =>
      LookRefines(g, m, clean, c);
      AlikeMatches(g, m, Exec(g, m, c), v);
    case CSearch(_, _) =>
      LookRefines(g, m, clean, c);
      AlikeMatches(g, m, Exec(g, m, c), v);
  }

  lemma TurnWanted(g: Geometry, m: seq<byte>, clean: bool)
    requires IsFlash(g, m) && Sound(g, m, clean)
    ensures TurnPlan(g, m).verdict
  {
  }

  /** All that can be read. */
  function Readout(g: Geometry, m: seq<byte>): map<nat, seq<byte>>
    requires IsFlash(g, m)
  {
    map id | id in View(g, m) && ReadBack(g, m, id).Some? :: ReadBack(g, m, id).value
  }

  lemma ReadoutMatches(g: Geometry, m: seq<byte>)
    requires IsFlash(g, m)
    ensures Matches(g, m, Readout(g, m))
  {
    hide View, Done, GetPlan;
  }

  lemma StepSound(g: Geometry, m: seq<byte>, clean: bool, c: Cmd)
    requires IsFlash(g, m) && Sound(g, m, clean) && Admissible(g, m, clean, c)
    ensures Sound(g, Exec(g, m, c), CleanAfter(g, m, c, clean))
  {
    hide Sound, Matches, Exec, CleanAfter, Admissible, Readout;
    ReadoutMatches(g, m);
    StepRefines(g, m, clean, c, Readout(g, m));
  }

  /** What a call may make of the map: a call that loses power does what it would have done, or nothing. */
  predicate MapStep(v: map<nat, seq<byte>>, c: Cmd, w: map<nat, seq<byte>>) {
    match c
    case CFormat => w == map[]
    case CSet(id, data) => w == v || w == v[id := data]
    case CTear(id, data, _) => w == v || w == v[id := data]
    case CInvalidate(id) => w == v || w == v - {id}
    case CDrop(id, _) => w == v || w == v - {id}
    case _ => w == v
  }

  /** No update is cut while a value of more than 249 bytes is read of its id. */
  predicate ShortTorn(v: map<nat, seq<byte>>, c: Cmd) {
    c.CTear? && c.id in v ==> |v[c.id]| <= SHORT
  }

  lemma TearShows(g: Geometry, m: seq<byte>, c: Cmd, v: map<nat, seq<byte>>)
    requires IsFlash(g, m) && Sound(g, m, true) && Admissible(g, m, true, c) && c.CTear? && Matches(g, m, v) && ShortTorn(v, c)
    ensures var r := Sees(g, m, c).read; r == Lookup(v, c.id) || r == Some(c.data)
  {
    hide Readable, Erased, Updates, ReadBack, Stuck, Succeeds, Harmless, RoomOrRefused, HitsLast, Matches, Proper, SetPlan,
         NoPhantom, Empty, Cut, AllAlike;
    ReadableActive(g, m);
    var lo := Active(g, m).value;
    MatchesAt(g, m, v, c.id);
    if Updates(g, m, lo, c.id, c.data) {
      SteadyProper(g, m, lo, c.id, c.data);
      HarmlessIs(g, m, Exec(g, m, c), lo, Some(New(g, m, lo, c.id, c.data)));
      ShortTear(g, m, lo, c.id, c.data, c.supply);
    } else {
      IdleSet(g, m, lo, true, c);
      AlikeOthers(g, m, Exec(g, m, c), c.id);
    }
  }

  lemma HarmlessIs(g: Geometry, m: seq<byte>, n: seq<byte>, lo: nat, extra: Option<Entry>)
    requires IsFlash(g, m) && IsFlash(g, n) && lo <= g.pageLen && Harmless(g, m, n, lo, extra)
    ensures NoPhantom(g, m, n, lo, extra)
  {
  }

  lemma DropShows(g: Geometry, m: seq<byte>, clean: bool, c: Cmd, v: map<nat, seq<byte>>)
    requires IsFlash(g, m) && Sound(g, m, clean) && Admissible(g, m, clean, c) && c.CDrop? && Matches(g, m, v)
    ensures var r := Sees(g, m, c).read; r == Lookup(v, c.id) || r == None
  {
    hide Readable, Erased, ReadBack, Stuck, HitsLast, Matches, NoPhantom, Cut, InvalidatePlan;
    ReadableActive(g, m);
    var lo := Active(g, m).value;
    MatchesAt(g, m, v, c.id);
    HarmlessIs(g, m, Exec(g, m, c), lo, None);
    InvalidateReads(g, m, lo, c.id, c.supply);
  }

  lemma LearnedOld(v: map<nat, seq<byte>>, id: nat)
    ensures Learned(v, id, Lookup(v, id)) == v
  {
  }

  /** No call leaves the map half changed, whether or not power is lost in it. */
  lemma StepAtomic(g: Geometry, m: seq<byte>, clean: bool, c: Cmd, v: map<nat, seq<byte>>)
    requires IsFlash(g, m) && Sound(g, m, clean) && Admissible(g, m, clean, c) && Matches(g, m, v) && ShortTorn(v, c)
    ensures MapStep(v, c, Believed(v, c, Sees(g, m, c)))
  {
    hide Sound, Matches, ReadBack, Exec, Succeeds;
    if c.CTear? {
      TearShows(g, m, c, v);
      LearnedOld(v, c.id);
    } else if c.CDrop? {
      DropShows(g, m, clean, c, v);
      LearnedOld(v, c.id);
    }
  }

  /**
   Recovery from a power loss in an update. A page turn, which may be cut in turn, changes nothing that is read, and
   once it reports success the store can be stored to again.
   */
  lemma TornRecovers(g: Geometry, m: seq<byte>, c: Cmd, v: map<nat, seq<byte>>, j: nat)
    requires IsFlash(g, m) && Sound(g, m, true) && Admissible(g, m, true, c) && c.CTear? && Matches(g, m, v)
    ensures var n := Exec(g, m, c);
            var r := Exec(g, n, CTurn(j));
            var w := Believed(v, c, Sees(g, m, c));
            && Matches(g, n, w) && Matches(g, r, w) && (ShortTorn(v, c) ==> w == v || w == v[c.id := c.data])
            && Sound(g, r, Succeeds(g, n, CTurn(j)))
  {
    hide Matches, Admissible, PlanOf, Cut, Sound, Believed, Sees;
    StepRefines(g, m, true, c, v);
    var n := Exec(g, m, c);
    var clean := CleanAfter(g, m, c, true);
    AlwaysTurns(g, n, clean, j);
    StepRefines(g, n, clean, CTurn(j), Believed(v, c, Sees(g, m, c)));
    TurnBelieved(Believed(v, c, Sees(g, m, c)), j, Sees(g, n, CTurn(j)));
    SoundLess(g, Exec(g, n, CTurn(j)), CleanAfter(g, n, CTurn(j), clean), Succeeds(g, n, CTurn(j)));
    if ShortTorn(v, c) {
      StepAtomic(g, m, true, c, v);
    }
  }

  lemma AlwaysTurns(g: Geometry, n: seq<byte>, clean: bool, j: nat)
    requires IsFlash(g, n)
    ensures Admissible(g, n, clean, CTurn(j))
  {
  }

  lemma TurnBelieved(v: map<nat, seq<byte>>, j: nat, sight: Sight)
    ensures Believed(v, CTurn(j), sight) == v
  {
  }

  lemma SoundLess(g: Geometry, m: seq<byte>, clean: bool, less: bool)
    requires IsFlash(g, m) && Sound(g, m, clean) && (less ==> clean)
    ensures Sound(g, m, less)
  {
  }

  /** A stuck id stays stuck: only a format helps. */
  lemma StuckStays(g: Geometry, m: seq<byte>, clean: bool, c: Cmd, id: nat)
    requires IsFlash(g, m) && Sound(g, m, clean) && Admissible(g, m, clean, c) && Stuck(g, m, id) && !c.CFormat?
    ensures Stuck(g, Exec(g, m, c), id)
  {
    hide Readable, Erased, Updates, Stuck, Exec, Succeeds, RoomOrRefused, HitsLast, AllAlike, NeedsTurn, Harmless;
    ReadableActive(g, m);
    var lo := Active(g, m).value;
    match c
    case CMaintain => MaintainRefines(g, m, clean); AllStuck(g, m, Exec(g, m, c), id);
    case CTurn(k) => TurnRefines(g, m, clean, k); ExecTurn(g, m, k); AllStuck(g, m, Exec(g, m, c), id);
    case CGet(_) => LookRefines(g, m, clean, c); AllStuck(g, m, Exec(g, m, c), id);
    case CSearch(_, _) => LookRefines(g, m, clean, c); AllStuck(g, m, Exec(g, m, c), id);
    case CInvalidate(_) => StuckInvalidate(g, m, lo, clean, c, id);
    case CDrop(_, _) => StuckInvalidate(g, m, lo, clean, c, id);
    case CSet(_, _) => StuckSet(g, m, lo, clean, c, id);
    case CTear(_, _, _) => StuckSet(g, m, lo, clean, c, id);
  }

  lemma ExecTurn(g: Geometry, m: seq<byte>, k: nat)
    requires IsFlash(g, m)
    ensures Exec(g, m, CTurn(k)) == Cut(m, TurnPlan(g, m).ops, k, Chip(g))
  {
  }

  lemma AllStuck(g: Geometry, m: seq<byte>, n: seq<byte>, id: nat)
    requires IsFlash(g, m) && IsFlash(g, n) && AllAlike(g, m, n) && Stuck(g, m, id)
    ensures Stuck(g, n, id)
  {
    hide ReadBack, Stuck;
    assert Alike(g, m, n, id);
  }

  lemma StuckInvalidate(g: Geometry, m: seq<byte>, lo: nat, clean: bool, c: Cmd, id: nat)
    requires IsFlash(g, m) && Active(g, m) == Some(lo) && Admissible(g, m, clean, c) && Stuck(g, m, id)
    requires c.CInvalidate? || c.CDrop?
    ensures Stuck(g, Exec(g, m, c), id)
  {
    hide Readable, Erased, Stuck, Succeeds, HitsLast, Cut, InvalidatePlan, NoPhantom, ReadBack, Total;
    HarmlessIs(g, m, Exec(g, m, c), lo, None);
    InvalidateReads(g, m, lo, c.id, Supply(g, m, c));
    assert id != c.id ==> Alike(g, m, Exec(g, m, c), id);
  }

  lemma StuckSet(g: Geometry, m: seq<byte>, lo: nat, clean: bool, c: Cmd, id: nat)
    requires IsFlash(g, m) && Sound(g, m, clean) && Active(g, m) == Some(lo) && Admissible(g, m, clean, c) && Stuck(g, m, id)
    requires c.CSet? || c.CTear?
    ensures Stuck(g, Exec(g, m, c), id)
  {
    hide Readable, Erased, Stuck, Succeeds, HitsLast, Cut, SetPlan, NoPhantom, ReadBack, Total, AllAlike, Updates, PageScan,
         RoomOrRefused, Proper, Empty, RepairOps, Done, BothFound;
    var n := Exec(g, m, c);
    var k := Supply(g, m, c);
    if !Updates(g, m, lo, c.id, c.data) {
      IdleSet(g, m, lo, clean, c);
      AllStuck(g, m, n, id);
    } else {
      SteadyProper(g, m, lo, c.id, c.data);
      HarmlessIs(g, m, n, lo, Some(New(g, m, lo, c.id, c.data)));
      SetReads(g, m, lo, c.id, c.data, k);
      UpdatesActive(g, m, lo, c.id, c.data);
      NotStuckGoes(g, m, lo, c.id, k);
      if id == c.id {
        FoundRepaired(g, m, lo, c.id, c.data, k);
      }
      assert id == c.id || Alike(g, m, n, id);
    }
  }

  lemma UpdatesActive(g: Geometry, m: seq<byte>, lo: nat, id: nat, data: seq<byte>)
    requires IsFlash(g, m) && Updates(g, m, lo, id, data)
    ensures Active(g, m) == Some(lo)
  {
  }

  function ExecAll(g: Geometry, m: seq<byte>, cs: seq<Cmd>): (n: seq<byte>)
    requires IsFlash(g, m)
    ensures IsFlash(g, n)
    decreases |cs|
  {
    if cs == [] then m else ExecAll(g, Exec(g, m, cs[0]), cs[1..])
  }

  predicate CleanAll(g: Geometry, m: seq<byte>, clean: bool, cs: seq<Cmd>)
    requires IsFlash(g, m)
    decreases |cs|
  {
    if cs == [] then clean else CleanAll(g, Exec(g, m, cs[0]), CleanAfter(g, m, cs[0], clean), cs[1..])
  }

  ghost predicate AllAdmissible(g: Geometry, m: seq<byte>, clean: bool, cs: seq<Cmd>)
    requires IsFlash(g, m)
    decreases |cs|
  {
    cs != [] ==>
      Admissible(g, m, clean, cs[0]) && AllAdmissible(g, Exec(g, m, cs[0]), CleanAfter(g, m, cs[0], clean), cs[1..])
  }

  /** The map believed by a caller that only knows the commands and what it saw of each. */
  function BelievedAll(g: Geometry, m: seq<byte>, v: map<nat, seq<byte>>, cs: seq<Cmd>): map<nat, seq<byte>>
    requires IsFlash(g, m)
    decreases |cs|
  {
    if cs == [] then v
    else BelievedAll(g, Exec(g, m, cs[0]), Believed(v, cs[0], Sees(g, m, cs[0])), cs[1..])
  }

  lemma {:induction false} RunRefines(g: Geometry, m: seq<byte>, clean: bool, cs: seq<Cmd>, v: map<nat, seq<byte>>)
    requires IsFlash(g, m) && Sound(g, m, clean) && AllAdmissible(g, m, clean, cs) && Matches(g, m, v)
    ensures Sound(g, ExecAll(g, m, cs), CleanAll(g, m, clean, cs))
    ensures Matches(g, ExecAll(g, m, cs), BelievedAll(g, m, v, cs))
    decreases |cs|
  {
    hide Sound, Matches, Exec, Sees, Believed, CleanAfter, Admissible;
    if cs != [] {
      StepRefines(g, m, clean, cs[0], v);
      RunRefines(g, Exec(g, m, cs[0]), CleanAfter(g, m, cs[0], clean), cs[1..], Believed(v, cs[0], Sees(g, m, cs[0])));
    }
  }

  /**
   Every run from a format. Whatever the flash held before, after a format and any admissible commands some page
   is active and fits; a read succeeds exactly if the caller believes in a value, and then returns it; and as long
   as the caller keeps the store clean, the flash from the end of the log on is erased.
   */
  lemma RunFromFormat(g: Geometry, m: seq<byte>, cs: seq<Cmd>)
    requires IsFlash(g, m) && AllAdmissible(g, Exec(g, m, CFormat), true, cs)
    ensures var n := ExecAll(g, m, [CFormat] + cs);
            var v := BelievedAll(g, Exec(g, m, CFormat), map[], cs);
            && Sound(g, n, CleanAll(g, Exec(g, m, CFormat), true, cs))
            && Matches(g, n, v)
            && forall id: nat :: Sees(g, n, CGet(id)) == Sight(id in v, Lookup(v, id))
  {
    hide Sound, Exec, AllAdmissible, CleanAll, Matches, Sees;
    FormatRefines(g, m);
    RunRefines(g, Exec(g, m, CFormat), true, cs, map[]);
    assert ([CFormat] + cs)[1..] == cs;
    var n := ExecAll(g, m, [CFormat] + cs);
    var v := BelievedAll(g, Exec(g, m, CFormat), map[], cs);
    forall id: nat ensures Sees(g, n, CGet(id)) == Sight(id in v, Lookup(v, id)) {
      MatchesAt(g, n, v, id);
      GetSees(g, n, id);
    }
  }

  /** A read that is carried out succeeds exactly when something is read. */
  lemma GetSees(g: Geometry, n: seq<byte>, id: nat)
    requires IsFlash(g, n)
    ensures Sees(g, n, CGet(id)) == Sight(ReadBack(g, n, id).Some?, ReadBack(g, n, id))
  {
    hide PageScan, RepairOps, Done, Total, MapOf, Last;
    if Active(g, n).Some? {
      LastIsMap(PageScan(g, n, Active(g, n).value), id);
    }
  }

  /** Every step of the run, as the caller sees it, is a step of a plain map. */
  ghost predicate MapRun(g: Geometry, m: seq<byte>, v: map<nat, seq<byte>>, cs: seq<Cmd>)
    requires IsFlash(g, m)
    decreases |cs|
  {
    cs != [] ==>
      var w := Believed(v, cs[0], Sees(g, m, cs[0]));
      MapStep(v, cs[0], w) && MapRun(g, Exec(g, m, cs[0]), w, cs[1..])
  }

  ghost predicate AllShort(g: Geometry, m: seq<byte>, v: map<nat, seq<byte>>, cs: seq<Cmd>)
    requires IsFlash(g, m)
    decreases |cs|
  {
    cs != [] ==>
      ShortTorn(v, cs[0]) && AllShort(g, Exec(g, m, cs[0]), Believed(v, cs[0], Sees(g, m, cs[0])), cs[1..])
  }

  /**
   Crash atomicity of whole runs. If no update of an id with a value of more than 249 bytes is cut, every command
   of the run, cut or not, leaves for every reader the old map, or the map it should leave.
   */
  lemma {:induction false} RunAtomic(g: Geometry, m: seq<byte>, clean: bool, cs: seq<Cmd>, v: map<nat, seq<byte>>)
    requires IsFlash(g, m) && Sound(g, m, clean) && AllAdmissible(g, m, clean, cs) && Matches(g, m, v)
    requires AllShort(g, m, v, cs)
    ensures MapRun(g, m, v, cs)
    decreases |cs|
  {
    hide Sound, Matches, Exec, Sees, Believed, CleanAfter, Admissible, MapStep, ShortTorn;
    if cs != [] {
      StepAtomic(g, m, clean, cs[0], v);
      StepRefines(g, m, clean, cs[0], v);
      RunAtomic(g, Exec(g, m, cs[0]), CleanAfter(g, m, cs[0], clean), cs[1..], Believed(v, cs[0], Sees(g, m, cs[0])));
    }
  }

  /** Without a format no run helps a stuck id. */
  lemma {:induction false} StuckRun(g: Geometry, m: seq<byte>, clean: bool, cs: seq<Cmd>, id: nat)
    requires IsFlash(g, m) && Sound(g, m, clean) && AllAdmissible(g, m, clean, cs)
    requires Stuck(g, m, id) && CFormat !in cs
    ensures Stuck(g, ExecAll(g, m, cs), id)
    decreases |cs|
  {
    hide Sound, Exec, CleanAfter, Admissible, Stuck, Sees;
    if cs != [] {
      StuckStays(g, m, clean, cs[0], id);
      StepSound(g, m, clean, cs[0]);
      StuckRun(g, Exec(g, m, cs[0]), CleanAfter(g, m, cs[0], clean), cs[1..], id);
    }
  }
}
