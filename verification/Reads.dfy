/**
 What `mm_get` returns, on any flash and after any cut. A search zeroes every copy of its id but the last, and
 fails when one of them is too long for that; so what is read is the last-wins map, but for ids that have such a
 copy, which no call but a format can help.
 */
module Reads {
  import opened Bytes
  import opened NorFlash
  import opened Records
  import opened Store
  import opened StoreSteps
  import opened Copies
  import opened StoreLaws
  import opened TurnLaws
  import opened TidyOps
  import opened Steady

  /** The longest payload whose record can be zeroed in one call. */
  const SHORT := 249

  function Lookup(v: map<nat, seq<byte>>, id: nat): Option<seq<byte>> {
    if id in v then Some(v[id]) else None
  }

  /** A copy of `id` that is not the last one is too long to be zeroed. */
  ghost predicate Clogged(s: seq<Entry>, id: nat) {
    exists e :: e in s && e.id == id && Last(s, id) != Some(e) && |e.data| > SHORT
  }

  ghost predicate Stuck(g: Geometry, m: seq<byte>, id: nat)
    requires IsFlash(g, m)
  {
    Active(g, m).Some? && Clogged(PageScan(g, m, Active(g, m).value), id)
  }

  /** `n` reads the same as `m` at this id, and is stuck there if `m` is. */
  ghost predicate Alike(g: Geometry, m: seq<byte>, n: seq<byte>, id: nat)
    requires IsFlash(g, m) && IsFlash(g, n)
  {
    ReadBack(g, n, id) == ReadBack(g, m, id) && (Stuck(g, n, id) <==> Stuck(g, m, id))
  }

  /** A read returns the last copy, unless a shadowed copy is too long. */
  lemma ReadIs(g: Geometry, m: seq<byte>, id: nat)
    requires IsFlash(g, m)
    ensures ReadBack(g, m, id) == if id == INVALID_ID || Stuck(g, m, id) then None else Lookup(View(g, m), id)
  {
    hide PageScan, Keep, RepairOps, Done, Cut, Total, MapOf;
    if Active(g, m).Some? {
      var lo := Active(g, m).value;
      var s := PageScan(g, m, lo);
      KeepIn(s, id);
      RepairGoes(g, m, lo, id, Total(RepairOps(s, id)));
    }
  }

  /** Logs with the same copies of an id. */
  lemma CopiesDecide(s: seq<Entry>, t: seq<Entry>, o: nat, id: nat)
    requires InOrder(s, o) && InOrder(t, o)
    requires forall e: Entry :: e.id == id ==> (e in s <==> e in t)
    ensures Last(s, id) == Last(t, id) && (Clogged(s, id) <==> Clogged(t, id))
  {
    SameLookup(s, t, o, id);
  }

  ghost predicate CopiesKept(g: Geometry, m: seq<byte>, n: seq<byte>, lo: nat, id: nat)
    requires IsFlash(g, m) && IsFlash(g, n) && lo <= g.pageLen
  {
    forall e: Entry :: e.id == id ==> (e in PageScan(g, m, lo) <==> e in PageScan(g, n, lo))
  }

  /** Pages with the same copies of an id read the same. */
  lemma SameCopies(g: Geometry, m: seq<byte>, n: seq<byte>, lo: nat, id: nat)
    requires IsFlash(g, m) && IsFlash(g, n) && Active(g, m) == Active(g, n) == Some(lo) && CopiesKept(g, m, n, lo, id)
    ensures Alike(g, m, n, id)
  {
    hide PageScan, MapOf, ReadBack, Clogged, Last, Active;
    PageInOrder(g, m, lo);
    PageInOrder(g, n, lo);
    CopiesDecide(PageScan(g, m, lo), PageScan(g, n, lo), First(lo), id);
    SameRead(g, m, n, lo, id);
  }

  /** What decides a read: the last copy, and whether another one is too long. */
  lemma SameRead(g: Geometry, m: seq<byte>, n: seq<byte>, lo: nat, id: nat)
    requires IsFlash(g, m) && IsFlash(g, n) && Active(g, m) == Active(g, n) == Some(lo)
    requires Last(PageScan(g, m, lo), id) == Last(PageScan(g, n, lo), id)
    requires Clogged(PageScan(g, m, lo), id) <==> Clogged(PageScan(g, n, lo), id)
    ensures Alike(g, m, n, id)
  {
    hide PageScan, MapOf, ReadBack, Clogged, Last, Active;
    ReadIs(g, m, id);
    ReadIs(g, n, id);
    LastIsMap(PageScan(g, m, lo), id);
    LastIsMap(PageScan(g, n, lo), id);
  }

  /** With one copy at most there is nothing to repair. */
  lemma OneCopy(t: seq<Entry>, id: nat, p: Entry)
    requires p.id == id && forall e :: e in t && e.id == id ==> e == p
    ensures !Clogged(t, id) && Last(t, id) == if p in t then Some(p) else None
  {
    LastNone(t, id);
  }

  /** A copy whose repair is refused is never touched. */
  lemma RefusedUntouched(g: Geometry, m: seq<byte>, lo: nat, id: nat, k: nat, e: Entry)
    requires IsFlash(g, m) && Active(g, m) == Some(lo)
    requires e in PageScan(g, m, lo) && |e.data| > SHORT
    ensures Same(m, Cut(m, RepairOps(PageScan(g, m, lo), id), k, Chip(g)), e.at, e.End())
  {
    hide PageScan, Cut, RepairOps, Stored;
    var s := PageScan(g, m, lo);
    PageInOrder(g, m, lo);
    forall op | op in RepairOps(s, id) ensures !Accepts(op, Chip(g)) || op.addr + Cost(op) <= e.at || e.End() <= op.addr {
      RepairKills(s, First(lo), id, op);
      var x :| x in s && x.id == id && op.addr == x.at && Cost(op) == HEADER_LEN + |x.data|
               && x.End() <= Last(s, id).value.at;
      Disjoint(s, First(lo), x, e);
    }
    CutSpares(m, RepairOps(s, id), k, Chip(g), e.at, e.End());
  }

  /** The copies of the id that a search is for: the last one stays, and so does one that is too long. */
  lemma SearchOwn(g: Geometry, m: seq<byte>, lo: nat, id: nat, k: nat)
    requires IsFlash(g, m) && Active(g, m) == Some(lo)
    requires NoPhantom(g, m, Cut(m, RepairOps(PageScan(g, m, lo), id), k, Chip(g)), lo, None)
    ensures var s := PageScan(g, m, lo);
            var t := PageScan(g, Cut(m, RepairOps(s, id), k, Chip(g)), lo);
            Last(t, id) == Last(s, id) && (Clogged(s, id) <==> Clogged(t, id))
  {
    hide PageScan, Cut, RepairOps, Keep;
    var s := PageScan(g, m, lo);
    var n := Cut(m, RepairOps(s, id), k, Chip(g));
    var t := PageScan(g, n, lo);
    PageInOrder(g, m, lo);
    PageInOrder(g, n, lo);
    KeepIn(s, id);
    if Last(s, id).Some? {
      KeptFound(g, m, lo, id, k, Last(s, id).value);
    }
    SameLookup(t, s, First(lo), id);
    if Clogged(s, id) {
      var e :| e in s && e.id == id && Last(s, id) != Some(e) && |e.data| > SHORT;
      RefusedUntouched(g, m, lo, id, k, e);
      StillFound(g, m, n, lo, s, e);
    }
  }

  /** Wherever a search is cut, and whether or not it is refused, every read returns what it would have before. */
  lemma SearchReads(g: Geometry, m: seq<byte>, lo: nat, id: nat, k: nat)
    requires IsFlash(g, m) && Active(g, m) == Some(lo)
    requires NoPhantom(g, m, Cut(m, RepairOps(PageScan(g, m, lo), id), k, Chip(g)), lo, None)
    ensures forall j: nat :: Alike(g, m, Cut(m, RepairOps(PageScan(g, m, lo), id), k, Chip(g)), j)
  {
    hide PageScan, Cut, RepairOps, Keep, ReadBack, Clogged, Active;
    var s := PageScan(g, m, lo);
    var n := Cut(m, RepairOps(s, id), k, Chip(g));
    RepairAll(g, m, lo, id, k);
    KeepIn(s, id);
    forall j: nat ensures Alike(g, m, n, j) {
      if j == id {
        SearchOwn(g, m, lo, id, k);
        SameRead(g, m, n, lo, id);
      } else {
        forall e: Entry | e.id == j && e in s ensures e in PageScan(g, n, lo) {
          KeptFound(g, m, lo, id, k, e);
        }
        SameCopies(g, m, n, lo, j);
      }
    }
  }

  /** Until something is programmed there, nothing is found at the end of the log. */
  lemma NotYet(g: Geometry, m: seq<byte>, n: seq<byte>, lo: nat, id: nat, data: seq<byte>)
    requires IsFlash(g, m) && IsFlash(g, n) && lo <= g.pageLen && First(lo) <= Empty(g, m, lo)
    requires Same(m, n, Empty(g, m, lo), |m|)
    ensures New(g, m, lo, id, data) !in PageScan(g, n, lo)
  {
    hide PageScan, Stored, Empty;
    var e := New(g, m, lo, id, data);
    PageLive(g, n, lo);
    EndIsDead(g, m, lo, e);
    if e in PageScan(g, n, lo) {
      StoredInSight(g, n, e, lo + g.pageLen);
      StoredFrame(g.crc, n, m, e, lo + g.pageLen);
    }
  }

  lemma EndIsDead(g: Geometry, m: seq<byte>, lo: nat, e: Entry)
    requires IsFlash(g, m) && lo <= g.pageLen && e.at == Empty(g, m, lo)
    ensures e.at < lo + g.pageLen ==> !Stored(g.crc, m, e, lo + g.pageLen)
  {
    hide PageScan;
    var s := PageScan(g, m, lo);
    PageLive(g, m, lo);
    assert Limit(s, lo + g.pageLen, |s|) == lo + g.pageLen;
  }

  lemma SetSplits(g: Geometry, m: seq<byte>, lo: nat, id: nat, data: seq<byte>)
    requires IsFlash(g, m) && Updates(g, m, lo, id, data)
    ensures SetPlan(g, m, id, data).ops ==
            RepairOps(PageScan(g, m, lo), id) +
            UpdateOps(g, Empty(g, m, lo), id, data, Last(PageScan(g, m, lo), id))
  {
    hide PageScan, Empty, RepairOps, UpdateOps, Last;
  }

  /** Once the repairs are done, the shadowed copies are gone for good. */
  lemma ShadowGone(g: Geometry, m: seq<byte>, lo: nat, id: nat, k: nat, e: Entry)
    requires IsFlash(g, m) && Active(g, m) == Some(lo) && Done(m, RepairOps(PageScan(g, m, lo), id), k, Chip(g))
    requires e in PageScan(g, m, lo) && e.id == id && Last(PageScan(g, m, lo), id) != Some(e)
    ensures Zeroed(Cut(m, RepairOps(PageScan(g, m, lo), id), k, Chip(g)), e.at, e.End())
  {
    hide PageScan, RepairOps, Keep, Cut, Done;
    var s := PageScan(g, m, lo);
    PageInOrder(g, m, lo);
    KeepIn(s, id);
    KilledHasOp(s, id, e);
    forall op | op in RepairOps(s, id) ensures op.Zero? { RepairKills(s, First(lo), id, op); }
    ZeroedBytes(m, RepairOps(s, id), k, Chip(g), Zero(e.at, HEADER_LEN + |e.data|));
  }

  lemma ZeroedFrame(c: seq<byte>, n: seq<byte>, a: nat, b: nat)
    requires Zeroed(c, a, b) && Same(c, n, a, b)
    ensures Zeroed(n, a, b)
  {
  }

  /** A zeroed copy is not found. */
  lemma ZeroedNotFound(g: Geometry, n: seq<byte>, lo: nat, e: Entry)
    requires IsFlash(g, n) && lo <= g.pageLen && Zeroed(n, e.at, e.End())
    ensures e !in PageScan(g, n, lo)
  {
    hide PageScan, Stored, Live;
    PageLive(g, n, lo);
    if e in PageScan(g, n, lo) {
      StoredInSight(g, n, e, lo + g.pageLen);
      ZerosAreNoRecord(g, n, e, lo + g.pageLen);
    }
  }

  /** The writes of an update touch no shadowed copy. */
  lemma UpdateSpares(g: Geometry, m: seq<byte>, lo: nat, id: nat, data: seq<byte>, c: seq<byte>, k: nat, e: Entry)
    requires IsFlash(g, m) && Updates(g, m, lo, id, data) && |c| == |m|
    requires e in PageScan(g, m, lo) && Last(PageScan(g, m, lo), id) != Some(e)
    ensures Same(c, Cut(c, UpdateOps(g, Empty(g, m, lo), id, data, Last(PageScan(g, m, lo), id)), k, Chip(g)), e.at, e.End())
  {
    hide PageScan, Empty, Cut, Header;
    var s := PageScan(g, m, lo);
    var ops := UpdateOps(g, Empty(g, m, lo), id, data, Last(s, id));
    PageInOrder(g, m, lo);
    EndsBeforeEmpty(g, m, lo, e);
    forall op | op in ops ensures op.addr + Cost(op) <= e.at || e.End() <= op.addr {
      if Last(s, id).Some? {
        Disjoint(s, First(lo), e, Last(s, id).value);
      }
    }
    CutMisses(c, ops, k, Chip(g), e.at, e.End());
  }

  /** An update whose repairs are done goes on from what they left. */
  lemma UpdateRest(g: Geometry, m: seq<byte>, lo: nat, id: nat, data: seq<byte>, k: nat) returns (c: seq<byte>, j: nat)
    requires IsFlash(g, m) && Updates(g, m, lo, id, data) && Done(m, RepairOps(PageScan(g, m, lo), id), k, Chip(g))
    ensures c == Cut(m, RepairOps(PageScan(g, m, lo), id), k, Chip(g))
    ensures Cut(m, SetPlan(g, m, id, data).ops, k, Chip(g)) ==
            Cut(c, UpdateOps(g, Empty(g, m, lo), id, data, Last(PageScan(g, m, lo), id)), j, Chip(g))
  {
    hide PageScan, Empty, RepairOps, UpdateOps, SetPlan, Cut, Done, Spent, Last, Total;
    var ops := RepairOps(PageScan(g, m, lo), id);
    var rest := UpdateOps(g, Empty(g, m, lo), id, data, Last(PageScan(g, m, lo), id));
    SetSplits(g, m, lo, id, data);
    CutConcat(m, ops, rest, k, Chip(g));
    c, j := Cut(m, ops, k, Chip(g)), k - Total(ops);
  }

  /** After the repairs of an update, only the last copy and the new record can be found, wherever it is cut. */
  lemma UpdateCopies(g: Geometry, m: seq<byte>, lo: nat, id: nat, data: seq<byte>, k: nat, e: Entry)
    requires IsFlash(g, m) && Updates(g, m, lo, id, data) && Done(m, RepairOps(PageScan(g, m, lo), id), k, Chip(g))
    requires e in PageScan(g, m, lo) && e.id == id && Last(PageScan(g, m, lo), id) != Some(e)
    ensures e !in PageScan(g, Cut(m, SetPlan(g, m, id, data).ops, k, Chip(g)), lo)
  {
    hide PageScan, Empty, RepairOps, UpdateOps, SetPlan, Cut, Done, Spent, Zeroed, Last, Same;
    var c, j := UpdateRest(g, m, lo, id, data, k);
    ShadowGone(g, m, lo, id, k, e);
    UpdateSpares(g, m, lo, id, data, c, j, e);
    ZeroedFrame(c, Cut(m, SetPlan(g, m, id, data).ops, k, Chip(g)), e.at, e.End());
    ZeroedNotFound(g, Cut(m, SetPlan(g, m, id, data).ops, k, Chip(g)), lo, e);
  }

  /** The new record is found only if all repairs are done. */
  lemma FoundRepaired(g: Geometry, m: seq<byte>, lo: nat, id: nat, data: seq<byte>, k: nat)
    requires IsFlash(g, m) && Updates(g, m, lo, id, data) && !Done(m, RepairOps(PageScan(g, m, lo), id), k, Chip(g))
    ensures var n := Cut(m, SetPlan(g, m, id, data).ops, k, Chip(g));
            && n == Cut(m, RepairOps(PageScan(g, m, lo), id), k, Chip(g))
            && New(g, m, lo, id, data) !in PageScan(g, n, lo)
  {
    hide PageScan, Empty, RepairOps, UpdateOps, SetPlan, Cut, Done, Spent;
    var ops := RepairOps(PageScan(g, m, lo), id);
    SetSplits(g, m, lo, id, data);
    HaltsAt(m, ops, UpdateOps(g, Empty(g, m, lo), id, data, Last(PageScan(g, m, lo), id)), k, Chip(g));
    RepairAll(g, m, lo, id, k);
    NotYet(g, m, Cut(m, ops, k, Chip(g)), lo, id, data);
  }

  /** What makes an update visible or harmless: its record is in sight and can be programmed if it gets written. */
  ghost predicate Proper(g: Geometry, m: seq<byte>, lo: nat, id: nat, data: seq<byte>)
    requires IsFlash(g, m) && lo <= g.pageLen
  {
    && InSight(g, lo, Empty(g, m, lo), |data|)
    && (g.verify || Programmable(m, Empty(g, m, lo), Encode(g, New(g, m, lo, id, data))))
  }

  lemma ProperAppend(g: Geometry, m: seq<byte>, lo: nat, id: nat, data: seq<byte>, k: nat)
    requires IsFlash(g, m) && Updates(g, m, lo, id, data) && Proper(g, m, lo, id, data)
    requires Done(m, AppendOps(g, m, lo, id, data), k, Chip(g))
    ensures var e := New(g, m, lo, id, data); e.End() <= |m| && Programmable(m, e.at, Encode(g, e))
  {
    hide PageScan, Empty, AppendOps, Done, Programmable, Encode;
    AppendGoes(g, m, lo, id, data, k);
  }

  /** Ids that an update is not for read as before, wherever it is cut. */
  lemma UpdateOthers(g: Geometry, m: seq<byte>, lo: nat, id: nat, data: seq<byte>, k: nat, j: nat)
    requires IsFlash(g, m) && Updates(g, m, lo, id, data) && j != id
    requires NoPhantom(g, m, Cut(m, SetPlan(g, m, id, data).ops, k, Chip(g)), lo, Some(New(g, m, lo, id, data)))
    ensures Alike(g, m, Cut(m, SetPlan(g, m, id, data).ops, k, Chip(g)), j)
  {
    hide PageScan, Empty, SetPlan, Cut, Stored, ReadBack, Active;
    var n := Cut(m, SetPlan(g, m, id, data).ops, k, Chip(g));
    UpdateActive(g, m, lo, id, data, k);
    UpdatedOrder(g, m, lo, id, data);
    forall e: Entry | e.id == j && e in PageScan(g, m, lo) ensures e in PageScan(g, n, lo) {
      OthersStored(g, m, lo, id, data, k, e);
      EndsBeforeEmpty(g, m, lo, e);
      ScanFinds(g, n, lo, PageScan(g, m, lo) + [New(g, m, lo, id, data)], e);
    }
    SameCopies(g, m, n, lo, j);
  }

  /** The new record is found, and the long value it replaces as well. */
  ghost predicate BothFound(g: Geometry, m: seq<byte>, lo: nat, id: nat, data: seq<byte>, n: seq<byte>)
    requires IsFlash(g, m) && IsFlash(g, n) && lo <= g.pageLen
  {
    var p := Last(PageScan(g, m, lo), id);
    && New(g, m, lo, id, data) in PageScan(g, n, lo)
    && p.Some? && p.value in PageScan(g, n, lo) && |p.value.data| > SHORT
  }

  /** The copies of an updated id on a page with both. */
  lemma NewAndOld(t: seq<Entry>, o: nat, id: nat, p: Option<Entry>, e: Entry)
    requires InOrder(t, o) && e in t && e.id == id && (p.Some? ==> p.value.id == id && p.value.at < e.at)
    requires forall x :: x in t && x.id == id ==> x == e || Some(x) == p
    ensures Last(t, id) == Some(e)
    ensures Clogged(t, id) <==> p.Some? && p.value in t && |p.value.data| > SHORT
  {
    LastUnique(t, o, e);
  }

  /** What is read of the id after its repairs are done. */
  lemma UpdateOwn(g: Geometry, m: seq<byte>, lo: nat, id: nat, data: seq<byte>, k: nat)
    requires IsFlash(g, m) && Updates(g, m, lo, id, data) && Done(m, RepairOps(PageScan(g, m, lo), id), k, Chip(g))
    requires NoPhantom(g, m, Cut(m, SetPlan(g, m, id, data).ops, k, Chip(g)), lo, Some(New(g, m, lo, id, data)))
    requires New(g, m, lo, id, data) in PageScan(g, Cut(m, SetPlan(g, m, id, data).ops, k, Chip(g)), lo)
    ensures var n := Cut(m, SetPlan(g, m, id, data).ops, k, Chip(g));
            && ReadBack(g, n, id) == (if BothFound(g, m, lo, id, data, n) then None else Some(data))
            && (BothFound(g, m, lo, id, data, n) ==> Stuck(g, n, id) && Lookup(View(g, n), id) == Some(data))
  {
    hide PageScan, Empty, SetPlan, Cut, RepairOps, ReadBack, Active, Last, Done, Clogged, MapOf;
    var s := PageScan(g, m, lo);
    var e := New(g, m, lo, id, data);
    var n := Cut(m, SetPlan(g, m, id, data).ops, k, Chip(g));
    var t := PageScan(g, n, lo);
    UpdateActive(g, m, lo, id, data, k);
    PageInOrder(g, n, lo);
    forall x | x in t && x.id == id ensures x == e || Some(x) == Last(s, id) {
      if x in s && Last(s, id) != Some(x) {
        UpdateCopies(g, m, lo, id, data, k, x);
      }
    }
    if Last(s, id).Some? {
      EndsBeforeEmpty(g, m, lo, Last(s, id).value);
    }
    NewAndOld(t, First(lo), id, Last(s, id), e);
    LastIsMap(t, id);
    ReadIs(g, n, id);
  }

  /** What is read of the id when the new record is not found. */
  lemma UpdateMissed(g: Geometry, m: seq<byte>, lo: nat, id: nat, data: seq<byte>, k: nat)
    requires IsFlash(g, m) && Updates(g, m, lo, id, data) && Proper(g, m, lo, id, data)
    requires NoPhantom(g, m, Cut(m, SetPlan(g, m, id, data).ops, k, Chip(g)), lo, Some(New(g, m, lo, id, data)))
    requires New(g, m, lo, id, data) !in PageScan(g, Cut(m, SetPlan(g, m, id, data).ops, k, Chip(g)), lo)
    ensures Alike(g, m, Cut(m, SetPlan(g, m, id, data).ops, k, Chip(g)), id)
  {
    hide PageScan, Empty, SetPlan, AppendOps, Cut, RepairOps, ReadBack, Active, Last, Done, Clogged, MapOf, Proper, Total, View;
    var s := PageScan(g, m, lo);
    var n := Cut(m, SetPlan(g, m, id, data).ops, k, Chip(g));
    if !Done(m, RepairOps(s, id), k, Chip(g)) {
      FoundRepaired(g, m, lo, id, data, k);
      SearchReads(g, m, lo, id, k);
    } else {
      MissedView(g, m, lo, id, data, k);
      RepairedFree(g, m, lo, id, k);
      MissedFree(g, m, lo, id, data, k);
      ReadIs(g, m, id);
      ReadIs(g, n, id);
    }
  }

  lemma MissedView(g: Geometry, m: seq<byte>, lo: nat, id: nat, data: seq<byte>, k: nat)
    requires IsFlash(g, m) && Updates(g, m, lo, id, data) && Proper(g, m, lo, id, data)
    requires NoPhantom(g, m, Cut(m, SetPlan(g, m, id, data).ops, k, Chip(g)), lo, Some(New(g, m, lo, id, data)))
    requires New(g, m, lo, id, data) !in PageScan(g, Cut(m, SetPlan(g, m, id, data).ops, k, Chip(g)), lo)
    ensures View(g, Cut(m, SetPlan(g, m, id, data).ops, k, Chip(g))) == View(g, m)
  {
    hide PageScan, Empty, SetPlan, AppendOps, Cut, RepairOps, Active, Last, Done, Encode, View, Programmable;
    if Done(m, AppendOps(g, m, lo, id, data), k, Chip(g)) {
      ProperAppend(g, m, lo, id, data, k);
    }
    CutAtomic(g, m, lo, id, data, k);
  }

  /** Repairs that get done find no copy too long for them. */
  lemma RepairedFree(g: Geometry, m: seq<byte>, lo: nat, id: nat, k: nat)
    requires IsFlash(g, m) && Active(g, m) == Some(lo) && Done(m, RepairOps(PageScan(g, m, lo), id), k, Chip(g))
    ensures !Stuck(g, m, id)
  {
    hide PageScan, RepairOps, Done, Keep;
    RepairGoes(g, m, lo, id, k);
    KeepIn(PageScan(g, m, lo), id);
  }

  lemma MissedFree(g: Geometry, m: seq<byte>, lo: nat, id: nat, data: seq<byte>, k: nat)
    requires IsFlash(g, m) && Updates(g, m, lo, id, data) && Done(m, RepairOps(PageScan(g, m, lo), id), k, Chip(g))
    requires NoPhantom(g, m, Cut(m, SetPlan(g, m, id, data).ops, k, Chip(g)), lo, Some(New(g, m, lo, id, data)))
    requires New(g, m, lo, id, data) !in PageScan(g, Cut(m, SetPlan(g, m, id, data).ops, k, Chip(g)), lo)
    ensures !Stuck(g, Cut(m, SetPlan(g, m, id, data).ops, k, Chip(g)), id)
  {
    hide PageScan, Empty, SetPlan, Cut, RepairOps, Active, Done;
    var s := PageScan(g, m, lo);
    var n := Cut(m, SetPlan(g, m, id, data).ops, k, Chip(g));
    UpdateActive(g, m, lo, id, data, k);
    forall x | x in PageScan(g, n, lo) && x.id == id ensures Last(s, id) == Some(x) {
      if Last(s, id) != Some(x) {
        UpdateCopies(g, m, lo, id, data, k, x);
      }
    }
    if Last(s, id).Some? {
      OneCopy(PageScan(g, n, lo), id, Last(s, id).value);
    }
  }

  /**
   Atomic update, as `mm_get` shows it. Wherever an update is cut, byte by byte, every other id reads as before;
   the id itself reads as before if the new record is not found, and if it is as the new value, unless the copy
   it replaces is still there and too long to be zeroed. After a completed call the new value is read.
   */
  lemma SetReads(g: Geometry, m: seq<byte>, lo: nat, id: nat, data: seq<byte>, k: nat)
    requires IsFlash(g, m) && Updates(g, m, lo, id, data) && Proper(g, m, lo, id, data)
    requires NoPhantom(g, m, Cut(m, SetPlan(g, m, id, data).ops, k, Chip(g)), lo, Some(New(g, m, lo, id, data)))
    ensures var n := Cut(m, SetPlan(g, m, id, data).ops, k, Chip(g));
            && (forall j: nat :: j != id ==> Alike(g, m, n, j))
            && (New(g, m, lo, id, data) !in PageScan(g, n, lo) ==> Alike(g, m, n, id))
            && ReadBack(g, n, id) == (if New(g, m, lo, id, data) !in PageScan(g, n, lo) then ReadBack(g, m, id)
                                      else if BothFound(g, m, lo, id, data, n) then None
                                      else Some(data))
            && (Done(m, SetPlan(g, m, id, data).ops, k, Chip(g)) ==> ReadBack(g, n, id) == Some(data))
  {
    hide PageScan, Empty, SetPlan, AppendOps, Cut, RepairOps, ReadBack, Last, Done, Proper, Active;
    var n := Cut(m, SetPlan(g, m, id, data).ops, k, Chip(g));
    forall j: nat | j != id ensures Alike(g, m, n, j) {
      UpdateOthers(g, m, lo, id, data, k, j);
    }
    if New(g, m, lo, id, data) !in PageScan(g, n, lo) {
      UpdateMissed(g, m, lo, id, data, k);
    } else {
      if !Done(m, RepairOps(PageScan(g, m, lo), id), k, Chip(g)) {
        FoundRepaired(g, m, lo, id, data, k);
      }
      UpdateOwn(g, m, lo, id, data, k);
    }
    if Done(m, SetPlan(g, m, id, data).ops, k, Chip(g)) {
      DoneFound(g, m, lo, id, data, k);
      OldIsGone(g, m, lo, id, data, k);
    }
  }

  lemma DoneFound(g: Geometry, m: seq<byte>, lo: nat, id: nat, data: seq<byte>, k: nat)
    requires IsFlash(g, m) && Updates(g, m, lo, id, data) && Proper(g, m, lo, id, data)
    requires NoPhantom(g, m, Cut(m, SetPlan(g, m, id, data).ops, k, Chip(g)), lo, Some(New(g, m, lo, id, data)))
    requires Done(m, SetPlan(g, m, id, data).ops, k, Chip(g))
    ensures New(g, m, lo, id, data) in PageScan(g, Cut(m, SetPlan(g, m, id, data).ops, k, Chip(g)), lo)
  {
    hide PageScan, Empty, SetPlan, Cut, Done, Programmable, Encode, View;
    SetAtomic(g, m, lo, id, data, k);
  }

  /** The cut between payload and kill, with a value too long to be zeroed. */
  lemma LongTear(g: Geometry, m: seq<byte>, lo: nat, id: nat, data: seq<byte>, k: nat)
    requires IsFlash(g, m) && Updates(g, m, lo, id, data) && Proper(g, m, lo, id, data)
    requires Last(PageScan(g, m, lo), id).Some? && |Last(PageScan(g, m, lo), id).value.data| > SHORT
    requires k == Total(AppendOps(g, m, lo, id, data)) && Done(m, AppendOps(g, m, lo, id, data), k, Chip(g))
    requires NoPhantom(g, m, Cut(m, SetPlan(g, m, id, data).ops, k, Chip(g)), lo, Some(New(g, m, lo, id, data)))
    ensures var n := Cut(m, SetPlan(g, m, id, data).ops, k, Chip(g));
            && View(g, n) == View(g, m)[id := data]
            && Stuck(g, n, id) && ReadBack(g, n, id) == None
  {
    hide PageScan, Empty, SetPlan, AppendOps, Cut, ReadBack, Done, Encode, Programmable, View, Stuck, Total, Active, RepairOps,
         Keep;
    var n := Cut(m, SetPlan(g, m, id, data).ops, k, Chip(g));
    var p := Last(PageScan(g, m, lo), id).value;
    ProperAppend(g, m, lo, id, data, k);
    CutAtomic(g, m, lo, id, data, k);
    UpdatedOrder(g, m, lo, id, data);
    KillNotBegun(g, m, lo, id, data, k);
    KeepIn(PageScan(g, m, lo), id);
    UpdateUntouched(g, m, lo, id, data, k, p);
    StillFound(g, m, n, lo, PageScan(g, m, lo) + [New(g, m, lo, id, data)], p);
    if !Done(m, RepairOps(PageScan(g, m, lo), id), k, Chip(g)) {
      FoundRepaired(g, m, lo, id, data, k);
    }
    UpdateOwn(g, m, lo, id, data, k);
  }

  /** With no supply left for it, the kill has done nothing. */
  lemma KillNotBegun(g: Geometry, m: seq<byte>, lo: nat, id: nat, data: seq<byte>, k: nat)
    requires IsFlash(g, m) && Updates(g, m, lo, id, data)
    requires k == Total(AppendOps(g, m, lo, id, data)) && Done(m, AppendOps(g, m, lo, id, data), k, Chip(g))
    ensures Cut(m, SetPlan(g, m, id, data).ops, k, Chip(g)) == Cut(m, AppendOps(g, m, lo, id, data), k, Chip(g))
  {
    hide PageScan, Empty, SetPlan, AppendOps, Cut, Done, Total, Spent, Last;
    var ops := AppendOps(g, m, lo, id, data);
    var p := Last(PageScan(g, m, lo), id);
    SetPlanIs(g, m, lo, id, data);
    if p.Some? {
      CutSnoc(m, ops, Zero(p.value.at, HEADER_LEN), k, Chip(g));
      NothingApplied(Cut(m, ops, k, Chip(g)), Zero(p.value.at, HEADER_LEN));
    } else {
      assert ops + [] == ops;
    }
  }

  lemma NothingApplied(c: seq<byte>, op: Op)
    ensures Apply(c, op, 0) == c
  {
  }

  /** After the cut a read returns the old value or the new one. */
  predicate OldOrNew(g: Geometry, m: seq<byte>, id: nat, data: seq<byte>, k: nat)
    requires IsFlash(g, m)
  {
    var r := ReadBack(g, Cut(m, SetPlan(g, m, id, data).ops, k, Chip(g)), id);
    r == ReadBack(g, m, id) || r == Some(data)
  }

  ghost predicate NeverPhantom(g: Geometry, m: seq<byte>, lo: nat, id: nat, data: seq<byte>)
    requires IsFlash(g, m) && lo <= g.pageLen
  {
    forall k: nat :: NoPhantom(g, m, Cut(m, SetPlan(g, m, id, data).ops, k, Chip(g)), lo, Some(New(g, m, lo, id, data)))
  }

  /** An id with a short value, or none, is never left with two copies of which the first is too long. */
  lemma ShortTear(g: Geometry, m: seq<byte>, lo: nat, id: nat, data: seq<byte>, k: nat)
    requires IsFlash(g, m) && Updates(g, m, lo, id, data) && Proper(g, m, lo, id, data)
    requires NoPhantom(g, m, Cut(m, SetPlan(g, m, id, data).ops, k, Chip(g)), lo, Some(New(g, m, lo, id, data)))
    requires ReadBack(g, m, id).Some? ==> |ReadBack(g, m, id).value| <= SHORT
    ensures OldOrNew(g, m, id, data, k)
  {
    hide PageScan, Empty, SetPlan, Cut, ReadBack, Done, Proper, View, Stuck, RepairOps, Active, Last, MapOf;
    var n := Cut(m, SetPlan(g, m, id, data).ops, k, Chip(g));
    SetReads(g, m, lo, id, data, k);
    if BothFound(g, m, lo, id, data, n) {
      if Done(m, RepairOps(PageScan(g, m, lo), id), k, Chip(g)) {
        RepairedFree(g, m, lo, id, k);
        ReadIs(g, m, id);
        LastIsMap(PageScan(g, m, lo), id);
        ActiveView(g, m, lo);
      } else {
        FoundRepaired(g, m, lo, id, data, k);
      }
    }
  }

  lemma ActiveView(g: Geometry, m: seq<byte>, lo: nat)
    requires IsFlash(g, m) && Active(g, m) == Some(lo)
    ensures View(g, m) == MapOf(PageScan(g, m, lo))
  {
  }

  /**
   Exactly when an update is atomic for `mm_get`. Where the new record can be stored at all and nothing collides,
   a read returns the old value or the new one after every cut, if and only if the value read before the call, if
   any, has at most 249 bytes.
   */
  lemma TearExactly(g: Geometry, m: seq<byte>, lo: nat, id: nat, data: seq<byte>)
    requires IsFlash(g, m) && Updates(g, m, lo, id, data)
    requires var e := New(g, m, lo, id, data);
             InSight(g, lo, e.at, |data|) && e.End() <= 2 * g.pageLen && Programmable(m, e.at, Encode(g, e))
    requires NeverPhantom(g, m, lo, id, data)
    ensures (forall k: nat :: OldOrNew(g, m, id, data, k)) <==>
            (ReadBack(g, m, id).Some? ==> |ReadBack(g, m, id).value| <= SHORT)
  {
    hide PageScan, Empty, SetPlan, Cut, ReadBack, Programmable, Encode, OldOrNew;
    if ReadBack(g, m, id).Some? ==> |ReadBack(g, m, id).value| <= SHORT {
      forall k: nat ensures OldOrNew(g, m, id, data, k) {
        ShortTear(g, m, lo, id, data, k);
      }
    } else {
      TornAt(g, m, lo, id, data, Total(AppendOps(g, m, lo, id, data)));
    }
  }

  lemma TornAt(g: Geometry, m: seq<byte>, lo: nat, id: nat, data: seq<byte>, k: nat)
    requires IsFlash(g, m) && Updates(g, m, lo, id, data) && k == Total(AppendOps(g, m, lo, id, data))
    requires var e := New(g, m, lo, id, data);
             InSight(g, lo, e.at, |data|) && e.End() <= 2 * g.pageLen && Programmable(m, e.at, Encode(g, e))
    requires NeverPhantom(g, m, lo, id, data)
    requires ReadBack(g, m, id).Some? && |ReadBack(g, m, id).value| > SHORT
    ensures !OldOrNew(g, m, id, data, k)
  {
    hide PageScan, Empty, SetPlan, AppendOps, Cut, ReadBack, Done, Programmable, Encode, View, Stuck, RepairOps, Active, Last,
         MapOf, Total, Keep;
    var s := PageScan(g, m, lo);
    ReadIs(g, m, id);
    ActiveView(g, m, lo);
    LastIsMap(s, id);
    NotStuckGoes(g, m, lo, id, k);
    SetTotals(g, m, lo, id, data);
    AppendGoes(g, m, lo, id, data, k);
    LongTear(g, m, lo, id, data, k);
  }

  /** Repairs that are not stuck get done if the supply lasts. */
  lemma NotStuckGoes(g: Geometry, m: seq<byte>, lo: nat, id: nat, k: nat)
    requires IsFlash(g, m) && Active(g, m) == Some(lo)
    ensures !Stuck(g, m, id) && Total(RepairOps(PageScan(g, m, lo), id)) <= k ==>
              Done(m, RepairOps(PageScan(g, m, lo), id), k, Chip(g))
    ensures Stuck(g, m, id) ==> !Done(m, RepairOps(PageScan(g, m, lo), id), k, Chip(g))
  {
    hide PageScan, RepairOps, Done, Keep, Total;
    RepairGoes(g, m, lo, id, k);
    KeepIn(PageScan(g, m, lo), id);
  }

  /** On a stuck id every search fails, and so do the calls that start with one. */
  lemma StuckFails(g: Geometry, m: seq<byte>, id: nat, data: seq<byte>, k: nat)
    requires IsFlash(g, m) && Stuck(g, m, id)
    ensures !Done(m, GetPlan(g, m, id).ops, k, Chip(g))
    ensures !(SetPlan(g, m, id, data).verdict && Done(m, SetPlan(g, m, id, data).ops, k, Chip(g)))
    ensures !(InvalidatePlan(g, m, id).verdict && Done(m, InvalidatePlan(g, m, id).ops, k, Chip(g)))
  {
    hide PageScan, RepairOps, UpdateOps, Done, Cut, Spent, Total, Last, Empty, Clogged;
    var lo := Active(g, m).value;
    var s := PageScan(g, m, lo);
    NotStuckGoes(g, m, lo, id, k);
    HaltsAt(m, RepairOps(s, id), UpdateOps(g, Empty(g, m, lo), id, data, Last(s, id)), k, Chip(g));
    if Last(s, id).Some? {
      var e := Last(s, id).value;
      HaltsAt(m, RepairOps(s, id), [Zero(e.at, HEADER_LEN + |e.data|)], k, Chip(g));
    }
  }

  /** Two copies, in the order of the log, of which the first is too long. */
  ghost predicate LongPair(s: seq<Entry>, id: nat) {
    exists i, j :: 0 <= i < j < |s| && s[i].id == id && s[j].id == id && |s[i].data| > SHORT
  }

  lemma CloggedIsPair(s: seq<Entry>, o: nat, id: nat)
    requires InOrder(s, o)
    ensures Clogged(s, id) <==> LongPair(s, id)
  {
    if Clogged(s, id) {
      var e :| e in s && e.id == id && Last(s, id) != Some(e) && |e.data| > SHORT;
      LastHighest(s, o, e);
      var i :| 0 <= i < |s| && s[i] == e;
      var j :| 0 <= j < |s| && s[j] == Last(s, id).value;
      if j < i { Ordered(s, o, j, i); }
    }
    if LongPair(s, id) {
      var i, j :| 0 <= i < j < |s| && s[i].id == id && s[j].id == id && |s[i].data| > SHORT;
      Ordered(s, o, i, j);
      LastHighest(s, o, s[j]);
    }
  }

  lemma PairMoved(s: seq<Entry>, o: nat, id: nat)
    ensures LongPair(Moved(s, o), id) <==> LongPair(s, id)
  {
    var t := Moved(s, o);
    if LongPair(s, id) {
      var i, j :| 0 <= i < j < |s| && s[i].id == id && s[j].id == id && |s[i].data| > SHORT;
      assert t[i].id == id && t[j].id == id;
    }
  }

  /** Wherever a page turn is cut, every read returns what it would have before; a stuck id stays stuck. */
  lemma TurnReads(g: Geometry, m: seq<byte>, lo: nat, k: nat)
    requires IsFlash(g, m) && Active(g, m) == Some(lo) && Fits(g, m, lo)
    ensures forall j: nat :: Alike(g, m, Cut(m, TurnPlan(g, m).ops, k, Chip(g)), j)
  {
    hide PageScan, TurnPlan, Cut, ReadBack, Active, Packed, Fits, View;
    var n := Cut(m, TurnPlan(g, m).ops, k, Chip(g));
    TurnSurvives(g, m, lo, k);
    SurvivesReads(g, m, lo, n);
    forall j: nat ensures Alike(g, m, n, j) {
      SurvivesStuck(g, m, lo, n, j);
      ReadIs(g, m, j);
      ReadIs(g, n, j);
    }
  }

  lemma SurvivesStuck(g: Geometry, m: seq<byte>, lo: nat, n: seq<byte>, id: nat)
    requires IsFlash(g, m) && Active(g, m) == Some(lo) && Fits(g, m, lo) && Survives(g, m, lo, n)
    ensures Stuck(g, n, id) <==> Stuck(g, m, id)
  {
    hide PageScan, Active, Packed, Fits, Clogged, LongPair, Moved;
    if Active(g, n) == Some(lo) && Same(m, n, First(lo), PageTop(g, lo)) {
      SamePage(g, m, n, lo);
    } else {
      var s := PageScan(g, m, lo);
      PackedScan(g, m, lo, n);
      PageInOrder(g, m, lo);
      CloggedIsPair(s, First(lo), id);
      MovedOrder(s, First(Passive(g, lo)));
      CloggedIsPair(Moved(s, First(Passive(g, lo))), First(Passive(g, lo)), id);
      PairMoved(s, First(Passive(g, lo)), id);
    }
  }

  /** After a format nothing is read. */
  lemma EmptyReads(g: Geometry, n: seq<byte>)
    requires IsFlash(g, n) && View(g, n) == map[]
    ensures forall j: nat :: ReadBack(g, n, j) == None
  {
  }

  /** Ids that an invalidation is not for read as before, wherever it is cut. */
  lemma InvalidateOthers(g: Geometry, m: seq<byte>, lo: nat, id: nat, k: nat, j: nat)
    requires IsFlash(g, m) && Active(g, m) == Some(lo) && Last(PageScan(g, m, lo), id).Some? && j != id
    requires NoPhantom(g, m, Cut(m, InvalidatePlan(g, m, id).ops, k, Chip(g)), lo, None)
    ensures Alike(g, m, Cut(m, InvalidatePlan(g, m, id).ops, k, Chip(g)), j)
  {
    hide PageScan, InvalidatePlan, Cut, Stored, ReadBack, Active, Clogged, Last;
    var n := Cut(m, InvalidatePlan(g, m, id).ops, k, Chip(g));
    InvalidateFrame(g, m, lo, id, k);
    PageInOrder(g, m, lo);
    forall e: Entry | e.id == j && e in PageScan(g, m, lo) ensures e in PageScan(g, n, lo) {
      NotInvalidated(g, m, lo, id, k, e);
      StillFound(g, m, n, lo, PageScan(g, m, lo), e);
    }
    SameCopies(g, m, n, lo, j);
  }

  /** Once its repairs are done, an invalidation leaves at most the last copy. */
  lemma InvalidateOwn(g: Geometry, m: seq<byte>, lo: nat, id: nat, k: nat)
    requires IsFlash(g, m) && Active(g, m) == Some(lo) && Last(PageScan(g, m, lo), id).Some?
    requires Done(m, RepairOps(PageScan(g, m, lo), id), k, Chip(g))
    requires NoPhantom(g, m, Cut(m, InvalidatePlan(g, m, id).ops, k, Chip(g)), lo, None)
    ensures var n := Cut(m, InvalidatePlan(g, m, id).ops, k, Chip(g));
            !Stuck(g, n, id) && (ReadBack(g, n, id) == None || Alike(g, m, n, id))
  {
    hide PageScan, InvalidatePlan, Cut, RepairOps, ReadBack, Active, Done, Clogged, Last, MapOf;
    var s := PageScan(g, m, lo);
    var p := Last(s, id).value;
    var n := Cut(m, InvalidatePlan(g, m, id).ops, k, Chip(g));
    InvalidateFrame(g, m, lo, id, k);
    forall x | x in PageScan(g, n, lo) && x.id == id ensures x == p {
      if x != p {
        InvalidatedShadow(g, m, lo, id, k, x);
      }
    }
    OneCopy(PageScan(g, n, lo), id, p);
    RepairedFree(g, m, lo, id, k);
    ReadIs(g, m, id);
    ReadIs(g, n, id);
    ActiveView(g, m, lo);
    ActiveView(g, n, lo);
    LastIsMap(s, id);
    LastIsMap(PageScan(g, n, lo), id);
  }

  lemma InvalidatedShadow(g: Geometry, m: seq<byte>, lo: nat, id: nat, k: nat, e: Entry)
    requires IsFlash(g, m) && Active(g, m) == Some(lo) && Done(m, RepairOps(PageScan(g, m, lo), id), k, Chip(g))
    requires e in PageScan(g, m, lo) && e.id == id
    requires Last(PageScan(g, m, lo), id).Some? && Last(PageScan(g, m, lo), id) != Some(e)
    ensures e !in PageScan(g, Cut(m, InvalidatePlan(g, m, id).ops, k, Chip(g)), lo)
  {
    hide PageScan, Cut, RepairOps, Done, Spent, Zeroed, Last, Total;
    var s := PageScan(g, m, lo);
    var p := Last(s, id).value;
    CutSnoc(m, RepairOps(s, id), Zero(p.at, HEADER_LEN + |p.data|), k, Chip(g));
    ShadowGone(g, m, lo, id, k, e);
    PageInOrder(g, m, lo);
    Disjoint(s, First(lo), e, p);
    ZeroedFrame(Cut(m, RepairOps(s, id), k, Chip(g)), Cut(m, InvalidatePlan(g, m, id).ops, k, Chip(g)), e.at, e.End());
    ZeroedNotFound(g, Cut(m, InvalidatePlan(g, m, id).ops, k, Chip(g)), lo, e);
  }

  /**
   Atomic invalidation. Wherever an invalidation is cut, every other id reads as before, and the id itself reads as
   before or is gone; after a completed call it is gone.
   */
  lemma InvalidateReads(g: Geometry, m: seq<byte>, lo: nat, id: nat, k: nat)
    requires IsFlash(g, m) && Active(g, m) == Some(lo)
    requires NoPhantom(g, m, Cut(m, InvalidatePlan(g, m, id).ops, k, Chip(g)), lo, None)
    ensures var p := InvalidatePlan(g, m, id);
            var n := Cut(m, p.ops, k, Chip(g));
            && (forall j: nat :: j != id ==> Alike(g, m, n, j))
            && (Alike(g, m, n, id) || (ReadBack(g, n, id) == None && !Stuck(g, m, id) && !Stuck(g, n, id)))
            && (p.verdict && Done(m, p.ops, k, Chip(g)) ==> ReadBack(g, n, id) == None)
  {
    hide PageScan, Cut, RepairOps, ReadBack, Active, Done, Spent, Last, Alike, Stuck, Total;
    var s := PageScan(g, m, lo);
    var p := InvalidatePlan(g, m, id);
    var n := Cut(m, p.ops, k, Chip(g));
    if Last(s, id).None? {
      SearchReads(g, m, lo, id, k);
    } else {
      var e := Last(s, id).value;
      CutSnoc(m, RepairOps(s, id), Zero(e.at, HEADER_LEN + |e.data|), k, Chip(g));
      forall j: nat | j != id ensures Alike(g, m, n, j) {
        InvalidateOthers(g, m, lo, id, k, j);
      }
      if Done(m, RepairOps(s, id), k, Chip(g)) {
        InvalidateOwn(g, m, lo, id, k);
        RepairedFree(g, m, lo, id, k);
        if Done(m, p.ops, k, Chip(g)) {
          InvalidateSteady(g, m, lo, id, k);
          ReadIs(g, n, id);
        }
      } else {
        SearchReads(g, m, lo, id, k);
      }
    }
  }
}
