/** Invalidation: harmless to the map, but fatal for later updates when it hits the last record of the log. */
module Invalidation {
  import opened Bytes
  import opened NorFlash
  import opened Records
  import opened Store
  import opened StoreSteps
  import opened Copies
  import opened StoreLaws
  import opened TurnLaws
  import opened TidyStore
  import opened TidyOps
  import opened Steady
  import opened Reads
  import opened Runs
  import opened MildRuns

  /** Calm dead bytes followed by erased flash match no header, but for one offset, two bytes before the erased flash. */
  lemma DeadMatch(m: seq<byte>, a: nat, z: nat, hi: nat, x: nat)
    requires a <= z <= hi <= |m| && Calm(m[a..z]) && Blank(m, z, hi) && a <= x && x + 3 < hi
    ensures MatchAt(m, x) ==> x + 2 == z
  {
    var gap := m[a..z];
    if x + 3 < z {
      assert MatchAt(gap, x - a) <==> MatchAt(m, x);
    } else if x < z {
      assert gap[|gap| - 1] == m[z - 1] && gap[|gap| - 3] == m[z - 3];
    }
  }

  /** There erased flash reads as the header of id 0 with the length 0xFFFF, which only longer pages can hold. */
  lemma CalmThenBlank(m: seq<byte>, a: nat, z: nat, hi: nat, x: nat)
    requires hi + SPILL <= |m| && a <= z <= hi && Calm(m[a..z]) && Blank(m, z, hi)
    requires a <= x
    ensures Claims(m, x, hi) ==> x + 2 == z && hi - x > 0xFFFF
  {
    hide MatchAt, Calm;
    if x + MIN_FILE_LEN < hi {
      MatchBytes(m, x);
      DeadMatch(m, a, z, hi, x);
      if x + 2 == z {
        assert U16(m, x + 4) == 0xFFFF;
      }
    }
  }

  /** The erased flash from `z` on passes for the rest of a record whose header starts two bytes before. */
  predicate BlankRecord(g: Geometry, n: seq<byte>, z: nat, hi: nat)
    requires hi + SPILL <= |n|
  {
    z >= 2 && IsRecord(g.crc, n, z - 2, hi)
  }

  /**
   When it does: never with 65533 bytes left or less; with 65540 or more, exactly if the CRC of 65535 erased bytes
   is that of erased flash.
   */
  lemma BlankRecordIs(g: Geometry, n: seq<byte>, z: nat, hi: nat)
    requires 2 <= z <= hi && hi + SPILL <= |n| && n[z - 2] == n[z - 1] == 0 && Blank(n, z, hi)
    ensures hi - z <= 0xFFFD ==> !BlankRecord(g, n, z, hi)
    ensures hi - z >= 0x10004 ==> (BlankRecord(g, n, z, hi) <==> g.crc(seq(0xFFFF, _ => ERASED)) == ERASED)
  {
    if z - 2 + MIN_FILE_LEN < hi {
      assert U16(n, z + 2) == 0xFFFF && U16(n, z) == 0xFFFF && U16(n, z - 2) == 0;
    }
    if hi - z >= 0x10004 {
      assert EntryAt(n, z - 2).data == seq(0xFFFF, _ => ERASED);
    }
  }

  lemma LastLive(g: Geometry, m: seq<byte>, n: seq<byte>, lo: nat, s: seq<Entry>)
    requires IsFlash(g, m) && |n| == |m| && Tidy(g, m, lo, s) && s != []
    requires Same(m, n, 0, s[|s| - 1].at)
    ensures Live(g.crc, n, First(lo), s[..|s| - 1], lo + g.pageLen)
    ensures forall e :: e in s[..|s| - 1] ==> e.End() <= lo + g.pageLen
  {
    hide Neat, Stored, Tidy;
    var j := |s| - 1;
    var t := s[..j];
    TidyAt(g, m, lo, s, j);
    TidyOrder(g, m, lo, s);
    OrderPrefix(s, First(lo), j);
    forall i | 0 <= i < |t| ensures Stored(g.crc, n, t[i], lo + g.pageLen) && t[i].End() <= lo + g.pageLen {
      TidyAt(g, m, lo, s, i);
      TidyPair(g, m, lo, s, i, j);
      StoredFrame(g.crc, m, n, s[i], lo + g.pageLen);
    }
  }

  /** The flash after header and payload of `e` are zeroed. */
  function Killed(m: seq<byte>, e: Entry): (n: seq<byte>)
    ensures |n| == |m| && Same(m, n, 0, e.at) && Same(m, n, e.End(), |m|)
  {
    Apply(m, Zero(e.at, HEADER_LEN + |e.data|), HEADER_LEN + |e.data|)
  }

  /** A dead stretch from `b` to `z`, calm and starting with zeros, then erased flash. */
  predicate DeadEnd(n: seq<byte>, b: nat, z: nat, hi: nat) {
    && b + MARK_LEN <= z <= hi <= |n| && Calm(n[b..z]) && Blank(n, z, hi)
    && forall x :: b <= x < b + MARK_LEN ==> n[x] == 0
  }

  /**
   After the last record is invalidated the scan ends where that record, or the dead bytes before it, began, if and
   only if the erased flash after it does not pass for a record.
   */
  lemma LastGone(g: Geometry, m: seq<byte>, lo: nat, s: seq<Entry>)
    requires IsFlash(g, m) && Tidy(g, m, lo, s) && s != []
    ensures var j := |s| - 1;
            var n := Killed(m, s[j]);
            && Active(g, n) == Some(lo)
            && (PageScan(g, n, lo) == s[..j] <==> !BlankRecord(g, n, s[j].End(), lo + g.pageLen))
            && DeadEnd(n, Bound(s, First(lo), j), s[j].End(), lo + g.pageLen)
  {
    hide Neat, Stored, IsRecord, Calm, Mild, PageScan, Tidy, Live, Killed, DeadEnd, BlankRecord;
    var j := |s| - 1;
    var n := Killed(m, s[j]);
    var t := s[..j];
    var hi := lo + g.pageLen;
    TidyAt(g, m, lo, s, j);
    TidyActive(g, m, lo, s);
    ActiveKept(g, m, n, lo);
    LastLive(g, m, n, lo, s);
    LastGap(g, m, lo, s);
    PageExact(g, n, lo, t);
    BlankIsDead(g, n, lo, s);
    if !BlankRecord(g, n, s[j].End(), hi) {
      forall i, x | 0 <= i <= |t| && Bound(t, First(lo), i) <= x < Limit(t, hi, i) ensures !IsRecord(g.crc, n, x, hi) {
        LastQuiet(g, m, lo, s, i, x);
      }
    }
  }

  /** A header two bytes before the end of the last record would be at a dead offset. */
  lemma BlankIsDead(g: Geometry, n: seq<byte>, lo: nat, s: seq<Entry>)
    requires IsFlash(g, n) && lo <= g.pageLen && s != [] && s[|s| - 1].End() <= lo + g.pageLen
    requires Bound(s, First(lo), |s| - 1) <= s[|s| - 1].at
    ensures BlankRecord(g, n, s[|s| - 1].End(), lo + g.pageLen) ==>
              !Quiet(g.crc, n, First(lo), s[..|s| - 1], lo + g.pageLen)
  {
    hide IsRecord;
    var t := s[..|s| - 1];
    var x := s[|s| - 1].End() - 2;
    assert Bound(t, First(lo), |t|) <= x < Limit(t, lo + g.pageLen, |t|);
  }

  /** Nothing else that is left between the records, or after them, is one. */
  lemma LastQuiet(g: Geometry, m: seq<byte>, lo: nat, s: seq<Entry>, i: nat, x: nat)
    requires IsFlash(g, m) && Tidy(g, m, lo, s) && s != [] && i < |s| && lo <= g.pageLen
    requires Bound(s, First(lo), i) <= x < (if i < |s| - 1 then s[i].at else lo + g.pageLen)
    requires !BlankRecord(g, Killed(m, s[|s| - 1]), s[|s| - 1].End(), lo + g.pageLen)
    ensures !IsRecord(g.crc, Killed(m, s[|s| - 1]), x, lo + g.pageLen)
  {
    hide Neat, Stored, Calm, Mild, Tidy, Killed, Claims;
    var j := |s| - 1;
    var n := Killed(m, s[j]);
    TidyAt(g, m, lo, s, i);
    if i < j {
      TidyPair(g, m, lo, s, i, j);
      NeatGap(g, m, n, Bound(s, First(lo), i), s[i], lo + g.pageLen, x);
    } else {
      LastGap(g, m, lo, s);
      CalmThenBlank(n, Bound(s, First(lo), j), s[j].End(), lo + g.pageLen, x);
    }
  }

  lemma NeatGap(g: Geometry, m: seq<byte>, n: seq<byte>, b: nat, e: Entry, hi: nat, x: nat)
    requires hi + SPILL <= |m| && Neat(g, m, b, e, hi) && Same(m, n, b, e.End()) && b <= x < e.at
    ensures !Claims(n, x, hi)
  {
    NeatFrame(g, m, n, b, e, hi);
    CalmClaims(g, n, b, e, hi, x);
  }

  lemma CalmStart(n: seq<byte>, b: nat, z: nat)
    requires b < z <= |n| && Calm(n[b..z])
    ensures b + MARK_LEN <= z && forall x :: b <= x < b + MARK_LEN ==> n[x] == 0
  {
    var gap := n[b..z];
    forall x | b <= x < b + MARK_LEN ensures n[x] == 0 {
      assert gap[x - b] == n[x] && (x - b == 0 || x - b == 1 || x - b == 2 || x - b == 3);
    }
  }

  lemma LastCalm(g: Geometry, m: seq<byte>, b: nat, e: Entry, hi: nat)
    requires hi + SPILL <= |m| && Neat(g, m, b, e, hi)
    ensures b <= e.at && Calm(Killed(m, e)[b..e.End()])
  {
    hide Calm, Stored, Mild;
    var n := Killed(m, e);
    DeadIsCalm(g, m, n, e, HEADER_LEN + |e.data|, hi);
    assert n[b..e.at] == m[b..e.at];
    CalmConcat(n[b..e.at], n[e.at..e.End()]);
    assert n[b..e.End()] == n[b..e.at] + n[e.at..e.End()];
  }

  lemma TidyTail(g: Geometry, m: seq<byte>, lo: nat, s: seq<Entry>)
    requires IsFlash(g, m) && Tidy(g, m, lo, s) && s != []
    ensures Blank(Killed(m, s[|s| - 1]), s[|s| - 1].End(), lo + g.pageLen)
  {
    hide NeatAt, Killed;
  }

  /** The dead stretch a killed last record leaves. */
  lemma LastGap(g: Geometry, m: seq<byte>, lo: nat, s: seq<Entry>)
    requires IsFlash(g, m) && Tidy(g, m, lo, s) && s != []
    ensures var e := s[|s| - 1]; DeadEnd(Killed(m, e), Bound(s, First(lo), |s| - 1), e.End(), lo + g.pageLen)
  {
    hide Stored, Mild, NeatAt, Killed, Calm, Neat, Tidy;
    var e := s[|s| - 1];
    var b := Bound(s, First(lo), |s| - 1);
    TidyAt(g, m, lo, s, |s| - 1);
    LastCalm(g, m, b, e, lo + g.pageLen);
    CalmStart(Killed(m, e), b, e.End());
    TidyTail(g, m, lo, s);
  }

  lemma KilledIs(c: seq<byte>, e: Entry, k: nat)
    requires HEADER_LEN + |e.data| <= k
    ensures Apply(c, Zero(e.at, HEADER_LEN + |e.data|), k) == Killed(c, e)
  {
  }

  /** An invalidation that hits the last record: the last of the records that the repairs leave is zeroed. */
  lemma KillIs(g: Geometry, m: seq<byte>, lo: nat, s: seq<Entry>, id: nat, k: nat) returns (c: seq<byte>)
    requires IsFlash(g, m) && Tidy(g, m, lo, s) && s != [] && s[|s| - 1].id == id
    requires Done(m, InvalidatePlan(g, m, id).ops, k, Chip(g))
    ensures var e := s[|s| - 1];
            && |e.data| <= 249 && IsFlash(g, c) && Tidy(g, c, lo, Keep(s, id))
            && Cut(m, InvalidatePlan(g, m, id).ops, k, Chip(g)) == Killed(c, e)
  {
    hide Tidy, Cut, Done, Spent, RepairOps, PageScan, Keep, Apply, Total, Takes, Killed, Fits, Bound, Last;
    var ops := RepairOps(s, id);
    var e := s[|s| - 1];
    TidyActive(g, m, lo, s);
    TidyScan(g, m, lo, s);
    KeepLast(s, id);
    CutSnoc(m, ops, Zero(e.at, HEADER_LEN + |e.data|), k, Chip(g));
    var u := TidySearch(g, m, lo, s, id, k);
    c := Cut(m, ops, k, Chip(g));
    KilledIs(c, e, k - Total(ops));
  }

  /** The page after an invalidation that hits the last record. */
  lemma KilledLast(g: Geometry, m: seq<byte>, lo: nat, s: seq<Entry>, id: nat, k: nat)
    requires IsFlash(g, m) && Tidy(g, m, lo, s) && s != [] && s[|s| - 1].id == id
    requires Done(m, InvalidatePlan(g, m, id).ops, k, Chip(g))
    ensures var n := Cut(m, InvalidatePlan(g, m, id).ops, k, Chip(g));
            && Active(g, n) == Some(lo)
            && (PageScan(g, n, lo) == Without(s, id) <==> !BlankRecord(g, n, s[|s| - 1].End(), lo + g.pageLen))
            && DeadEnd(n, Bound(Without(s, id), First(lo), |Without(s, id)|), s[|s| - 1].End(), lo + g.pageLen)
  {
    hide Tidy, Cut, Done, InvalidatePlan, PageScan, Keep, Without, Killed, Active, DeadEnd, BlankRecord;
    var c := KillIs(g, m, lo, s, id, k);
    KeepLast(s, id);
    LastGone(g, c, lo, Keep(s, id));
  }

  /** What an invalidation that reports success would have to leave for the erased flash to pass for a record. */
  predicate LeavesBlankRecord(g: Geometry, m: seq<byte>, lo: nat, s: seq<Entry>, id: nat, k: nat)
    requires IsFlash(g, m) && lo <= g.pageLen && s != []
  {
    BlankRecord(g, Cut(m, InvalidatePlan(g, m, id).ops, k, Chip(g)), s[|s| - 1].End(), lo + g.pageLen)
  }

  /**
   After the last record of a tidy page is invalidated, the scan reports exactly the records of the other ids, if
   and only if the erased flash does not pass for a record; it never does on pages of at most 65535 bytes, and on
   others, with 65540 bytes left, exactly if the CRC of 65535 erased bytes is that of erased flash.
   */
  lemma LastInvalidated(g: Geometry, m: seq<byte>, lo: nat, s: seq<Entry>, id: nat, k: nat)
    requires IsFlash(g, m) && lo <= g.pageLen && Tidy(g, m, lo, s) && s != [] && s[|s| - 1].id == id
    requires Done(m, InvalidatePlan(g, m, id).ops, k, Chip(g))
    ensures var n := Cut(m, InvalidatePlan(g, m, id).ops, k, Chip(g));
            var left := lo + g.pageLen - s[|s| - 1].End();
            && (PageScan(g, n, lo) == Without(s, id) <==> !LeavesBlankRecord(g, m, lo, s, id, k))
            && (g.pageLen <= 0xFFFF ==> !LeavesBlankRecord(g, m, lo, s, id, k))
            && (left >= 0x10004 ==> (LeavesBlankRecord(g, m, lo, s, id, k) <==> g.crc(seq(0xFFFF, _ => ERASED)) == ERASED))
  {
    hide Tidy, Cut, Done, InvalidatePlan, PageScan, Without, BlankRecord, Calm, Stored, Keep, Killed, DeadEnd, Blank, Neat, Bound;
    var n := Cut(m, InvalidatePlan(g, m, id).ops, k, Chip(g));
    KilledLast(g, m, lo, s, id, k);
    var c := KillIs(g, m, lo, s, id, k);
    TidyAt(g, m, lo, s, |s| - 1);
    KilledBlank(g, c, s[|s| - 1], Bound(Without(s, id), First(lo), |Without(s, id)|), lo + g.pageLen);
  }

  lemma KilledBlank(g: Geometry, c: seq<byte>, e: Entry, b: nat, hi: nat)
    requires hi + SPILL <= |c| && DeadEnd(Killed(c, e), b, e.End(), hi)
    ensures var n := Killed(c, e);
            && (hi - e.End() <= 0xFFFD ==> !BlankRecord(g, n, e.End(), hi))
            && (hi - e.End() >= 0x10004 ==> (BlankRecord(g, n, e.End(), hi) <==> g.crc(seq(0xFFFF, _ => ERASED)) == ERASED))
  {
    hide BlankRecord, Calm, Killed;
    EndsInZeros(c, e);
    BlankRecordIs(g, Killed(c, e), e.End(), hi);
  }

  lemma EndsInZeros(m: seq<byte>, e: Entry)
    requires e.End() <= |m|
    ensures Killed(m, e)[e.End() - 1] == 0 && Killed(m, e)[e.End() - 2] == 0
  {
    AndByte(m[e.End() - 1]);
    AndByte(m[e.End() - 2]);
  }

  lemma KeepLast(s: seq<Entry>, id: nat)
    requires s != [] && s[|s| - 1].id == id
    ensures var u := Keep(s, id);
            u != [] && u[|u| - 1] == s[|s| - 1] && u[..|u| - 1] == Without(s, id) && Last(s, id) == Some(s[|s| - 1])
  {
  }

  /**
   When an invalidation leaves a log that can still grow. On a tidy store, after an invalidation that reports
   success, the id is gone from the map; the flash from the end of the log on is erased if and only if the id was
   not that of the last record, and starts with zeros otherwise; given, in that case, that the erased flash does not
   pass for a record.
   */
  lemma InvalidateExact(g: Geometry, m: seq<byte>, lo: nat, s: seq<Entry>, id: nat, k: nat)
    requires IsFlash(g, m) && Tidy(g, m, lo, s) && Last(s, id).Some?
    requires k == Total(InvalidatePlan(g, m, id).ops) && Done(m, InvalidatePlan(g, m, id).ops, k, Chip(g))
    requires lo <= g.pageLen && s != [] && (s[|s| - 1].id == id ==> !LeavesBlankRecord(g, m, lo, s, id, k))
    ensures var n := Cut(m, InvalidatePlan(g, m, id).ops, k, Chip(g));
            && Active(g, n) == Some(lo)
            && View(g, n) == View(g, m) - {id}
            && (Blank(n, Empty(g, n, lo), lo + g.pageLen) <==> s[|s| - 1].id != id)
            && (s[|s| - 1].id == id ==>
                  Empty(g, n, lo) + MARK_LEN <= |n|
                  && forall x :: Empty(g, n, lo) <= x < Empty(g, n, lo) + MARK_LEN ==> n[x] == 0)
  {
    hide Tidy, Cut, Done, InvalidatePlan, PageScan, MapOf, Fits, NoPhantom, Ready, Without, LeavesBlankRecord, Calm;
    var n := Cut(m, InvalidatePlan(g, m, id).ops, k, Chip(g));
    TidyScan(g, m, lo, s);
    TidyActive(g, m, lo, s);
    TidyBlank(g, m, lo, s);
    if s[|s| - 1].id != id {
      GentleInvalidate(g, m, lo, s, id);
      InvalidateSteady(g, m, lo, id, k);
    } else {
      KilledLast(g, m, lo, s, id, k);
      LastInvalidated(g, m, lo, s, id, k);
      WithoutMap(s, id);
      assert n[Empty(g, n, lo)] == 0;
    }
  }

  /**
   Invalidating the last record and then storing. Whatever is stored next, on a device that does not read its
   writes back the call reports success and the value cannot be found; on one that does the call fails.
   */
  lemma InvalidateThenSet(g: Geometry, m: seq<byte>, lo: nat, s: seq<Entry>, id: nat, k: nat, other: nat, data: seq<byte>,
                          j: nat)
    requires IsFlash(g, m) && Tidy(g, m, lo, s) && s != [] && s[|s| - 1].id == id
    requires lo <= g.pageLen && !LeavesBlankRecord(g, m, lo, s, id, k)
    requires k == Total(InvalidatePlan(g, m, id).ops) && Done(m, InvalidatePlan(g, m, id).ops, k, Chip(g))
    requires var n := Cut(m, InvalidatePlan(g, m, id).ops, k, Chip(g));
             Updates(g, n, lo, other, data) && j >= Total(SetPlan(g, n, other, data).ops)
    ensures var n := Cut(m, InvalidatePlan(g, m, id).ops, k, Chip(g));
            var done := Done(n, SetPlan(g, n, other, data).ops, j, Chip(g));
            && (g.verify ==> !done)
            && (done ==> SetPlan(g, n, other, data).verdict &&
                         New(g, n, lo, other, data) !in PageScan(g, Cut(n, SetPlan(g, n, other, data).ops, j, Chip(g)), lo))
  {
    hide Tidy, Cut, Done, InvalidatePlan, Empty, PageScan, MapOf, SetPlan, Programmable, Encode, View, RepairOps, Updates;
    var n := Cut(m, InvalidatePlan(g, m, id).ops, k, Chip(g));
    KeepLast(s, id);
    InvalidateExact(g, m, lo, s, id, k);
    SetGoes(g, n, lo, other, data, j);
    if New(g, n, lo, other, data).End() <= |n| {
      ZerosTakeNothing(g, n, New(g, n, lo, other, data));
    }
    if Done(n, SetPlan(g, n, other, data).ops, j, Chip(g)) {
      UpdateLost(g, n, lo, other, data, j);
    }
  }

  /**
   Where the bytes at the end of the log cannot be programmed to the new record, an update that reports
   success has stored nothing the scan can find.
   */
  lemma UpdateLost(g: Geometry, n: seq<byte>, lo: nat, id: nat, data: seq<byte>, k: nat)
    requires IsFlash(g, n) && Updates(g, n, lo, id, data) && Done(n, SetPlan(g, n, id, data).ops, k, Chip(g))
    requires var e := New(g, n, lo, id, data); e.End() <= |n| ==> !Programmable(n, e.at, Encode(g, e))
    ensures SetPlan(g, n, id, data).verdict
    ensures New(g, n, lo, id, data) !in PageScan(g, Cut(n, SetPlan(g, n, id, data).ops, k, Chip(g)), lo)
  {
    hide Cut, Done, SetPlan, PageScan, Empty, Encode, Programmable;
    SetPlanIs(g, n, lo, id, data);
    if New(g, n, lo, id, data) in PageScan(g, Cut(n, SetPlan(g, n, id, data).ops, k, Chip(g)), lo) {
      FoundProgrammable(g, n, lo, id, data, k);
    }
  }

  /** Four zero bytes take no header: id and inverted id are never both zero. */
  lemma ZerosTakeNothing(g: Geometry, n: seq<byte>, e: Entry)
    requires e.End() <= |n| && forall x :: e.at <= x < e.at + MARK_LEN ==> n[x] == 0
    ensures !Programmable(n, e.at, Encode(g, e))
  {
    assert Encode(g, e)[0] as int + Encode(g, e)[2] as int == 0xFF;
    assert And(n[e.at], Encode(g, e)[0]) == 0 && And(n[e.at + 2], Encode(g, e)[2]) == 0;
  }
}
