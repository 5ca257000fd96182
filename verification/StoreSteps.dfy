/** What the flash looks like while the operations of a call are under way. */
module StoreSteps {
  import opened Bytes
  import opened NorFlash
  import opened Records
  import opened Store

  /** A page stays the active one as long as nothing up to its own mark changes. */
  lemma ActiveKept(g: Geometry, m: seq<byte>, n: seq<byte>, lo: nat)
    requires IsFlash(g, m) && IsFlash(g, n) && Active(g, m) == Some(lo)
    requires forall x :: 0 <= x < First(lo) ==> n[x] == m[x]
    ensures Active(g, n) == Some(lo)
  {
    assert n[0..MARK_LEN] == m[0..MARK_LEN];
    assert n[lo..lo + MARK_LEN] == m[lo..lo + MARK_LEN];
  }

  /** A record of the scan is where the scan says it is, after all earlier records. */
  lemma ScanEntry(g: Geometry, m: seq<byte>, lo: nat, j: nat)
    requires IsFlash(g, m) && lo <= g.pageLen && j < |PageScan(g, m, lo)|
    ensures var s := PageScan(g, m, lo);
            && First(lo) <= Bound(s, First(lo), j) <= s[j].at
            && s[j].at + MIN_FILE_LEN < lo + g.pageLen && s[j].End() <= FlashLen(g)
            && Holds(m, s[j]) && IsRecord(g.crc, m, s[j].at, lo + g.pageLen)
  {
    ScanIsLive(g.crc, m, First(lo), lo + g.pageLen);
    var s := PageScan(g, m, lo);
    assert Bound(s, First(lo), j) <= s[j].at;
  }

  lemma PageInOrder(g: Geometry, m: seq<byte>, lo: nat)
    requires IsFlash(g, m) && lo <= g.pageLen
    ensures InOrder(PageScan(g, m, lo), First(lo))
  {
    ScanIsLive(g.crc, m, First(lo), lo + g.pageLen);
  }

  /** The last copy among the first `j` records ends before record `j` starts. */
  lemma LastBefore(g: Geometry, m: seq<byte>, lo: nat, j: nat, id: nat)
    requires IsFlash(g, m) && lo <= g.pageLen && j <= |PageScan(g, m, lo)|
    ensures var s := PageScan(g, m, lo);
            var r := Last(s[..j], id);
            r.Some? ==> First(lo) <= r.value.at && r.value.End() <= Bound(s, First(lo), j)
                        && (j < |s| ==> r.value.End() <= s[j].at)
                        && Holds(m, r.value)
  {
    hide Last, PageScan;
    var s := PageScan(g, m, lo);
    var r := Last(s[..j], id);
    if r.Some? {
      var i :| 0 <= i < j && s[i] == r.value;
      ScanEntry(g, m, lo, i);
      PageInOrder(g, m, lo);
      if i < j - 1 {
        Ordered(s, First(lo), i, j - 1);
      }
      if j < |s| {
        Ordered(s, First(lo), i, j);
      }
    }
  }

  /** One more scanned record adds at most one repair. */
  lemma RepairStep(s: seq<Entry>, j: nat, id: nat)
    requires j < |s|
    ensures RepairOps(s[..j + 1], id) ==
            if s[j].id == id && Last(s[..j], id).Some?
            then RepairOps(s[..j], id) + [Zero(Last(s[..j], id).value.at, HEADER_LEN + |Last(s[..j], id).value.data|)]
            else RepairOps(s[..j], id)
    ensures Last(s[..j + 1], id) == if s[j].id == id then Some(s[j]) else Last(s[..j], id)
  {
    assert s[..j + 1][..j] == s[..j];
  }

  /** An operation changes nothing outside its range. */
  lemma ApplyOutside(m: seq<byte>, op: Op, k: nat, a: nat, b: nat)
    requires b <= op.addr || op.addr + Cost(op) <= a
    ensures Same(m, Apply(m, op, k), a, b)
  {
  }

  lemma WithinSnoc(ops: seq<Op>, op: Op, a: nat, b: nat, top: nat)
    requires ops == [] || Within(ops, a, b)
    requires b <= top && a <= op.addr && op.addr + Cost(op) <= top
    ensures Within(ops + [op], a, top)
  {
  }

  /** Repairs only touch bytes between the page mark and the last copy. */
  lemma {:induction false} RepairWithin(g: Geometry, m: seq<byte>, lo: nat, j: nat, id: nat)
    requires IsFlash(g, m) && lo <= g.pageLen && j <= |PageScan(g, m, lo)|
    ensures var s := PageScan(g, m, lo);
            var r := Last(s[..j], id);
            if r.None? then RepairOps(s[..j], id) == []
            else Within(RepairOps(s[..j], id), First(lo), r.value.at)
  {
    hide PageScan, RepairOps, Last;
    var s := PageScan(g, m, lo);
    RepairNone(s, id);
    if j > 0 {
      RepairWithin(g, m, lo, j - 1, id);
      RepairStep(s, j - 1, id);
      LastBefore(g, m, lo, j - 1, id);
      var p := Last(s[..j - 1], id);
      if s[j - 1].id == id && p.Some? {
        WithinSnoc(RepairOps(s[..j - 1], id), Zero(p.value.at, HEADER_LEN + |p.value.data|), First(lo), p.value.at, s[j - 1].at);
      }
    }
  }

  /** While the first `j` records are being repaired, the last copy and the rest of the page stay as they were. */
  lemma RepairSame(g: Geometry, m: seq<byte>, lo: nat, j: nat, id: nat, k: nat)
    requires IsFlash(g, m) && Active(g, m) == Some(lo) && j <= |PageScan(g, m, lo)|
    ensures var s := PageScan(g, m, lo);
            var n := Cut(m, RepairOps(s[..j], id), k, Chip(g));
            && Active(g, n) == Some(lo)
            && First(lo) <= Bound(s, First(lo), j)
            && Same(m, n, Bound(s, First(lo), j), |m|)
            && (Last(s[..j], id).Some? ==> Same(m, n, Last(s[..j], id).value.at, |m|))
  {
    hide RepairOps, PageScan, Last, Cut;
    var s := PageScan(g, m, lo);
    var ops := RepairOps(s[..j], id);
    RepairWithin(g, m, lo, j, id);
    LastBefore(g, m, lo, j, id);
    var r := Last(s[..j], id);
    var b := if r.None? then First(lo) else r.value.at;
    assert Within(ops, First(lo), b);
    CutFrame(m, ops, k, Chip(g), First(lo), b);
    ActiveKept(g, m, Cut(m, ops, k, Chip(g)), lo);
    if j > 0 {
      ScanEntry(g, m, lo, j - 1);
    }
  }

  /** So the last copy and the next record can still be read. */
  lemma FindView(g: Geometry, m: seq<byte>, lo: nat, j: nat, id: nat, k: nat)
    requires IsFlash(g, m) && Active(g, m) == Some(lo) && j <= |PageScan(g, m, lo)|
    ensures var s := PageScan(g, m, lo);
            var n := Cut(m, RepairOps(s[..j], id), k, Chip(g));
            var r := Last(s[..j], id);
            && (j < |s| ==> Holds(n, s[j]) && s[j].at + MIN_FILE_LEN < lo + g.pageLen
                            && U16(n, s[j].at) + U16(n, s[j].at + 2) == 0xFFFF)
            && (r.Some? ==> Holds(n, r.value))
  {
    hide RepairOps, PageScan, Last, Cut;
    var s := PageScan(g, m, lo);
    var n := Cut(m, RepairOps(s[..j], id), k, Chip(g));
    RepairSame(g, m, lo, j, id, k);
    LastBefore(g, m, lo, j, id);
    if j < |s| {
      ScanEntry(g, m, lo, j);
      HoldsFrame(m, n, s[j]);
    }
    if Last(s[..j], id).Some? {
      HoldsFrame(m, n, Last(s[..j], id).value);
    }
  }

  lemma RepairNone(s: seq<Entry>, id: nat)
    ensures RepairOps(s[..0], id) == [] && Last(s[..0], id) == None
  {
  }

  /** When a repair fails, nothing that would follow it happens. */
  lemma {:induction false} RepairStops(m: seq<byte>, s: seq<Entry>, j: nat, id: nat, k: nat, chip: Device)
    requires j <= |s|
    ensures Halts(m, RepairOps(s[..j], id), RepairOps(s, id), k, chip)
    decreases |s|
  {
    hide Cut, Done, Spent, Spent;
    if j < |s| {
      var t := s[..|s| - 1];
      assert t[..j] == s[..j];
      RepairStops(m, t, j, id, k, chip);
      RepairStep(s, |s| - 1, id);
      assert s[..|s|] == s;
      if RepairOps(s, id) != RepairOps(t, id) {
        var op := RepairOps(s, id)[|RepairOps(t, id)|];
        CutSnoc(m, RepairOps(t, id), op, k, chip);
      }
    } else {
      assert s[..j] == s;
    }
  }

  lemma WordOf(m: seq<byte>, o: nat)
    requires o + 1 < |m|
    ensures m[o] == Low(U16(m, o)) && m[o + 1] == High(U16(m, o))
  {
  }

  lemma SplitWord(high: nat, low: nat)
    requires high < 256 && low < 256
    ensures Low(256 * high + low) == low && High(256 * high + low) == high
  {
    assert (256 * high + low) / 256 == high;
  }

  lemma Complement(id: nat)
    requires id <= 0xFFFF
    ensures Low(0xFFFF - id) == 0xFF - Low(id) && High(0xFFFF - id) == 0xFF - High(id)
  {
    hide Low, High;
    var high, low := id / 256, id % 256;
    assert id == 256 * high + low && 0xFFFF - id == 256 * (255 - high) + (255 - low);
    SplitWord(high, low);
    SplitWord(255 - high, 255 - low);
  }

  /** A record's bytes are the encoding of its id and payload. */
  lemma RecordImage(g: Geometry, m: seq<byte>, e: Entry, hi: nat)
    requires hi + SPILL <= |m|
    requires IsRecord(g.crc, m, e.at, hi) && EntryAt(m, e.at) == e
    ensures m[e.at..e.End()] == Encode(g, e)
  {
    hide Low, High, U16;
    var image := m[e.at..e.End()];
    WordOf(m, e.at);
    WordOf(m, e.at + 2);
    WordOf(m, e.at + 4);
    Complement(e.id);
    assert image[..HEADER_LEN] == Header(g, e.id, e.data);
    assert image[HEADER_LEN..] == e.data;
    assert image == image[..HEADER_LEN] + image[HEADER_LEN..];
  }

  /** Copies are packed: the destination offset never passes the source offset relative to its page. */
  lemma {:induction false} SizeBound(s: seq<Entry>, o: nat, i: nat)
    requires InOrder(s, o) && i <= |s|
    ensures o + Size(s[..i]) <= Bound(s, o, i)
  {
    if i > 0 {
      SizeBound(s, o, i - 1);
      assert s[..i][..i - 1] == s[..i - 1];
      assert Bound(s, o, i - 1) <= s[i - 1].at;
    }
  }

  lemma FillStep(g: Geometry, s: seq<Entry>, np: nat, i: nat)
    requires i < |s|
    ensures FillOps(g, s[..i + 1], np) == FillOps(g, s[..i], np) + [Write(First(np) + Size(s[..i]), Encode(g, s[i]))]
    ensures Size(s[..i + 1]) == Size(s[..i]) + HEADER_LEN + |s[i].data|
  {
    assert s[..i + 1][..i] == s[..i];
  }

  /** Filling the passive page stays inside it and never writes its mark. */
  lemma {:induction false} FillWithin(g: Geometry, s: seq<Entry>, lo: nat, np: nat, i: nat)
    requires InOrder(s, First(lo)) && i <= |s|
    requires forall e :: e in s ==> e.End() <= lo + g.pageLen
    ensures Within(FillOps(g, s[..i], np), np, np + g.pageLen)
  {
    if i > 0 {
      FillWithin(g, s, lo, np, i - 1);
      FillStep(g, s, np, i - 1);
      SizeBound(s, First(lo), i);
      assert s[i - 1] in s;
    }
  }

  /** Until the mark is written, the first byte of the page being filled is erased, or nothing has happened yet. */
  lemma {:induction false} FillMark(g: Geometry, m: seq<byte>, s: seq<Entry>, np: nat, i: nat, k: nat)
    requires IsFlash(g, m) && (np == 0 || np == g.pageLen) && i <= |s|
    ensures var n := Cut(m, FillOps(g, s[..i], np), k, Chip(g));
            if k == 0 then n == m else n[np] == ERASED
  {
    hide Cut, Done, Spent, Encode, Size, FillOps, Total, Takes;
    if i == 0 {
      FillNone(g, s, np);
      CutOne(m, Erase(np, g.pageLen), k, Chip(g));
    } else {
      FillMark(g, m, s, np, i - 1, k);
      FillStep(g, s, np, i - 1);
      var ops := FillOps(g, s[..i - 1], np);
      var op := Write(First(np) + Size(s[..i - 1]), Encode(g, s[i - 1]));
      CutSnoc(m, ops, op, k, Chip(g));
      if Done(m, ops, k, Chip(g)) {
        WriteAbove(Cut(m, ops, k, Chip(g)), op.addr, op.data, k - Total(ops), np);
      }
    }
  }

  lemma WriteAbove(c: seq<byte>, a: nat, data: seq<byte>, k: nat, x: nat)
    requires x < a && x < |c|
    ensures Apply(c, Write(a, data), k)[x] == c[x] && (k == 0 ==> Apply(c, Write(a, data), k) == c)
  {
  }

  lemma FillNone(g: Geometry, s: seq<Entry>, np: nat)
    ensures FillOps(g, s[..0], np) == [Erase(np, g.pageLen)] && Size(s[..0]) == 0
  {
  }

  /** Where the bytes end that a page turn must leave alone: of page 2, all that a scan of it can read. */
  function PageTop(g: Geometry, lo: nat): nat {
    if lo == 0 then g.pageLen else FlashLen(g)
  }

  /**
   Every record of the page ends inside it. The scan of page 1 also visits no claim that reaches into page 2,
   which a page turn erases; what follows page 2 never changes.
   */
  predicate Fits(g: Geometry, m: seq<byte>, lo: nat)
    requires IsFlash(g, m) && lo <= g.pageLen
  {
    && (forall e :: e in PageScan(g, m, lo) ==> e.End() <= lo + g.pageLen)
    && (lo == 0 ==> Contained(g.crc, m, First(lo), lo + g.pageLen))
  }

  lemma ContainedFits(g: Geometry, m: seq<byte>, lo: nat)
    requires IsFlash(g, m) && lo <= g.pageLen && Contained(g.crc, m, First(lo), lo + g.pageLen)
    ensures Fits(g, m, lo)
  {
    ContainedEnds(g.crc, m, First(lo), lo + g.pageLen);
  }

  lemma PageEnds(g: Geometry, m: seq<byte>, lo: nat)
    requires IsFlash(g, m) && lo <= g.pageLen && Fits(g, m, lo)
    ensures forall e :: e in PageScan(g, m, lo) ==> e.End() <= lo + g.pageLen
  {
  }

  /** Wherever filling the passive page is cut, the active page stays active and is untouched. */
  lemma FillSame(g: Geometry, m: seq<byte>, lo: nat, i: nat, k: nat)
    requires IsFlash(g, m) && Active(g, m) == Some(lo)
    requires Fits(g, m, lo) && i <= |PageScan(g, m, lo)|
    ensures var n := Cut(m, FillOps(g, PageScan(g, m, lo)[..i], Passive(g, lo)), k, Chip(g));
            Active(g, n) == Some(lo) && Same(m, n, lo, PageTop(g, lo))
  {
    hide Cut, PageScan, FillOps, Scan, Fits;
    var s := PageScan(g, m, lo);
    var np := Passive(g, lo);
    var n := Cut(m, FillOps(g, s[..i], np), k, Chip(g));
    PageInOrder(g, m, lo);
    PageEnds(g, m, lo);
    FillWithin(g, s, lo, np, i);
    CutFrame(m, FillOps(g, s[..i], np), k, Chip(g), np, np + g.pageLen);
    FillMark(g, m, s, np, i, k);
    assert n[lo..lo + MARK_LEN] == m[lo..lo + MARK_LEN];
    assert Marked(n, 0) ==> n[0] == n[0..MARK_LEN][0];
  }

  /** So the rest of the active page is still scanned as it was. */
  lemma FillScan(g: Geometry, m: seq<byte>, n: seq<byte>, lo: nat, j: nat)
    requires IsFlash(g, m) && (lo == 0 || lo == g.pageLen) && Same(m, n, lo, PageTop(g, lo))
    requires Fits(g, m, lo) && j <= |PageScan(g, m, lo)|
    ensures var o := Bound(PageScan(g, m, lo), First(lo), j);
            && First(lo) <= o
            && Scan(g.crc, n, o, lo + g.pageLen) == Scan(g.crc, m, o, lo + g.pageLen)
  {
    hide PageScan, Scan, Contained, Holds, IsRecord;
    var o := Bound(PageScan(g, m, lo), First(lo), j);
    if j > 0 {
      ScanEntry(g, m, lo, j - 1);
    }
    if lo == 0 {
      ContainedBound(g, m, lo, j);
      ScanFrame(g.crc, m, n, o, lo + g.pageLen);
    } else {
      ScanTail(g.crc, m, n, o, lo + g.pageLen);
    }
  }

  lemma ContainedBound(g: Geometry, m: seq<byte>, lo: nat, j: nat)
    requires IsFlash(g, m) && lo <= g.pageLen && Contained(g.crc, m, First(lo), lo + g.pageLen)
    requires j <= |PageScan(g, m, lo)|
    ensures Contained(g.crc, m, Bound(PageScan(g, m, lo), First(lo), j), lo + g.pageLen)
  {
    ContainedFrom(g.crc, m, First(lo), lo + g.pageLen, j);
  }

  /** The three operations of an update, one after the other. */
  lemma UpdateShape(g: Geometry, ops: seq<Op>, empty: nat, id: nat, data: seq<byte>, prev: Option<Entry>)
    ensures var a := ops + [Write(empty, Header(g, id, data))];
            var b := a + [Write(empty + HEADER_LEN, data)];
            ops + UpdateOps(g, empty, id, data, prev) ==
            if prev.Some? then b + [Zero(prev.value.at, HEADER_LEN)] else b
  {
  }

  /** Whatever the first failing operation is, the rest of an update does not happen. */
  lemma UpdateStops(g: Geometry, m: seq<byte>, ops: seq<Op>, empty: nat, id: nat, data: seq<byte>,
                    prev: Option<Entry>, k: nat)
    ensures var a := ops + [Write(empty, Header(g, id, data))];
            var b := a + [Write(empty + HEADER_LEN, data)];
            var all := ops + UpdateOps(g, empty, id, data, prev);
            Halts(m, a, all, k, Chip(g)) && Halts(m, b, all, k, Chip(g))
  {
    hide Cut, Done, Spent;
    UpdateShape(g, ops, empty, id, data, prev);
    var a := ops + [Write(empty, Header(g, id, data))];
    var b := a + [Write(empty + HEADER_LEN, data)];
    CutConcat(m, a, [Write(empty + HEADER_LEN, data)], k, Chip(g));
    if prev.Some? {
      CutConcat(m, b, [Zero(prev.value.at, HEADER_LEN)], k, Chip(g));
    }
  }

  /** When filling stops early, neither mark is written. */
  lemma TurnStops(g: Geometry, m: seq<byte>, lo: nat, k: nat)
    requires IsFlash(g, m) && Active(g, m) == Some(lo)
    ensures var np := Passive(g, lo);
            var a := FillOps(g, PageScan(g, m, lo), np);
            var b := a + [Write(np, MARK)];
            var all := TurnPlan(g, m).ops;
            Halts(m, a, all, k, Chip(g)) && Halts(m, b, all, k, Chip(g))
  {
    hide Cut, Done, Spent, FillOps, PageScan;
    var np := Passive(g, lo);
    var a := FillOps(g, PageScan(g, m, lo), np);
    CutConcat(m, a, [Write(np, MARK)], k, Chip(g));
    CutConcat(m, a + [Write(np, MARK)], [Zero(lo, MARK_LEN)], k, Chip(g));
  }

  /** When copying record `j - 1` fails, no later record is copied. */
  lemma {:induction false} FillStops(g: Geometry, m: seq<byte>, s: seq<Entry>, np: nat, j: nat, k: nat)
    requires j <= |s|
    ensures Halts(m, FillOps(g, s[..j], np), FillOps(g, s, np), k, Chip(g))
    decreases |s|
  {
    hide Cut, Done, Spent, FillOps, Encode;
    if j < |s| {
      var t := s[..|s| - 1];
      assert t[..j] == s[..j] && s[..|s|] == s;
      FillStops(g, m, t, np, j, k);
      FillStep(g, s, np, |s| - 1);
      CutSnoc(m, FillOps(g, t, np), Write(First(np) + Size(t), Encode(g, s[|s| - 1])), k, Chip(g));
    } else {
      assert s[..j] == s;
    }
  }

  /** A supply that lasts for a call does not decide its result. */
  lemma SupplyLasts(g: Geometry, m: seq<byte>, ops: seq<Op>, k: nat)
    ensures Total(ops) <= k ==> Done(m, ops, k, Chip(g)) == Done(m, ops, Total(ops), Chip(g))
  {
    if Total(ops) <= k {
      CutSame(m, ops, Total(ops), k, Chip(g));
    }
  }

  /** Without a copy there is nothing to repair. */
  lemma NoRepair(g: Geometry, m: seq<byte>, lo: nat, id: nat)
    requires IsFlash(g, m) && lo <= g.pageLen
    ensures Last(PageScan(g, m, lo), id).None? ==> RepairOps(PageScan(g, m, lo), id) == []
  {
    var s := PageScan(g, m, lo);
    assert s[..|s|] == s;
    RepairWithin(g, m, lo, |s|, id);
  }

  lemma InvalidateShape(g: Geometry, m: seq<byte>, id: nat, k: nat)
    requires IsFlash(g, m) && GetPlan(g, m, id).verdict
    ensures var ops := GetPlan(g, m, id).ops;
            var all := InvalidatePlan(g, m, id).ops;
            var e := Last(PageScan(g, m, Active(g, m).value), id).value;
            && InvalidatePlan(g, m, id) == Plan(ops + [Zero(e.at, HEADER_LEN + |e.data|)], true)
            && Halts(m, ops, all, k, Chip(g))
  {
    hide Cut, Done, Spent, PageScan, RepairOps, Last;
    var e := Last(PageScan(g, m, Active(g, m).value), id).value;
    CutConcat(m, GetPlan(g, m, id).ops, [Zero(e.at, HEADER_LEN + |e.data|)], k, Chip(g));
  }

  lemma InvalidateNone(g: Geometry, m: seq<byte>, id: nat)
    requires IsFlash(g, m) && !GetPlan(g, m, id).verdict
    ensures InvalidatePlan(g, m, id) == GetPlan(g, m, id)
  {
  }

  /** A search finds an id exactly if the reader's map has it. */
  lemma ReadVerdict(g: Geometry, m: seq<byte>, id: nat)
    requires IsFlash(g, m)
    ensures GetPlan(g, m, id).verdict <==> id in View(g, m)
  {
    hide PageScan, MapOf, Last, RepairOps;
    if Active(g, m).Some? {
      LastIsMap(PageScan(g, m, Active(g, m).value), id);
    }
  }
}
