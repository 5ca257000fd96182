/**
 Eight bytes left on the page. The store's own test lets a one-byte value pass, and the call that stores it reports
 success; but the scan never looks at the offset it is written to, and the value that was stored before is killed.
 On pages of every usual size a few ordinary calls after a format lead there.
 */
module TightFit {
  import opened Bytes
  import opened NorFlash
  import opened Records
  import opened Store
  import opened StoreSteps
  import opened Copies
  import opened StoreLaws
  import opened TurnLaws
  import opened TidyStore
  import opened TidyOps
  import opened Steady
  import opened Reads
  import opened Runs
  import opened Limits

  /** A tidy page with eight bytes left, on which the last record is of another id. */
  ghost predicate Tight(g: Geometry, m: seq<byte>, lo: nat, s: seq<Entry>, id: nat)
    requires IsFlash(g, m)
  {
    && Tidy(g, m, lo, s) && s != [] && s[|s| - 1].id != id
    && Bound(s, First(lo), |s|) + MIN_FILE_LEN == lo + g.pageLen
  }

  /** The records of a tidy page, and the dead bytes before each, are as they were. */
  lemma NeatKept(g: Geometry, m: seq<byte>, n: seq<byte>, lo: nat, t: seq<Entry>, i: nat)
    requires IsFlash(g, m) && IsFlash(g, n) && Tidy(g, m, lo, t) && i < |t|
    requires Same(m, n, First(lo), Bound(t, First(lo), |t|))
    ensures lo <= g.pageLen && Neat(g, n, Bound(t, First(lo), i), t[i], lo + g.pageLen)
    ensures Stored(g.crc, n, t[i], lo + g.pageLen) && t[i].End() <= lo + g.pageLen
  {
    hide Neat, Stored, Tidy;
    TidyAt(g, m, lo, t, i);
    NeatFrame(g, m, n, Bound(t, First(lo), i), t[i], lo + g.pageLen);
    StoredFrame(g.crc, m, n, t[i], lo + g.pageLen);
  }

  /** No dead offset claims to be a record, and the last eight bytes are out of sight. */
  lemma TightGap(g: Geometry, m: seq<byte>, n: seq<byte>, lo: nat, t: seq<Entry>, i: nat, x: nat)
    requires IsFlash(g, m) && IsFlash(g, n) && Tidy(g, m, lo, t) && i <= |t| && lo <= g.pageLen
    requires Bound(t, First(lo), |t|) + MIN_FILE_LEN == lo + g.pageLen
    requires Same(m, n, First(lo), Bound(t, First(lo), |t|))
    requires Bound(t, First(lo), i) <= x < Limit(t, lo + g.pageLen, i)
    ensures !Claims(n, x, lo + g.pageLen)
  {
    hide Stored, Tidy, Calm, Mild, Same;
    if i < |t| {
      NeatKept(g, m, n, lo, t, i);
      CalmClaims(g, n, Bound(t, First(lo), i), t[i], lo + g.pageLen, x);
    }
  }

  /** What is written to the last eight bytes of a page is not looked at. */
  lemma TightScan(g: Geometry, m: seq<byte>, n: seq<byte>, lo: nat, t: seq<Entry>)
    requires IsFlash(g, m) && IsFlash(g, n) && Tidy(g, m, lo, t) && Active(g, n) == Some(lo)
    requires Bound(t, First(lo), |t|) + MIN_FILE_LEN == lo + g.pageLen
    requires Same(m, n, First(lo), Bound(t, First(lo), |t|))
    ensures PageScan(g, n, lo) == t && View(g, n) == MapOf(t)
  {
    hide Neat, Stored, Scan, Claims, Tidy, MapOf, PageScan, Same, Bound;
    var hi := lo + g.pageLen;
    TidyActive(g, m, lo, t);
    TidyOrder(g, m, lo, t);
    forall i | 0 <= i < |t| ensures Stored(g.crc, n, t[i], hi) && t[i].End() <= hi {
      NeatKept(g, m, n, lo, t, i);
    }
    forall i, x | 0 <= i <= |t| && Bound(t, First(lo), i) <= x < Limit(t, hi, i) ensures !Claims(n, x, hi) {
      TightGap(g, m, n, lo, t, i, x);
    }
    ContainedLive(g.crc, n, First(lo), t, hi);
    PageScanIs(g, n, lo);
  }

  /** The log once the update has killed the old copy: nothing is left of the id. */
  lemma TightKill(g: Geometry, c: seq<byte>, lo: nat, u: seq<Entry>, s: seq<Entry>, id: nat, p: Entry) returns (m: seq<byte>)
    requires IsFlash(g, c) && Tidy(g, c, lo, u) && u == Keep(s, id) && s != [] && s[|s| - 1].id != id && Last(s, id) == Some(p)
    ensures m == Apply(c, Zero(p.at, HEADER_LEN), HEADER_LEN) && Tidy(g, m, lo, Without(s, id))
    ensures Bound(Without(s, id), First(lo), |Without(s, id)|) == Bound(s, First(lo), |s|)
  {
    hide Tidy, Keep, Without, Apply;
    var j := KeepDrop(s, id);
    KeepEnd(s, id, First(lo));
    TidyKill(g, c, lo, u, j, HEADER_LEN);
    m := Apply(c, Zero(p.at, HEADER_LEN), HEADER_LEN);
  }

  /** The bytes below the new record after an update: those the repairs left, but for the kill. */
  lemma BelowNew(g: Geometry, m: seq<byte>, lo: nat, id: nat, data: seq<byte>, k: nat) returns (c: seq<byte>)
    requires IsFlash(g, m) && Updates(g, m, lo, id, data) && Done(m, SetPlan(g, m, id, data).ops, k, Chip(g))
    ensures c == Cut(m, RepairOps(PageScan(g, m, lo), id), k, Chip(g))
    ensures Done(m, RepairOps(PageScan(g, m, lo), id), k, Chip(g))
    ensures var n := Cut(m, SetPlan(g, m, id, data).ops, k, Chip(g));
            var p := Last(PageScan(g, m, lo), id);
            Same(if p.Some? then Apply(c, Zero(p.value.at, HEADER_LEN), HEADER_LEN) else c, n, 0, Empty(g, m, lo))
  {
    hide Cut, Done, Spent, PageScan, RepairOps, Header, Empty, SetPlan, Takes, Accepts, Total, Last;
    var e := New(g, m, lo, id, data);
    var ops := RepairOps(PageScan(g, m, lo), id);
    var p := Last(PageScan(g, m, lo), id);
    var a := AppendOps(g, m, lo, id, data);
    c := Cut(m, ops, k, Chip(g));
    AppendDone(g, m, lo, id, data, k);
    CutTwo(m, ops, Write(e.at, Header(g, id, data)), Write(e.at + HEADER_LEN, data), k, Chip(g));
    SetPlanIs(g, m, lo, id, data);
    if p.Some? {
      CutSnoc(m, a, Zero(p.value.at, HEADER_LEN), k, Chip(g));
      EndsBeforeEmpty(g, m, lo, p.value);
    } else {
      assert a + [] == a;
    }
  }

  /**
   The loss, on any tidy page with eight bytes left. Whatever one byte is stored, of any id but that of the last
   record, the call reports success, and afterwards nothing is read of the id, neither the new value nor the old
   one; every other id reads as before.
   */
  lemma TightLoses(g: Geometry, m: seq<byte>, lo: nat, s: seq<Entry>, id: nat, data: seq<byte>)
    requires IsFlash(g, m) && Tight(g, m, lo, s, id) && id < INVALID_ID && |data| == 1
    requires (id in View(g, m) ==> View(g, m)[id] != data) && !Stuck(g, m, id)
    ensures var c := CSet(id, data);
            Succeeds(g, m, c) && View(g, Exec(g, m, c)) == View(g, m) - {id} && ReadBack(g, Exec(g, m, c), id) == None
  {
    hide Tidy, Cut, Done, PageScan, RepairOps, Empty, SetPlan, Total, MapOf, Keep, Without, Last, Encode, Programmable, Apply;
    TidyActive(g, m, lo, s);
    TidyScan(g, m, lo, s);
    TidyBlank(g, m, lo, s);
    TightUpdates(g, m, lo, id, data);
    var k := Total(SetPlan(g, m, id, data).ops);
    BlankProgrammable(m, Empty(g, m, lo), Encode(g, New(g, m, lo, id, data)));
    SetTotals(g, m, lo, id, data);
    NotStuckGoes(g, m, lo, id, k);
    SetGoes(g, m, lo, id, data, k);
    TightAfter(g, m, lo, s, id, data, k);
    WithoutMap(s, id);
  }

  lemma TightUpdates(g: Geometry, m: seq<byte>, lo: nat, id: nat, data: seq<byte>)
    requires IsFlash(g, m) && Active(g, m) == Some(lo) && id < INVALID_ID && |data| == 1
    requires First(lo) <= Empty(g, m, lo) && Empty(g, m, lo) + MIN_FILE_LEN == lo + g.pageLen
    requires id in View(g, m) ==> View(g, m)[id] != data
    ensures Updates(g, m, lo, id, data) && SetPlan(g, m, id, data).verdict
    ensures New(g, m, lo, id, data).End() == lo + g.pageLen && RemSpace(g, lo, Empty(g, m, lo)) == MIN_FILE_LEN
  {
    hide PageScan, MapOf, Empty, Last, RepairOps, UpdateOps;
    LastIsMap(PageScan(g, m, lo), id);
  }

  lemma TightAfter(g: Geometry, m: seq<byte>, lo: nat, s: seq<Entry>, id: nat, data: seq<byte>, k: nat)
    requires IsFlash(g, m) && Tight(g, m, lo, s, id) && PageScan(g, m, lo) == s && Empty(g, m, lo) == Bound(s, First(lo), |s|)
    requires Updates(g, m, lo, id, data) && Done(m, SetPlan(g, m, id, data).ops, k, Chip(g))
    ensures View(g, Cut(m, SetPlan(g, m, id, data).ops, k, Chip(g))) == MapOf(Without(s, id))
  {
    hide Tidy, Cut, Done, PageScan, RepairOps, Empty, SetPlan, Total, MapOf, Keep, Without, Last, Apply;
    var n := Cut(m, SetPlan(g, m, id, data).ops, k, Chip(g));
    UpdateActive(g, m, lo, id, data, k);
    var c := BelowNew(g, m, lo, id, data, k);
    var u := TidySearch(g, m, lo, s, id, k);
    if Last(s, id).Some? {
      var r := TightKill(g, c, lo, u, s, id, Last(s, id).value);
      TightScan(g, r, n, lo, Without(s, id));
    } else {
      KeepAbsent(s, id);
      TightScan(g, c, n, lo, Without(s, id));
    }
  }

  /** A plain store call of a user id and a mild value that reports success. */
  predicate Plainly(g: Geometry, m: seq<byte>, c: Cmd)
    requires IsFlash(g, m)
  {
    c.CSet? && c.id < USER_IDS && |c.data| <= 0xFFFF && Mild(c.data) && Succeeds(g, m, c)
  }

  predicate AllPlain(g: Geometry, m: seq<byte>, cs: seq<Cmd>)
    requires IsFlash(g, m)
    decreases |cs|
  {
    cs != [] ==> Plainly(g, m, cs[0]) && AllPlain(g, Exec(g, m, cs[0]), cs[1..])
  }

  /** One short record of `id`, and at most one other record, of the id that fills the page. */
  ghost predicate Filling(g: Geometry, m: seq<byte>, s: seq<Entry>, e: Entry, filler: nat)
    requires IsFlash(g, m)
  {
    Tidy(g, m, 0, s) && e.id != filler && (s == [e] || (|s| == 2 && s[0] == e && s[1].id == filler))
  }

  /** How many bytes to store next: all but eight, or as many as leave room for one more value. */
  function NextSize(space: nat): (n: nat)
    requires space >= 16
    ensures 0 < n <= 0xFFFF && HEADER_LEN + n <= space
    ensures space - HEADER_LEN - n == 8 || space - HEADER_LEN - n >= 16
  {
    if space - 15 <= 0xFFFF then space - 15 else Min(0xFFFF, space - 23)
  }

  /** A mild value of this size that differs from the previous one. */
  function FillerValue(size: nat, prev: Option<Entry>): (data: seq<byte>)
    requires size > 0
    ensures |data| == size && Mild(data) && (prev.Some? ==> prev.value.data != data)
  {
    var zeros := Zeros(size);
    var data := if prev.Some? && prev.value.data == zeros then [1] + zeros[1..] else zeros;
    SevenBitIsMild(data);
    assert prev.Some? && prev.value.data == zeros ==> data[0] != zeros[0];
    data
  }

  /** Storing the filler once more leaves less space. */
  lemma FillStepOnce(g: Geometry, m: seq<byte>, s: seq<Entry>, e: Entry, filler: nat) returns (c: Cmd, t: seq<Entry>)
    requires IsFlash(g, m) && Filling(g, m, s, e, filler) && filler < USER_IDS
    requires Bound(s, MARK_LEN, |s|) + 16 <= g.pageLen
    ensures Plainly(g, m, c) && Filling(g, Exec(g, m, c), t, e, filler) && |t| == 2
    ensures Bound(s, MARK_LEN, |s|) < Bound(t, MARK_LEN, |t|)
    ensures Bound(t, MARK_LEN, |t|) + 8 == g.pageLen || Bound(t, MARK_LEN, |t|) + 16 <= g.pageLen
  {
    hide Tidy, Mild, Cut, PageScan, SetPlan, Total, View, Empty, Keep, Without, Updates, HasRoom, Done, FillerValue, NextSize;
    var data := FillerValue(NextSize(g.pageLen - Bound(s, MARK_LEN, |s|)), Last(s, filler));
    c := CSet(filler, data);
    TidyActive(g, m, 0, s);
    TidyScan(g, m, 0, s);
    FillerUpdates(g, m, s, filler, data);
    FillerKept(s, e, filler);
    TidySet(g, m, 0, s, filler, data);
    t := Updated(g, m, 0, filler, data);
    TwoRecords(t, e, New(g, m, 0, filler, data));
  }

  lemma TwoRecords(t: seq<Entry>, e: Entry, f: Entry)
    requires t == [e] + [f]
    ensures |t| == 2 && t[0] == e && t[1] == f && Bound(t, MARK_LEN, |t|) == f.End()
  {
  }

  lemma FillerUpdates(g: Geometry, m: seq<byte>, s: seq<Entry>, filler: nat, data: seq<byte>)
    requires IsFlash(g, m) && Active(g, m) == Some(0) && PageScan(g, m, 0) == s && Empty(g, m, 0) >= MARK_LEN
    requires filler < USER_IDS && 0 < |data| <= 0xFFFF && (Last(s, filler).Some? ==> Last(s, filler).value.data != data)
    requires Empty(g, m, 0) + HEADER_LEN + |data| <= g.pageLen && Empty(g, m, 0) + 16 <= g.pageLen
    ensures Updates(g, m, 0, filler, data) && HasRoom(g, 0, Empty(g, m, 0), |data|)
  {
  }

  lemma FillerKept(s: seq<Entry>, e: Entry, filler: nat)
    requires e.id != filler && (s == [e] || (|s| == 2 && s[0] == e && s[1].id == filler))
    ensures Keep(s, filler) == s && Without(s, filler) == [e]
  {
    hide Keep, Without, Last;
    WithoutAbsent([e], filler);
    if s == [e] {
      LastNone(s, filler);
      KeepAbsent(s, filler);
    } else {
      assert s[..1] == [e] && s == s[..1] + [s[1]];
      KeepLastStep(s, filler);
      WithoutLast(s, filler);
    }
  }

  /** So the page can be filled until eight bytes are left. */
  lemma {:induction false} FillUp(g: Geometry, m: seq<byte>, s: seq<Entry>, e: Entry, filler: nat)
    returns (cs: seq<Cmd>, t: seq<Entry>)
    requires IsFlash(g, m) && Filling(g, m, s, e, filler) && filler < USER_IDS
    requires Bound(s, MARK_LEN, |s|) + 16 <= g.pageLen
    ensures AllPlain(g, m, cs) && Filling(g, ExecAll(g, m, cs), t, e, filler) && |t| == 2
    ensures Bound(t, MARK_LEN, |t|) + 8 == g.pageLen
    decreases g.pageLen - Bound(s, MARK_LEN, |s|)
  {
    hide Filling, Plainly, Exec;
    var c;
    c, t := FillStepOnce(g, m, s, e, filler);
    if Bound(t, MARK_LEN, |t|) + 8 == g.pageLen {
      cs := [c];
    } else {
      cs, t := FillUp(g, Exec(g, m, c), t, e, filler);
      cs := [c] + cs;
    }
  }

  /** What the last one-byte value does on such a page. */
  ghost predicate Loses(g: Geometry, n: seq<byte>, c: Cmd)
    requires IsFlash(g, n) && c.CSet?
  {
    Succeeds(g, n, c) && View(g, Exec(g, n, c)) == View(g, n) - {c.id} && ReadBack(g, Exec(g, n, c), c.id) == None
  }

  /**
   How to get there, on every page of at least 28 bytes. After a format a one-byte value of `id` and then values of
   another id, with all calls reporting success, leave eight bytes. The value of `id` can be read; but the next
   one-byte value of this id, or of any id but the other one, is reported as stored, and then neither it nor the
   value before it can be read.
   */
  lemma TightFitReached(g: Geometry, m: seq<byte>, id: nat, data: seq<byte>, filler: nat) returns (cs: seq<Cmd>)
    requires IsFlash(g, m) && g.pageLen >= 28
    requires id < USER_IDS && filler < USER_IDS && id != filler && |data| == 1 && Mild(data)
    ensures var f := Exec(g, m, CFormat);
            var n := ExecAll(g, f, cs);
            && AllPlain(g, f, cs) && ReadBack(g, n, id) == Some(data)
            && forall j: nat, d: seq<byte> :: j < INVALID_ID && j != filler && |d| == 1 && Lookup(View(g, n), j) != Some(d) ==>
                 Loses(g, n, CSet(j, d))
  {
    hide Tidy, Mild, FormatPlan, Cut, View, PageScan, ReadBack, Loses, Succeeds;
    var f := Exec(g, m, CFormat);
    FormatReady(g, m);
    var c := CSet(id, data);
    var e := Entry(MARK_LEN, id, data);
    var a := OneStored(g, f, e);
    var rest, t := FillUp(g, a, [e], e, filler);
    cs := [c] + rest;
    assert cs[1..] == rest;
    var n := ExecAll(g, f, cs);
    TightReads(g, n, t, e, filler);
    forall j: nat, d: seq<byte> | j < INVALID_ID && j != filler && |d| == 1 && Lookup(View(g, n), j) != Some(d)
      ensures Loses(g, n, CSet(j, d))
    {
      LosesNow(g, n, t, e, filler, j, d);
    }
  }

  lemma TightReads(g: Geometry, n: seq<byte>, t: seq<Entry>, e: Entry, filler: nat)
    requires IsFlash(g, n) && Filling(g, n, t, e, filler) && |t| == 2 && e.id < USER_IDS
    ensures ReadBack(g, n, e.id) == Some(e.data)
  {
    hide Tidy, View, PageScan, MapOf, ReadBack;
    TidyActive(g, n, 0, t);
    TidyScan(g, n, 0, t);
    TwoFree(t, e.id);
    ReadIs(g, n, e.id);
    LastIsMap(t, e.id);
    assert t == t[..1] + [t[1]] && t[..1] == [e];
  }

  lemma TwoFree(t: seq<Entry>, id: nat)
    requires |t| == 2 && t[0].id != t[1].id
    ensures !Clogged(t, id) && (id == t[0].id ==> Last(t, id) == Some(t[0]))
  {
    assert t[..1] == [t[0]] && t[..1][..0] == [];
    assert Last(t[..1], t[0].id) == Some(t[0]);
  }

  lemma LosesNow(g: Geometry, n: seq<byte>, t: seq<Entry>, e: Entry, filler: nat, j: nat, d: seq<byte>)
    requires IsFlash(g, n) && Filling(g, n, t, e, filler) && |t| == 2 && Bound(t, MARK_LEN, |t|) + 8 == g.pageLen
    requires j < INVALID_ID && j != filler && |d| == 1 && Lookup(View(g, n), j) != Some(d)
    ensures Loses(g, n, CSet(j, d))
  {
    hide Tidy, View, PageScan, ReadBack;
    TidyActive(g, n, 0, t);
    TidyScan(g, n, 0, t);
    TwoFree(t, j);
    TightLoses(g, n, 0, t, j, d);
  }
}
