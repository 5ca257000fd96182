/** The store as the driver runs it: loops over offsets, flash programmed byte by byte. */
module FlashFsDriver {
  import opened Bytes
  import opened NorFlash
  import opened Records
  import opened Store
  import opened StoreSteps

  class FlashFs {
    const g: Geometry
    /** Both pages and the bytes after them. */
    const nvs: array<byte>
    /** How many more bytes can be programmed or erased before the supply, or the driver, fails. */
    var supply: nat

    ghost predicate Valid()
    {
      nvs.Length == FlashLen(g)
    }

    /** `ops` were run on `m0` with supply `k0`, and this is the flash now. */
    ghost predicate Ran(m0: seq<byte>, k0: nat, ops: seq<Op>)
      reads this, nvs
    {
      nvs[..] == Cut(m0, ops, k0, Chip(g)) && supply == k0 - Spent(m0, ops, k0, Chip(g))
    }

    function Word(o: nat): (r: nat)
      requires o + 1 < nvs.Length
      reads nvs
      ensures r == U16(nvs[..], o)
    {
      (nvs[o] as int) + 256 * (nvs[o + 1] as int)
    }

    constructor (g: Geometry, nvs: array<byte>, supply: nat)
      requires nvs.Length == FlashLen(g)
      ensures Valid() && this.g == g && this.nvs == nvs && this.supply == supply
    {
      this.g := g;
      this.nvs := nvs;
      this.supply := supply;
    }

    method NvsWrite(addr: nat, data: seq<byte>) returns (ok: bool)
      requires Valid()
      modifies nvs, `supply
      ensures var op := Write(addr, data);
              && ok == (Accepts(op, Chip(g)) && |data| <= old(supply) && Takes(old(nvs[..]), op, Chip(g)))
              && nvs[..] == (if Accepts(op, Chip(g)) then Apply(old(nvs[..]), op, old(supply)) else old(nvs[..]))
              && supply == old(supply) - (if Accepts(op, Chip(g)) then Min(|data|, old(supply)) else 0)
      ensures Cleared(old(nvs[..]), nvs[..])
    {
      hide Cleared;
      WriteClears(nvs[..], addr, data, supply);
      if addr >= Chip(g).size || addr + |data| > Chip(g).size {
        return false;
      }
      ghost var m := nvs[..];
      ghost var k := supply;
      var i := Program(addr, data);
      ok := i == |data| && (!g.verify || nvs[addr..addr + |data|] == data);
      if i == |data| {
        BytesRead(m, nvs[..], addr, data, k);
      }
    }

    /** Programs byte after byte, as long as the supply lasts. */
    method Program(addr: nat, data: seq<byte>) returns (i: nat)
      requires Valid() && addr + |data| <= nvs.Length
      modifies nvs, `supply
      ensures i == Min(|data|, old(supply)) && supply == old(supply) - i
      ensures nvs[..] == Apply(old(nvs[..]), Write(addr, data), old(supply))
    {
      hide Apply;
      ghost var m := nvs[..];
      ghost var op := Write(addr, data);
      i := 0;
      ApplyNone(m, op);
      while i < |data| && supply > 0
        invariant i <= |data| && supply == old(supply) - i
        invariant nvs[..] == Apply(m, op, i)
      {
        ApplyOne(m, op, i);
        nvs[addr + i] := And(nvs[addr + i], data[i]);
        supply := supply - 1;
        i := i + 1;
      }
      ApplyEnough(m, op, i, old(supply));
    }

    lemma ApplyNone(m: seq<byte>, op: Op)
      ensures Apply(m, op, 0) == m
    {
    }

    /** The next byte of an operation. */
    lemma ApplyOne(m: seq<byte>, op: Op, i: nat)
      requires i < Cost(op) && op.addr + Cost(op) <= |m|
      ensures Apply(m, op, i + 1) == Apply(m, op, i)[op.addr + i := Burn(op, op.addr + i, m[op.addr + i])]
      ensures Apply(m, op, i)[op.addr + i] == m[op.addr + i]
    {
    }

    lemma ApplyEnough(m: seq<byte>, op: Op, i: nat, k: nat)
      requires i == Min(k, Cost(op))
      ensures Apply(m, op, i) == Apply(m, op, k)
    {
    }

    /** The bytes read back are the data exactly when the data could be programmed. */
    lemma BytesRead(m: seq<byte>, n: seq<byte>, addr: nat, data: seq<byte>, k: nat)
      requires addr + |data| <= |m| && |data| <= k && n == Apply(m, Write(addr, data), k)
      ensures n[addr..addr + |data|] == data <==> Programmable(m, addr, data)
    {
      if n[addr..addr + |data|] == data {
        forall x | addr <= x < addr + |data| ensures And(m[x], data[x - addr]) == data[x - addr] {
          assert n[addr..addr + |data|][x - addr] == n[x];
        }
      }
    }

    method NvsErase(addr: nat, len: nat) returns (ok: bool)
      requires Valid()
      modifies nvs, `supply
      ensures var op := Erase(addr, len);
              && ok == (Accepts(op, Chip(g)) && len <= old(supply))
              && nvs[..] == (if Accepts(op, Chip(g)) then Apply(old(nvs[..]), op, old(supply)) else old(nvs[..]))
              && supply == old(supply) - (if Accepts(op, Chip(g)) then Min(len, old(supply)) else 0)
    {
      if addr >= Chip(g).size || addr + len > Chip(g).size {
        return false;
      }
      ghost var m := nvs[..];
      ghost var op := Erase(addr, len);
      var i := 0;
      while i < len && supply > 0
        invariant i <= len && supply == old(supply) - i
        invariant nvs[..] == Apply(m, op, i)
      {
        ApplyOne(m, op, i);
        nvs[addr + i] := ERASED;
        supply := supply - 1;
        i := i + 1;
      }
      ApplyEnough(m, op, i, old(supply));
      ok := i == len;
    }

    /** After `ops` run on `m0`, one more write. */
    method FlashWrite(addr: nat, data: seq<byte>, ghost m0: seq<byte>, ghost k0: nat, ghost ops: seq<Op>)
      returns (ok: bool)
      requires Valid() && Ran(m0, k0, ops) && Done(m0, ops, k0, Chip(g))
      modifies nvs, `supply
      ensures Ran(m0, k0, ops + [Write(addr, data)])
      ensures ok == Done(m0, ops + [Write(addr, data)], k0, Chip(g))
    {
      hide NorFlash.Cut, NorFlash.Done, Spent, Takes, Accepts, NorFlash.Apply, NorFlash.Total;
      CutSnoc(m0, ops, Write(addr, data), k0, Chip(g));
      DoneSpent(m0, ops, k0, Chip(g));
      ok := NvsWrite(addr, data);
    }

    lemma ZerosTake(m: seq<byte>, addr: nat, len: nat)
      requires addr + len <= |m|
      ensures Programmable(m, addr, Zeros(len))
    {
      forall x | addr <= x < addr + len ensures And(m[x], Zeros(len)[x - addr]) == 0 { AndByte(m[x]); }
    }

    /** After `ops` run on `m0`, zero one more range, of at most 256 bytes. */
    method FlashZero(addr: nat, len: nat, ghost m0: seq<byte>, ghost k0: nat, ghost ops: seq<Op>)
      returns (ok: bool)
      requires Valid() && Ran(m0, k0, ops) && Done(m0, ops, k0, Chip(g))
      modifies nvs, `supply
      ensures Ran(m0, k0, ops + [Zero(addr, len)])
      ensures ok == Done(m0, ops + [Zero(addr, len)], k0, Chip(g))
    {
      hide NorFlash.Cut, NorFlash.Done, Spent, Spent;
      CutSnoc(m0, ops, Zero(addr, len), k0, Chip(g));
      DoneSpent(m0, ops, k0, Chip(g));
      ok := false;
      if len <= ZERO_LIMIT {
        var zeroArray := Zeros(len);
        ghost var m := nvs[..];
        ok := NvsWrite(addr, zeroArray);
        assert Apply(m, Write(addr, zeroArray), old(supply)) == Apply(m, Zero(addr, len), old(supply));
        if addr + len <= |m| {
          ZerosTake(m, addr, len);
        }
      }
    }

    /** After `ops` run on `m0`, erase one more range. */
    method FlashErase(addr: nat, len: nat, ghost m0: seq<byte>, ghost k0: nat, ghost ops: seq<Op>)
      returns (ok: bool)
      requires Valid() && Ran(m0, k0, ops) && Done(m0, ops, k0, Chip(g))
      modifies nvs, `supply
      ensures Ran(m0, k0, ops + [Erase(addr, len)])
      ensures ok == Done(m0, ops + [Erase(addr, len)], k0, Chip(g))
    {
      hide NorFlash.Cut, NorFlash.Done, Spent, Accepts, NorFlash.Apply, NorFlash.Total;
      CutSnoc(m0, ops, Erase(addr, len), k0, Chip(g));
      DoneSpent(m0, ops, k0, Chip(g));
      ok := NvsErase(addr, len);
    }

    method GetActivePage() returns (page: Option<nat>)
      requires Valid()
      ensures page == Active(g, nvs[..])
    {
      if nvs[..MARK_LEN] == MARK {
        page := Some(0);
      } else if nvs[g.pageLen..g.pageLen + MARK_LEN] == MARK {
        page := Some(g.pageLen);
      } else {
        page := None;
      }
      assert nvs[..][0..MARK_LEN] == nvs[..MARK_LEN];
      assert nvs[..][g.pageLen..g.pageLen + MARK_LEN] == nvs[g.pageLen..g.pageLen + MARK_LEN];
    }

    /** The bytes from `offset` to the end of the active page, in unsigned 32-bit arithmetic. */
    method CalcRemSize(offset: nat) returns (remSize: nat)
      requires Valid()
      ensures remSize == match Active(g, nvs[..])
                         case None => 0
                         case Some(lo) => if lo < offset then (lo + g.pageLen - offset) % 0x1_0000_0000 else 0
    {
      remSize := 0;
      var page := GetActivePage();
      if page.Some? && page.value < offset {
        var curLen := offset - page.value;
        remSize := (g.pageLen - curLen) % 0x1_0000_0000;
      }
    }

    /** The page from `lo` on is active, or none is. */
    ghost predicate OnPage(lo: nat)
      requires Valid()
      reads nvs
    {
      Active(g, nvs[..]) == Some(lo) || Active(g, nvs[..]) == None
    }

    /** The test of one offset: id against inverted id, length against the rest of the active page, CRC. */
    method TestItem(cur: nat, ghost lo: nat) returns (hit: bool, length: nat)
      requires Valid() && OnPage(lo) && lo <= g.pageLen
      requires lo < cur && cur + MIN_FILE_LEN < lo + g.pageLen
      ensures hit == (Active(g, nvs[..]) == Some(lo) && IsRecord(g.crc, nvs[..], cur, lo + g.pageLen))
      ensures hit ==> length == |EntryAt(nvs[..], cur).data|
    {
      hide Active;
      hit, length := false, Word(cur + 4);
      if Word(cur) == 0xFFFF - Word(cur + 2) {
        var remSize := CalcRemSize(cur);
        if length < remSize {
          assert EntryAt(nvs[..], cur).data == nvs[cur + HEADER_LEN..cur + HEADER_LEN + length];
          hit := g.crc(nvs[cur + HEADER_LEN..cur + HEADER_LEN + length]) == nvs[cur + 6];
        }
      }
    }

    /** The least offset from `offset` on that passes the record test, and the complete record length. */
    method GetNext(offset: nat, maxOffset: nat, ghost lo: nat) returns (res: bool, next: nat, completeLen: nat)
      requires Valid() && OnPage(lo) && lo <= g.pageLen && lo < offset && maxOffset == lo + g.pageLen
      ensures res ==>
                && Active(g, nvs[..]) == Some(lo)
                && offset <= next && IsRecord(g.crc, nvs[..], next, maxOffset)
                && completeLen == EntryAt(nvs[..], next).End() - next
                && NoRecord(g.crc, nvs[..], offset, next, maxOffset)
      ensures !res ==> next == offset && (Active(g, nvs[..]) == Some(lo) ==> NoRecord(g.crc, nvs[..], offset, maxOffset, maxOffset))
    {
      hide Active, IsRecord;
      res, next, completeLen := false, offset, 0;
      var cur := offset;
      while cur + MIN_FILE_LEN < maxOffset
        invariant offset <= cur
        invariant Active(g, nvs[..]) == Some(lo) ==> NoRecord(g.crc, nvs[..], offset, cur, maxOffset)
      {
        var hit, length := TestItem(cur, lo);
        if hit {
          res, next, completeLen := true, cur, length + HEADER_LEN;
          return;
        }
        cur := cur + 1;
      }
      NoRoom(nvs[..], cur, maxOffset);
    }

    /** Near the end of the page there is no record. */
    lemma NoRoom(m: seq<byte>, cur: nat, hi: nat)
      requires hi + SPILL <= |m| && cur + MIN_FILE_LEN >= hi
      ensures NoRecord(g.crc, m, cur, hi, hi)
    {
    }

    /** What a successful `GetNext` means for the scan of the unchanged rest of the page. */
    lemma NextIsScan(m: seq<byte>, n: seq<byte>, lo: nat, j: nat, next: nat, res: bool)
      requires IsFlash(g, m) && IsFlash(g, n) && lo <= g.pageLen && j <= |PageScan(g, m, lo)|
      requires var offset := Bound(PageScan(g, m, lo), First(lo), j);
               && Scan(g.crc, n, offset, lo + g.pageLen) == Scan(g.crc, m, offset, lo + g.pageLen)
               && (res ==> offset <= next && IsRecord(g.crc, n, next, lo + g.pageLen)
                           && NoRecord(g.crc, n, offset, next, lo + g.pageLen))
               && (!res ==> NoRecord(g.crc, n, offset, lo + g.pageLen, lo + g.pageLen))
      ensures res <==> j < |PageScan(g, m, lo)|
      ensures res ==> PageScan(g, m, lo)[j] == EntryAt(n, next)
    {
      hide Scan, IsRecord;
      var s := PageScan(g, m, lo);
      var offset := Bound(s, First(lo), j);
      ScanFrom(g.crc, m, First(lo), lo + g.pageLen, j);
      if res {
        SkipTo(g.crc, n, offset, next, lo + g.pageLen);
        ScanHere(g.crc, n, next, lo + g.pageLen);
      } else if offset < lo + g.pageLen {
        SkipTo(g.crc, n, offset, lo + g.pageLen, lo + g.pageLen);
        ScanHere(g.crc, n, lo + g.pageLen, lo + g.pageLen);
      } else {
        ScanHere(g.crc, n, offset, lo + g.pageLen);
      }
    }

    /** Where the last copy among the first `j` records starts. */
    ghost function LastAt(m: seq<byte>, lo: nat, j: nat, id: nat): Option<nat>
      requires IsFlash(g, m) && lo <= g.pageLen && j <= |PageScan(g, m, lo)|
    {
      match Last(PageScan(g, m, lo)[..j], id) case None => None case Some(e) => Some(e.at)
    }

    /** The body of the search loop: record `cur`, if it is a copy, replaces the copy found before, which is zeroed. */
    method Visit(id: nat, next: nat, prev: Option<nat>, ghost cur: Entry, ghost last: Option<Entry>,
                 ghost m: seq<byte>, ghost k0: nat, ghost ops: seq<Op>)
      returns (ok: bool, found: Option<nat>)
      requires Valid() && Ran(m, k0, ops) && Done(m, ops, k0, Chip(g))
      requires next == cur.at && Holds(nvs[..], cur) && U16(nvs[..], next) + U16(nvs[..], next + 2) == 0xFFFF
      requires match last case None => prev == None case Some(e) => prev == Some(e.at) && Holds(nvs[..], e)
      modifies nvs, `supply
      ensures var all := if cur.id == id && last.Some?
                         then ops + [Zero(last.value.at, HEADER_LEN + |last.value.data|)] else ops;
              && Ran(m, k0, all) && ok == Done(m, all, k0, Chip(g))
              && found == if cur.id == id then Some(cur.at) else prev
    {
      hide NorFlash.Cut, NorFlash.Done, Spent, Spent;
      ok, found := true, prev;
      if Word(next) == id && Word(next) == 0xFFFF - Word(next + 2) {
        if prev.Some? {
          ok := FlashZero(prev.value, HEADER_LEN + Word(prev.value + 4), m, k0, ops);
        }
        found := Some(next);
      }
    }

    /** At the head of the search loop the next record is record `j` of the scan made on entry. */
    method NextRecord(offset: nat, ghost m: seq<byte>, ghost k0: nat, lo: nat, ghost j: nat, id: nat)
      returns (more: bool, next: nat, completeLen: nat)
      requires Valid() && IsFlash(g, m) && Active(g, m) == Some(lo) && j <= |PageScan(g, m, lo)|
      requires nvs[..] == Cut(m, RepairOps(PageScan(g, m, lo)[..j], id), k0, Chip(g))
      requires offset == Bound(PageScan(g, m, lo), First(lo), j)
      ensures more <==> j < |PageScan(g, m, lo)|
      ensures more ==> var e := PageScan(g, m, lo)[j]; next == e.at && next + completeLen == e.End()
    {
      hide PageScan, RepairOps, Last, NorFlash.Cut, Records.Scan, Contained, IsRecord;
      RepairSame(g, m, lo, j, id, k0);
      more, next, completeLen := GetNext(offset, lo + g.pageLen, lo);
      ScanTail(g.crc, m, nvs[..], offset, lo + g.pageLen);
      NextIsScan(m, nvs[..], lo, j, next, more);
    }

    /** Record `j` of the scan is visited: the repairs go on by at most one. */
    method VisitRecord(id: nat, lo: nat, next: nat, prev: Option<nat>, ghost j: nat, ghost m: seq<byte>, ghost k0: nat)
      returns (ok: bool, found: Option<nat>)
      requires Valid() && IsFlash(g, m) && Active(g, m) == Some(lo) && j < |PageScan(g, m, lo)|
      requires next == PageScan(g, m, lo)[j].at && prev == LastAt(m, lo, j, id)
      requires var ops := RepairOps(PageScan(g, m, lo)[..j], id); Ran(m, k0, ops) && Done(m, ops, k0, Chip(g))
      modifies nvs, `supply
      ensures var ops := RepairOps(PageScan(g, m, lo)[..j + 1], id); Ran(m, k0, ops) && ok == Done(m, ops, k0, Chip(g))
      ensures found == LastAt(m, lo, j + 1, id)
    {
      hide PageScan, RepairOps, Last, NorFlash.Cut, NorFlash.Done, Spent, Holds, U16, Active;
      ghost var s := PageScan(g, m, lo);
      FindView(g, m, lo, j, id, k0);
      RepairStep(s, j, id);
      ok, found := Visit(id, next, prev, s[j], Last(s[..j], id), m, k0, RepairOps(s[..j], id));
    }

    /** The search loop: where the last copy starts and where the scan ends. */
    method FindLast(id: nat, lo: nat, ghost m: seq<byte>, ghost k0: nat)
      returns (done: bool, prev: Option<nat>, offset: nat)
      requires Valid() && m == nvs[..] && k0 == supply && Active(g, m) == Some(lo)
      modifies nvs, `supply
      ensures var s := PageScan(g, m, lo);
              && Ran(m, k0, RepairOps(s, id)) && done == Done(m, RepairOps(s, id), k0, Chip(g))
              && (done ==> offset == Bound(s, First(lo), |s|) && First(lo) <= offset
                           && prev == match Last(s, id) case None => None case Some(e) => Some(e.at))
    {
      hide PageScan, RepairOps, Last, NorFlash.Cut, NorFlash.Done, Spent, Active;
      CutNone(m, k0, Chip(g));
      ghost var s := PageScan(g, m, lo);
      RepairNone(s, id);
      ghost var j := 0;
      done, prev, offset := true, None, First(lo);
      var more, next, completeLen := NextRecord(offset, m, k0, lo, j, id);
      while more
        invariant j <= |s| && (more <==> j < |s|)
        invariant offset == Bound(s, First(lo), j)
        invariant done && Ran(m, k0, RepairOps(s[..j], id)) && Done(m, RepairOps(s[..j], id), k0, Chip(g))
        invariant prev == LastAt(m, lo, j, id)
        invariant more ==> next == s[j].at && next + completeLen == s[j].End()
        decreases |s| - j
      {
        hide LastAt;
        done, prev := VisitRecord(id, lo, next, prev, j, m, k0);
        j := j + 1;
        if !done {
          RepairStops(m, s, j, id, k0, Chip(g));
          return;
        }
        offset := next + completeLen;
        more, next, completeLen := NextRecord(offset, m, k0, lo, j, id);
      }
      assert s[..j] == s;
      RepairSame(g, m, lo, j, id, k0);
    }

    method FindField(id: nat, rem0: nat) returns (res: bool, item: Option<nat>, empty: nat, rem: nat)
      requires Valid()
      modifies nvs, `supply
      ensures var m := old(nvs[..]);
              var plan := GetPlan(g, m, id);
              var done := Done(old(nvs[..]), plan.ops, old(supply), Chip(g));
              && Ran(m, old(supply), plan.ops)
              && res == (plan.verdict && done)
              && if Active(g, m).None? || !done then rem == rem0
                 else
                   var lo := Active(g, m).value;
                   && empty == Empty(g, m, lo) && rem == RemSpace(g, lo, empty)
                   && item == match Last(PageScan(g, m, lo), id) case None => None case Some(e) => Some(e.at)
    {
      hide PageScan, RepairOps, Last, NorFlash.Cut, NorFlash.Done, Spent;
      res, item, empty, rem := false, None, 0, rem0;
      var page := GetActivePage();
      CutNone(nvs[..], supply, Chip(g));
      if page.None? {
        return;
      }
      var done, prev;
      done, prev, empty := FindLast(id, page.value, nvs[..], supply);
      if !done {
        return;
      }
      rem := RemSpace(g, page.value, empty);
      item := prev;
      res := prev.Some?;
    }

    /** Copies the last record with this id, if the buffer has room for it. */
    method Get(id: nat, maxLen: nat) returns (res: bool, data: seq<byte>)
      requires Valid()
      modifies nvs, `supply
      ensures var m := old(nvs[..]);
              if id == INVALID_ID || maxLen == 0 then !res && nvs[..] == m && supply == old(supply)
              else
                var plan := GetPlan(g, m, id);
                && Ran(m, old(supply), plan.ops)
                && (res <==> Done(old(nvs[..]), plan.ops, old(supply), Chip(g)) && id in View(g, m) && |View(g, m)[id]| <= maxLen)
                && (res ==> data == View(g, m)[id])
      ensures var read := ReadBack(g, old(nvs[..]), id);
              Total(GetPlan(g, old(nvs[..]), id).ops) <= old(supply) ==>
                && res == (maxLen > 0 && read.Some? && |read.value| <= maxLen)
                && (res ==> data == read.value)
    {
      hide PageScan, RepairOps, Last, NorFlash.Cut, NorFlash.Done, Spent, MapOf, Active;
      ghost var m := nvs[..];
      res, data := false, [];
      if id == INVALID_ID || maxLen == 0 {
        return;
      }
      var found, item, empty, rem := FindField(id, 0);
      if Active(g, m).Some? {
        LastIsMap(PageScan(g, m, Active(g, m).value), id);
      }
      SupplyLasts(g, m, GetPlan(g, m, id).ops, old(supply));
      if found {
        FoundView(m, id, old(supply));
        var length := Word(item.value + 4);
        if length <= maxLen {
          assert nvs[..][item.value + HEADER_LEN..item.value + HEADER_LEN + length] ==
                 nvs[item.value + HEADER_LEN..item.value + HEADER_LEN + length];
          data := nvs[item.value + HEADER_LEN..item.value + HEADER_LEN + length];
          res := true;
        }
      }
    }

    /** The copy a search returned can be read in the flash it left. */
    lemma FoundView(m: seq<byte>, id: nat, k: nat)
      requires IsFlash(g, m) && GetPlan(g, m, id).verdict
      ensures Holds(Cut(m, GetPlan(g, m, id).ops, k, Chip(g)), Last(PageScan(g, m, Active(g, m).value), id).value)
    {
      var s := PageScan(g, m, Active(g, m).value);
      assert s[..|s|] == s;
      FindView(g, m, Active(g, m).value, |s|, id, k);
    }

    method IsStored(item: nat, data: seq<byte>, ghost e: Entry) returns (same: bool)
      requires Valid() && item == e.at && Holds(nvs[..], e)
      ensures same == (e.data == data)
    {
      same := false;
      if Word(item + 4) == |data| {
        assert nvs[..][item + HEADER_LEN..item + HEADER_LEN + |data|] == nvs[item + HEADER_LEN..item + HEADER_LEN + |data|];
        same := nvs[item + HEADER_LEN..item + HEADER_LEN + |data|] == data;
      }
    }

    method Set(id: nat, data: seq<byte>) returns (res: bool)
      requires Valid() && id <= 0xFFFF && |data| <= 0xFFFF
      modifies nvs, `supply
      ensures var plan := SetPlan(g, old(nvs[..]), id, data);
              && Ran(old(nvs[..]), old(supply), plan.ops)
              && res == (plan.verdict && Done(old(nvs[..]), plan.ops, old(supply), Chip(g)))
    {
      if id == INVALID_ID || |data| == 0 {
        return false;
      }
      hide PageScan, RepairOps, NorFlash.Cut, NorFlash.Done, Spent, Header;
      ghost var m := nvs[..];
      ghost var k0 := supply;
      ghost var ops := GetPlan(g, m, id).ops;
      var found, prev, empty, rem := FindField(id, 0);
      if found {
        FoundView(m, id, k0);
        var same := IsStored(prev.value, data, Last(PageScan(g, m, Active(g, m).value), id).value);
        if same {
          return true;
        }
      }
      if rem < |data| {
        if Active(g, m).Some? {
          CutConcat(m, ops, UpdateOps(g, Empty(g, m, Active(g, m).value), id, data,
                                      Last(PageScan(g, m, Active(g, m).value), id)), k0, Chip(g));
        }
        return false;
      }
      res := Update(empty, id, data, prev, Last(PageScan(g, m, Active(g, m).value), id), m, k0, ops);
    }

    /** The three writes of an update: header, payload, then the kill of the previous header. */
    method Update(empty: nat, id: nat, data: seq<byte>, prevItem: Option<nat>, ghost prev: Option<Entry>,
                  ghost m: seq<byte>, ghost k0: nat, ghost ops: seq<Op>)
      returns (res: bool)
      requires Valid() && Ran(m, k0, ops) && Done(m, ops, k0, Chip(g))
      requires prevItem == match prev case None => None case Some(e) => Some(e.at)
      modifies nvs, `supply
      ensures Ran(m, k0, ops + UpdateOps(g, empty, id, data, prev))
      ensures res == Done(m, ops + UpdateOps(g, empty, id, data, prev), k0, Chip(g))
    {
      hide NorFlash.Cut, NorFlash.Done, Spent, Header, UpdateOps;
      var newHeader := Header(g, id, data);
      ghost var a := ops + [Write(empty, newHeader)];
      ghost var b := a + [Write(empty + HEADER_LEN, data)];
      UpdateShape(g, ops, empty, id, data, prev);
      UpdateStops(g, m, ops, empty, id, data, prev, k0);
      res := FlashWrite(empty, newHeader, m, k0, ops);
      if !res {
        return;
      }
      res := FlashWrite(empty + HEADER_LEN, data, m, k0, a);
      if !res {
        return;
      }
      if prevItem.Some? {
        res := FlashZero(prevItem.value, HEADER_LEN, m, k0, b);
      }
    }

    /** Zeroes the header and payload of the record at `item`. */
    method ZeroRecord(item: nat, ghost e: Entry, ghost m: seq<byte>, ghost k0: nat, ghost ops: seq<Op>) returns (res: bool)
      requires Valid() && Ran(m, k0, ops) && Done(m, ops, k0, Chip(g))
      requires item == e.at && Holds(nvs[..], e)
      modifies nvs, `supply
      ensures var all := ops + [Zero(e.at, HEADER_LEN + |e.data|)]; Ran(m, k0, all) && res == Done(m, all, k0, Chip(g))
    {
      hide NorFlash.Cut, NorFlash.Done, Spent;
      res := FlashZero(item, HEADER_LEN + Word(item + 4), m, k0, ops);
    }

    /** Zeroes the header and payload of the last record with this id. */
    method Invalidate(id: nat) returns (res: bool)
      requires Valid()
      modifies nvs, `supply
      ensures var plan := InvalidatePlan(g, old(nvs[..]), id);
              && Ran(old(nvs[..]), old(supply), plan.ops)
              && res == (plan.verdict && Done(old(nvs[..]), plan.ops, old(supply), Chip(g)))
    {
      hide PageScan, RepairOps, Last, NorFlash.Cut, NorFlash.Done, Spent, Holds, InvalidatePlan, Active;
      ghost var m := nvs[..];
      ghost var k0 := supply;
      ghost var plan := GetPlan(g, m, id);
      var empty, rem, item;
      res, item, empty, rem := FindField(id, 0);
      if plan.verdict {
        InvalidateShape(g, m, id, k0);
      } else {
        InvalidateNone(g, m, id);
      }
      if res {
        FoundView(m, id, k0);
        res := ZeroRecord(item.value, Last(PageScan(g, m, Active(g, m).value), id).value, m, k0, plan.ops);
      }
    }

    /** `GetNext` finds what the turn copies next. */
    method FindNext(offset: nat, lo: nat) returns (more: bool, next: nat, completeLen: nat)
      requires Valid() && OnPage(lo) && lo <= g.pageLen && lo < offset
      ensures more <==> NextToCopy(g, nvs[..], lo, offset).Some?
      ensures more ==> var e := NextToCopy(g, nvs[..], lo, offset).value; next == e.at && next + completeLen == e.End()
    {
      hide Scan, IsRecord, Active;
      more, next, completeLen := GetNext(offset, lo + g.pageLen, lo);
      if more {
        SkipTo(g.crc, nvs[..], offset, next, lo + g.pageLen);
        ScanHere(g.crc, nvs[..], next, lo + g.pageLen);
      } else if Active(g, nvs[..]) == Some(lo) {
        if offset < lo + g.pageLen {
          SkipTo(g.crc, nvs[..], offset, lo + g.pageLen, lo + g.pageLen);
          ScanHere(g.crc, nvs[..], lo + g.pageLen, lo + g.pageLen);
        } else {
          ScanHere(g.crc, nvs[..], offset, lo + g.pageLen);
        }
      }
    }

    /** One step that stops the turn if it fails. */
    method Step(op: Op) returns (res: bool)
      requires Valid()
      modifies nvs, `supply
      ensures Outcome(nvs[..], supply, res) == Perform(g, old(nvs[..]), Plan([op], true), old(supply))
    {
      hide NorFlash.Cut, NorFlash.Done, Spent;
      ghost var m := nvs[..];
      ghost var k0 := supply;
      CutNone(m, k0, Chip(g));
      assert [] + [op] == [op];
      match op
      case Write(addr, data) => res := FlashWrite(addr, data, m, k0, []);
      case Zero(addr, len) => res := FlashZero(addr, len, m, k0, []);
      case Erase(addr, len) => res := FlashErase(addr, len, m, k0, []);
    }

    /** Filling the other page never marks it: the page being copied stays active, or a copy overran its mark. */
    ghost predicate Filling(lo: nat)
      requires Valid()
      reads nvs
    {
      && (lo == 0 || lo == g.pageLen)
      && if lo == 0 then Marked(nvs[..], 0) else nvs[0] == ERASED
    }

    lemma FillingPage(m: seq<byte>, lo: nat)
      requires IsFlash(g, m) && (lo == 0 || lo == g.pageLen) && (if lo == 0 then Marked(m, 0) else m[0] == ERASED)
      ensures Active(g, m) == Some(lo) || Active(g, m) == None
    {
      assert lo != 0 ==> m[0..MARK_LEN][0] == ERASED;
    }

    lemma FillingStep(m: seq<byte>, lo: nat, op: Op, k: nat)
      requires IsFlash(g, m) && (lo == 0 || lo == g.pageLen) && (if lo == 0 then Marked(m, 0) else m[0] == ERASED)
      requires op.Write? && First(Passive(g, lo)) <= op.addr
      ensures var n := Cut(m, [op], k, Chip(g));
              if lo == 0 then Marked(n, 0) else n[0] == ERASED
    {
      CutOne(m, op, k, Chip(g));
      var n := Cut(m, [op], k, Chip(g));
      assert n[0..MARK_LEN] == m[0..MARK_LEN];
    }

    /** The copy loop, after the passive page has been erased. */
    method CopyRecords(lo: nat, np: nat) returns (res: bool)
      requires Valid() && Filling(lo) && np == Passive(g, lo)
      modifies nvs, `supply
      ensures Outcome(nvs[..], supply, res) == CopyRun(g, old(nvs[..]), old(supply), lo, First(lo), First(np))
    {
      hide NextToCopy, Perform, CopyRun, Marked, Active, NorFlash.Cut;
      res := true;
      var offsetActive := First(lo);
      var offsetPassive := First(np);
      FillingPage(nvs[..], lo);
      var more, next, completeLen := FindNext(offsetActive, lo);
      while more
        invariant Filling(lo) && OnPage(lo) && lo < offsetActive && First(np) <= offsetPassive
        invariant res && CopyRun(g, old(nvs[..]), old(supply), lo, First(lo), First(np)) ==
                         CopyRun(g, nvs[..], supply, lo, offsetActive, offsetPassive)
        invariant more <==> NextToCopy(g, nvs[..], lo, offsetActive).Some?
        invariant more ==>
          var e := NextToCopy(g, nvs[..], lo, offsetActive).value; next == e.at && next + completeLen == e.End()
        decreases lo + g.pageLen - offsetActive, if more then 1 else 0
      {
        ghost var m := nvs[..];
        ghost var k := supply;
        var op := Write(offsetPassive, nvs[next..next + completeLen]);
        assert nvs[next..next + completeLen] == m[next..next + completeLen];
        CopyStep(m, k, lo, offsetActive, offsetPassive);
        res := Step(op);
        PerformIs(m, op, k);
        FillingStep(m, lo, op, k);
        FillingPage(nvs[..], lo);
        if !res {
          return;
        }
        offsetActive := next + completeLen;
        offsetPassive := offsetPassive + completeLen;
        more, next, completeLen := FindNext(offsetActive, lo);
      }
      CopyStep(nvs[..], supply, lo, offsetActive, offsetPassive);
    }

    lemma PerformIs(m: seq<byte>, op: Op, k: nat)
      ensures Perform(g, m, Plan([op], true), k).flash == Cut(m, [op], k, Chip(g))
    {
    }

    lemma CopyStep(n: seq<byte>, k: nat, lo: nat, offset: nat, dst: nat)
      requires IsFlash(g, n) && lo <= g.pageLen
      ensures CopyRun(g, n, k, lo, offset, dst) ==
              match NextToCopy(g, n, lo, offset)
              case None => Outcome(n, k, true)
              case Some(e) =>
                var w := Perform(g, n, Plan([Write(dst, n[e.at..e.End()])], true), k);
                if w.res then CopyRun(g, w.flash, w.supply, lo, e.End(), dst + (e.End() - e.at)) else w
    {
      hide NextToCopy, Perform, Active;
    }

    lemma ErasedFilling(m: seq<byte>, lo: nat, k: nat)
      requires IsFlash(g, m) && Active(g, m) == Some(lo)
      requires Done(m, [Erase(Passive(g, lo), g.pageLen)], k, Chip(g))
      ensures var n := Cut(m, [Erase(Passive(g, lo), g.pageLen)], k, Chip(g));
              (lo == 0 || lo == g.pageLen) && if lo == 0 then Marked(n, 0) else n[0] == ERASED
    {
      var op := Erase(Passive(g, lo), g.pageLen);
      CutOne(m, op, k, Chip(g));
      assert lo == 0 ==> Cut(m, [op], k, Chip(g))[0..MARK_LEN] == m[0..MARK_LEN];
    }

    /** Copies every scanned record to the other page, marks it, then unmarks the page that was active. */
    method TurnPage() returns (res: bool)
      requires Valid()
      modifies nvs, `supply
      ensures Outcome(nvs[..], supply, res) == TurnRun(g, old(nvs[..]), old(supply))
    {
      hide Active, NorFlash.Cut, NorFlash.Done, Spent, CopyRun, Marked;
      res := false;
      var page := GetActivePage();
      if page.None? {
        return;
      }
      var lo := page.value;
      var np := if lo == 0 then g.pageLen else 0;
      res := Step(Erase(np, g.pageLen));
      if !res {
        return;
      }
      ErasedFilling(old(nvs[..]), lo, old(supply));
      res := CopyRecords(lo, np);
      if !res {
        return;
      }
      res := Step(Write(np, MARK));
      if !res {
        return;
      }
      res := Step(Zero(lo, MARK_LEN));
    }

    /** Turns the page when the active one cannot hold another record. */
    method Maintain() returns (res: bool)
      requires Valid()
      modifies nvs, `supply
      ensures Outcome(nvs[..], supply, res) == MaintainRun(g, old(nvs[..]), old(supply))
    {
      hide PageScan, RepairOps, Last, NorFlash.Cut, NorFlash.Done, Spent, TurnRun;
      ghost var m := nvs[..];
      ghost var k0 := supply;
      var item, empty, rem;
      res, item, empty, rem := FindField(INVALID_ID, 100 * MIN_FILE_LEN);
      assert GetPlan(g, m, INVALID_ID).verdict ==> !NeedsTurn(g, m);
      if !res {
        res := true;
        if Active(g, m).Some? {
          NoRepair(g, m, Active(g, m).value, INVALID_ID);
          CutNone(m, k0, Chip(g));
        }
        if rem < MIN_FILE_LEN {
          assert NeedsTurn(g, m) && nvs[..] == m && supply == k0;
          res := TurnPage();
        }
      }
    }

    method Format() returns (res: bool)
      requires Valid()
      modifies nvs, `supply
      ensures Ran(old(nvs[..]), old(supply), FormatPlan(g).ops)
      ensures res == Done(old(nvs[..]), FormatPlan(g).ops, old(supply), Chip(g))
    {
      hide NorFlash.Cut, NorFlash.Done, Spent, Spent;
      ghost var m := nvs[..];
      ghost var k0 := supply;
      ghost var a := [Zero(g.pageLen, MARK_LEN)];
      ghost var b := a + [Erase(0, g.pageLen)];
      CutNone(m, k0, Chip(g));
      assert [] + a == a && FormatPlan(g).ops == b + [Write(0, MARK)];
      CutConcat(m, a, [Erase(0, g.pageLen)], k0, Chip(g));
      CutConcat(m, b, [Write(0, MARK)], k0, Chip(g));
      res := FlashZero(g.pageLen, MARK_LEN, m, k0, []);
      if res {
        res := FlashErase(0, g.pageLen, m, k0, a);
      }
      if res {
        res := FlashWrite(0, MARK, m, k0, b);
      }
    }

    /** Reads the reboot counter into two bytes and stores the next one. */
    method CountReboot() returns (res: bool)
      requires Valid()
      modifies nvs, `supply
      ensures Outcome(nvs[..], supply, res) == CountBoot(g, old(nvs[..]), old(supply))
    {
      hide NorFlash.Cut, NorFlash.Done, Spent, GetPlan, SetPlan, View, Counter, LittleEndian;
      var found, data := Get(REBOOT_CNT, 2);
      var rebootCnt := 0;
      if found {
        rebootCnt := (LittleEndian(data) + 1) % 0x1_0000;
      }
      ghost var read := Perform(g, old(nvs[..]), GetPlan(g, old(nvs[..]), REBOOT_CNT), old(supply));
      ReadVerdict(g, old(nvs[..]), REBOOT_CNT);
      assert rebootCnt == if read.res then NextCounter(g, old(nvs[..])) else 0;
      res := Set(REBOOT_CNT, Counter(rebootCnt));
    }

    /** Formats if no page is active, then counts the boot. */
    method Init() returns (res: bool)
      requires Valid()
      modifies nvs, `supply
      ensures Outcome(nvs[..], supply, res) == InitStore(g, old(nvs[..]), old(supply))
    {
      hide NorFlash.Cut, NorFlash.Done, Spent, CountBoot, FormatPlan, Active;
      var page := GetActivePage();
      if page.None? {
        res := Format();
      }
      res := CountReboot();
    }
  }
}
