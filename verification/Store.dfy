/**
 The key-value store over two adjacent pages, as values: which page is active, what a reader sees, and the
 list of flash operations that each call performs on a given flash content.
 */
module Store {
  import opened Bytes
  import opened NorFlash
  import opened Records

  const MARK: seq<byte> := [0x00, 0x00, 0xA5, 0x5A]

  /**
   Page length, checksum and whether writes are verified; page 2 starts where page 1 ends. Both pages have
   addresses of 32 bits.
   */
  datatype GeometryRaw = Geometry(pageLen: nat, crc: Crc, verify: bool)
  type Geometry = g: GeometryRaw | 16 <= g.pageLen < 0x8000_0000 witness Geometry(16, _ => 0, false)

  /** The two pages as the flash driver sees them. */
  function Chip(g: Geometry): Device { Device(2 * g.pageLen, g.verify) }

  /** Both pages, then the bytes after them that a scan of page 2 can read. */
  function FlashLen(g: Geometry): nat { 2 * g.pageLen + SPILL }

  predicate IsFlash(g: Geometry, m: seq<byte>) { |m| == FlashLen(g) }

  predicate Marked(m: seq<byte>, lo: nat)
    requires lo + MARK_LEN <= |m|
  {
    m[lo..lo + MARK_LEN] == MARK
  }

  /** The page that readers use; page 1 is preferred when both carry the mark. */
  function Active(g: Geometry, m: seq<byte>): (r: Option<nat>)
    requires IsFlash(g, m)
    ensures r.Some? ==> r.value == 0 || r.value == g.pageLen
  {
    if Marked(m, 0) then Some(0) else if Marked(m, g.pageLen) then Some(g.pageLen) else None
  }

  function First(lo: nat): nat { lo + MARK_LEN }

  function PageScan(g: Geometry, m: seq<byte>, lo: nat): seq<Entry>
    requires IsFlash(g, m) && lo <= g.pageLen
  {
    Scan(g.crc, m, First(lo), lo + g.pageLen)
  }

  /** The map of the last copies of the active page. `ReadBack` says what a read makes of it. */
  function View(g: Geometry, m: seq<byte>): map<nat, seq<byte>>
    requires IsFlash(g, m)
  {
    match Active(g, m)
    case None => map[]
    case Some(lo) => MapOf(PageScan(g, m, lo))
  }

  /** The offset after the last record. */
  function Empty(g: Geometry, m: seq<byte>, lo: nat): nat
    requires IsFlash(g, m) && lo <= g.pageLen
  {
    var s := PageScan(g, m, lo);
    Bound(s, First(lo), |s|)
  }

  /** Unsigned 32-bit `page length - used`, which wraps when the last record overhangs the page. */
  function RemSpace(g: Geometry, lo: nat, empty: nat): nat
    requires lo <= empty
  {
    if empty - lo <= g.pageLen then g.pageLen - (empty - lo)
    else 0x1_0000_0000 - (empty - lo - g.pageLen) % 0x1_0000_0000
  }

  function Header(g: Geometry, id: nat, data: seq<byte>): (r: seq<byte>)
    ensures |r| == HEADER_LEN
  {
    [Low(id), High(id), 0xFF - Low(id), 0xFF - High(id), Low(|data|), High(|data|), g.crc(data)]
  }

  function Encode(g: Geometry, e: Entry): (r: seq<byte>)
    ensures |r| == HEADER_LEN + |e.data|
  {
    Header(g, e.id, e.data) + e.data
  }

  /** Duplicate repair: every copy but the last is zeroed, in scan order. */
  function RepairOps(s: seq<Entry>, id: nat): seq<Op> {
    if s == [] then []
    else
      var init := s[..|s| - 1];
      if s[|s| - 1].id == id && Last(init, id).Some?
      then RepairOps(init, id) + [Zero(Last(init, id).value.at, HEADER_LEN + |Last(init, id).value.data|)]
      else RepairOps(init, id)
  }

  /** What a call does to the flash, and what it returns when all of that succeeds. */
  datatype Plan = Plan(ops: seq<Op>, verdict: bool)

  function GetPlan(g: Geometry, m: seq<byte>, id: nat): Plan
    requires IsFlash(g, m)
  {
    match Active(g, m)
    case None => Plan([], false)
    case Some(lo) => var s := PageScan(g, m, lo); Plan(RepairOps(s, id), Last(s, id).Some?)
  }

  /** What `mm_get` returns when its supply lasts and its buffer is large enough. */
  function ReadBack(g: Geometry, m: seq<byte>, id: nat): Option<seq<byte>>
    requires IsFlash(g, m)
  {
    var ops := GetPlan(g, m, id).ops;
    if id != INVALID_ID && id in View(g, m) && Done(m, ops, Total(ops), Chip(g)) then Some(View(g, m)[id]) else None
  }

  /** The writes of a record at `empty` and the kill of the previous header. */
  function UpdateOps(g: Geometry, empty: nat, id: nat, data: seq<byte>, prev: Option<Entry>): seq<Op> {
    [Write(empty, Header(g, id, data))] + [Write(empty + HEADER_LEN, data)] +
    match prev case None => [] case Some(p) => [Zero(p.at, HEADER_LEN)]
  }

  function SetPlan(g: Geometry, m: seq<byte>, id: nat, data: seq<byte>): Plan
    requires IsFlash(g, m)
  {
    if id == INVALID_ID || data == [] || Active(g, m).None? then Plan([], false)
    else
      var lo := Active(g, m).value;
      var s := PageScan(g, m, lo);
      var prev := Last(s, id);
      if prev.Some? && prev.value.data == data then Plan(RepairOps(s, id), true)
      else if RemSpace(g, lo, Empty(g, m, lo)) < |data| then Plan(RepairOps(s, id), false)
      else Plan(RepairOps(s, id) + UpdateOps(g, Empty(g, m, lo), id, data, prev), true)
  }

  function InvalidatePlan(g: Geometry, m: seq<byte>, id: nat): Plan
    requires IsFlash(g, m)
  {
    var p := GetPlan(g, m, id);
    if !p.verdict then p
    else
      var e := Last(PageScan(g, m, Active(g, m).value), id).value;
      Plan(p.ops + [Zero(e.at, HEADER_LEN + |e.data|)], true)
  }

  function Size(s: seq<Entry>): nat {
    if s == [] then 0 else Size(s[..|s| - 1]) + HEADER_LEN + |s[|s| - 1].data|
  }

  function Passive(g: Geometry, lo: nat): nat { if lo == 0 then g.pageLen else 0 }

  function CopyOps(g: Geometry, s: seq<Entry>, dst: nat): seq<Op> {
    if s == [] then []
    else CopyOps(g, s[..|s| - 1], dst) + [Write(dst + Size(s[..|s| - 1]), Encode(g, s[|s| - 1]))]
  }

  /** Erase the passive page and copy every scanned record to it. */
  function FillOps(g: Geometry, s: seq<Entry>, np: nat): seq<Op> {
    [Erase(np, g.pageLen)] + CopyOps(g, s, First(np))
  }

  function TurnPlan(g: Geometry, m: seq<byte>): Plan
    requires IsFlash(g, m)
  {
    match Active(g, m)
    case None => Plan([], false)
    case Some(lo) =>
      var np := Passive(g, lo);
      Plan(FillOps(g, PageScan(g, m, lo), np) + [Write(np, MARK)] + [Zero(lo, MARK_LEN)], true)
  }

  /** The active page has no room for even a one-byte record, and holds none with the invalid id. */
  predicate NeedsTurn(g: Geometry, m: seq<byte>)
    requires IsFlash(g, m)
  {
    Active(g, m).Some? &&
    var lo := Active(g, m).value;
    && Last(PageScan(g, m, lo), INVALID_ID).None?
    && RemSpace(g, lo, Empty(g, m, lo)) < MIN_FILE_LEN
  }

  function MaintainPlan(g: Geometry, m: seq<byte>): Plan
    requires IsFlash(g, m)
  {
    if NeedsTurn(g, m) then TurnPlan(g, m) else Plan(GetPlan(g, m, INVALID_ID).ops, true)
  }

  function FormatPlan(g: Geometry): Plan {
    Plan([Zero(g.pageLen, MARK_LEN)] + [Erase(0, g.pageLen)] + [Write(0, MARK)], true)
  }

  const REBOOT_CNT := 1

  function LittleEndian(data: seq<byte>): nat {
    if data == [] then 0 else data[0] as int + 256 * LittleEndian(data[1..])
  }

  function Counter(n: nat): (r: seq<byte>)
    ensures |r| == 2
  {
    [Low(n), High(n)]
  }

  /** The reboot counter to store next: one more than a stored value of at most two bytes, else zero. */
  function NextCounter(g: Geometry, m: seq<byte>): nat
    requires IsFlash(g, m)
  {
    var v := View(g, m);
    if REBOOT_CNT in v && |v[REBOOT_CNT]| <= 2 then (LittleEndian(v[REBOOT_CNT]) + 1) % 0x1_0000 else 0
  }

  /** What a call leaves behind: the flash, the supply, and the result. */
  datatype Outcome = Outcome(flash: seq<byte>, supply: nat, res: bool)

  function Perform(g: Geometry, m: seq<byte>, p: Plan, k: nat): (r: Outcome)
    ensures |r.flash| == |m|
  {
    Outcome(Cut(m, p.ops, k, Chip(g)), k - Spent(m, p.ops, k, Chip(g)), p.verdict && Done(m, p.ops, k, Chip(g)))
  }

  /** The next record that a page turn copies, from `offset` on: none if the page is no longer active. */
  function NextToCopy(g: Geometry, n: seq<byte>, lo: nat, offset: nat): (r: Option<Entry>)
    requires IsFlash(g, n) && lo <= g.pageLen
    ensures r.Some? ==> offset <= r.value.at && r.value.at + MIN_FILE_LEN < lo + g.pageLen && r.value.End() <= |n|
  {
    FirstOfScan(g.crc, n, offset, lo + g.pageLen);
    var t := Scan(g.crc, n, offset, lo + g.pageLen);
    if Active(g, n) != Some(lo) || t == [] then None else Some(t[0])
  }

  /** The copy loop, on the flash as it changes. */
  function CopyRun(g: Geometry, n: seq<byte>, k: nat, lo: nat, offset: nat, dst: nat): (r: Outcome)
    requires IsFlash(g, n) && lo <= g.pageLen
    ensures |r.flash| == |n|
    decreases lo + g.pageLen - offset
  {
    match NextToCopy(g, n, lo, offset)
    case None => Outcome(n, k, true)
    case Some(e) =>
      var w := Perform(g, n, Plan([Write(dst, n[e.at..e.End()])], true), k);
      if w.res then CopyRun(g, w.flash, w.supply, lo, e.End(), dst + (e.End() - e.at)) else w
  }

  /** A page turn, on any flash: erase, copy, mark, unmark. */
  function TurnRun(g: Geometry, m: seq<byte>, k: nat): (r: Outcome)
    requires IsFlash(g, m)
    ensures |r.flash| == |m|
  {
    match Active(g, m)
    case None => Outcome(m, k, false)
    case Some(lo) =>
      var np := Passive(g, lo);
      var a := Perform(g, m, Plan([Erase(np, g.pageLen)], true), k);
      if !a.res then a else
      var c := CopyRun(g, a.flash, a.supply, lo, First(lo), First(np));
      if !c.res then c else
      var w := Perform(g, c.flash, Plan([Write(np, MARK)], true), c.supply);
      if !w.res then w else Perform(g, w.flash, Plan([Zero(lo, MARK_LEN)], true), w.supply)
  }

  /** Maintenance, on any flash. */
  function MaintainRun(g: Geometry, m: seq<byte>, k: nat): (r: Outcome)
    requires IsFlash(g, m)
    ensures |r.flash| == |m|
  {
    if NeedsTurn(g, m) then TurnRun(g, m, k)
    else Perform(g, m, GetPlan(g, m, INVALID_ID), k).(res := true)
  }

  /** Read the counter; store the next one, or zero if the read failed. */
  function CountBoot(g: Geometry, m: seq<byte>, k: nat): (r: Outcome)
    requires IsFlash(g, m)
    ensures IsFlash(g, r.flash)
  {
    var read := Perform(g, m, GetPlan(g, m, REBOOT_CNT), k);
    var next := if read.res then NextCounter(g, m) else 0;
    Perform(g, read.flash, SetPlan(g, read.flash, REBOOT_CNT, Counter(next)), read.supply)
  }

  /** Format if no page is active, then count the boot. */
  function InitStore(g: Geometry, m: seq<byte>, k: nat): (r: Outcome)
    requires IsFlash(g, m)
    ensures IsFlash(g, r.flash)
  {
    if Active(g, m).Some? then CountBoot(g, m, k)
    else var f := Perform(g, m, FormatPlan(g), k); CountBoot(g, f.flash, f.supply)
  }
}
