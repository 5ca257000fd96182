/** Initialisation at every boot: an active page from any flash content, and a reboot counter that counts. */
module InitLaws {
  import opened Bytes
  import opened NorFlash
  import opened Records
  import opened Store
  import opened StoreSteps
  import opened Copies
  import opened StoreLaws
  import opened TurnLaws
  import opened TidyStore
  import opened TidyOps
  import opened Steady
  import opened Reads
  import opened Runs
  import opened MildRuns

  /** Wherever the supply fails, counting a boot leaves the active page active. */
  lemma CountActive(g: Geometry, m: seq<byte>, k: nat)
    requires IsFlash(g, m) && Active(g, m).Some?
    ensures Active(g, CountBoot(g, m, k).flash) == Active(g, m)
  {
    hide Cut, Done, Spent, GetPlan, SetPlan, NextCounter, Active;
    SearchActive(g, m, REBOOT_CNT, k);
    var read := Perform(g, m, GetPlan(g, m, REBOOT_CNT), k);
    var next := if read.res then NextCounter(g, m) else 0;
    SetActive(g, read.flash, REBOOT_CNT, Counter(next), read.supply);
  }

  /**
   From any flash content and with any supply: an initialisation keeps the active page, and if there is none it
   ends with page 1 active as soon as the supply lasts for formatting.
   */
  lemma InitActive(g: Geometry, m: seq<byte>, k: nat)
    requires IsFlash(g, m)
    ensures Active(g, m).Some? ==> Active(g, InitStore(g, m, k).flash) == Active(g, m)
    ensures Active(g, m).None? && k >= g.pageLen + 2 * MARK_LEN ==> Active(g, InitStore(g, m, k).flash) == Some(0)
  {
    hide Cut, Done, CountBoot, Active, Tidy;
    if Active(g, m).Some? {
      CountActive(g, m, k);
    } else if k >= g.pageLen + 2 * MARK_LEN {
      FormatWith(g, m, k);
      var f := Perform(g, m, FormatPlan(g), k);
      TidyActive(g, f.flash, 0, []);
      CountActive(g, f.flash, f.supply);
    }
  }

  lemma FormatTotal(g: Geometry)
    ensures Total(FormatPlan(g).ops) == g.pageLen + 2 * MARK_LEN
  {
    hide Cut, Done, Spent;
    CutTwo([], [Zero(g.pageLen, MARK_LEN)], Erase(0, g.pageLen), Write(0, MARK), 0, Chip(g));
    CutOne([], Zero(g.pageLen, MARK_LEN), 0, Chip(g));
  }

  /** Formatting with a supply that lasts. */
  lemma FormatWith(g: Geometry, m: seq<byte>, k: nat)
    requires IsFlash(g, m) && k >= g.pageLen + 2 * MARK_LEN
    ensures var f := Perform(g, m, FormatPlan(g), k);
            && f.res && f.supply == k - g.pageLen - 2 * MARK_LEN
            && Tidy(g, f.flash, 0, []) && View(g, f.flash) == map[]
  {
    hide Cut, Done, Spent, Tidy, View, FormatPlan;
    FormatTotal(g);
    FormatReady(g, m);
    DoneMore(m, FormatPlan(g).ops, Total(FormatPlan(g).ops), k, Chip(g));
    DoneSpent(m, FormatPlan(g).ops, k, Chip(g));
    assert FormatPlan(g).verdict by { FormatVerdict(g); }
  }

  lemma FormatVerdict(g: Geometry)
    ensures FormatPlan(g).verdict
  {
  }

  lemma CounterValue(n: nat)
    requires n <= 0xFFFF
    ensures LittleEndian(Counter(n)) == n && Counter(n) != [] && |Counter(n)| == 2
  {
    var c := Counter(n);
    assert c[1..] == [High(n)] && c[1..][1..] == [];
    assert LittleEndian(c[1..]) == High(n) as int + 256 * LittleEndian([]);
    WordBytes(n);
  }

  lemma NextModulo(n: nat)
    ensures (n % 0x1_0000 + 1) % 0x1_0000 == (n + 1) % 0x1_0000
  {
  }

  lemma NextIs(g: Geometry, m: seq<byte>, v: nat)
    requires IsFlash(g, m) && v <= 0xFFFF
    requires REBOOT_CNT in View(g, m) && View(g, m)[REBOOT_CNT] == Counter(v)
    ensures NextCounter(g, m) == (v + 1) % 0x1_0000
  {
    hide View, Counter, LittleEndian;
    CounterValue(v);
  }

  /** The counter to store is never the one that is stored. */
  lemma NextDiffers(g: Geometry, m: seq<byte>)
    requires IsFlash(g, m)
    ensures NextCounter(g, m) <= 0xFFFF
    ensures REBOOT_CNT in View(g, m) ==> View(g, m)[REBOOT_CNT] != Counter(NextCounter(g, m))
  {
    hide View, Counter, LittleEndian;
    var next := NextCounter(g, m);
    CounterValue(next);
  }

  /** The bytes one more initialisation takes. */
  const COUNTER_SIZE := 9

  function Space(g: Geometry, m: seq<byte>): nat
    requires IsFlash(g, m)
  {
    match Active(g, m)
    case None => 0
    case Some(lo) => if Empty(g, m, lo) <= lo + g.pageLen then lo + g.pageLen - Empty(g, m, lo) else 0
  }

  /** The flash after a boot on an active page, when the supply lasts: a read and an update. */
  function Booted(g: Geometry, m: seq<byte>): (n: seq<byte>)
    requires IsFlash(g, m)
    ensures IsFlash(g, n)
  {
    Exec(g, Exec(g, m, CGet(REBOOT_CNT)), CSet(REBOOT_CNT, Counter(NextCounter(g, m))))
  }

  /** What the read and the update of a boot need, when nothing is refused. */
  function BootCost(g: Geometry, m: seq<byte>): nat
    requires IsFlash(g, m)
  {
    Total(GetPlan(g, m, REBOOT_CNT).ops) +
    Total(SetPlan(g, Exec(g, m, CGet(REBOOT_CNT)), REBOOT_CNT, Counter(NextCounter(g, m))).ops)
  }

  /** Neither the read nor the update of a boot leaves dead bytes that collide with a record. */
  ghost predicate QuietBoot(g: Geometry, m: seq<byte>)
    requires IsFlash(g, m)
  {
    && !Collides(g, m, CGet(REBOOT_CNT))
    && !Collides(g, Exec(g, m, CGet(REBOOT_CNT)), CSet(REBOOT_CNT, Counter(NextCounter(g, m))))
  }

  /** Shadowed copies of the counter, if there are any, can be zeroed. */
  ghost predicate Repairable(g: Geometry, m: seq<byte>)
    requires IsFlash(g, m)
  {
    Active(g, m).Some? &&
    var s := PageScan(g, m, Active(g, m).value);
    forall e :: e in s && e !in Keep(s, REBOOT_CNT) ==> |e.data| <= 249
  }

  /** A store on which a boot stores the counter. */
  ghost predicate Bootable(g: Geometry, m: seq<byte>, n: nat)
    requires IsFlash(g, m)
  {
    Sound(g, m, true) && Repairable(g, m) && Space(g, m) >= COUNTER_SIZE * n
  }

  /** The copies that are left after a search were there before, and the last one is the same. */
  lemma ShadowsKept(s: seq<Entry>, t: seq<Entry>, o: nat, id: nat)
    requires InOrder(s, o) && InOrder(t, o) && MapOf(s) == MapOf(t)
    requires forall e :: e in t ==> e in s
    requires forall e :: e in Keep(s, id) ==> e in t
    requires forall e :: e in s && e !in Keep(s, id) ==> |e.data| <= 249
    ensures forall e :: e in t && e !in Keep(t, id) ==> |e.data| <= 249
  {
    hide Keep, MapOf;
    KeepIn(s, id);
    KeepIn(t, id);
    SameLookup(t, s, o, id);
  }

  /** The read of a boot: nothing changes but that shadowed copies are zeroed. */
  lemma ReadBoot(g: Geometry, m: seq<byte>)
    requires IsFlash(g, m) && Bootable(g, m, 1) && !Collides(g, m, CGet(REBOOT_CNT))
    ensures var r := Exec(g, m, CGet(REBOOT_CNT));
            && Bootable(g, r, 1) && View(g, r) == View(g, m) && Space(g, r) == Space(g, m) && Active(g, r) == Active(g, m)
            && Done(m, GetPlan(g, m, REBOOT_CNT).ops, Total(GetPlan(g, m, REBOOT_CNT).ops), Chip(g))
  {
    hide Cut, Done, PageScan, Keep, RepairOps, MapOf, Fits, Empty, Erased, Readable, Total, Stored, Live, Quiet;
    ReadableActive(g, m);
    var lo := Active(g, m).value;
    var s := PageScan(g, m, lo);
    var k := Total(RepairOps(s, REBOOT_CNT));
    var r := Exec(g, m, CGet(REBOOT_CNT));
    StepSound(g, m, true, CGet(REBOOT_CNT));
    SearchAtomic(g, m, lo, REBOOT_CNT, k);
    RepairGoes(g, m, lo, REBOOT_CNT, k);
    PageLive(g, m, lo);
    PageLive(g, r, lo);
    forall e | e in Keep(s, REBOOT_CNT) ensures e in PageScan(g, r, lo) {
      KeptFound(g, m, lo, REBOOT_CNT, k, e);
    }
    ShadowsKept(s, PageScan(g, r, lo), First(lo), REBOOT_CNT);
  }

  /** A boot on a store with room, any values on it: the next counter is stored, and no other id is touched. */
  lemma CountExact(g: Geometry, m: seq<byte>)
    requires IsFlash(g, m) && Bootable(g, m, 1) && QuietBoot(g, m)
    ensures var n := Booted(g, m);
            && View(g, n) == View(g, m)[REBOOT_CNT := Counter(NextCounter(g, m))]
            && Sound(g, n, true) && Repairable(g, n) && Space(g, n) == Space(g, m) - COUNTER_SIZE
            && Active(g, n) == Active(g, m)
    ensures forall k :: k >= BootCost(g, m) ==> InitStore(g, m, k) == Outcome(Booted(g, m), k - BootCost(g, m), true)
  {
    hide Cut, Done, Spent, PageScan, Keep, RepairOps, View, Fits, Empty, Erased, Readable, Total, SetPlan, NextCounter, Counter,
         Collides, Exec, Sound, Space, GetPlan;
    ReadBoot(g, m);
    SoundActive(g, m);
    var r := Exec(g, m, CGet(REBOOT_CNT));
    NextDiffers(g, m);
    var v := NextCounter(g, m);
    CounterValue(v);
    SetBoot(g, r, v);
    forall k | k >= BootCost(g, m) ensures InitStore(g, m, k) == Outcome(Booted(g, m), k - BootCost(g, m), true) {
      BootIs(g, m, k);
    }
  }

  lemma SoundActive(g: Geometry, m: seq<byte>)
    requires IsFlash(g, m) && Sound(g, m, true)
    ensures Readable(g, m) && Erased(g, m) && Active(g, m).Some?
  {
  }

  /** The update of a boot. */
  lemma SetBoot(g: Geometry, r: seq<byte>, v: nat)
    requires IsFlash(g, r) && Bootable(g, r, 1) && v <= 0xFFFF
    requires REBOOT_CNT in View(g, r) ==> View(g, r)[REBOOT_CNT] != Counter(v)
    requires !Collides(g, r, CSet(REBOOT_CNT, Counter(v)))
    ensures var n := Exec(g, r, CSet(REBOOT_CNT, Counter(v)));
            var plan := SetPlan(g, r, REBOOT_CNT, Counter(v));
            && View(g, n) == View(g, r)[REBOOT_CNT := Counter(v)]
            && Sound(g, n, true) && Repairable(g, n) && Space(g, n) == Space(g, r) - COUNTER_SIZE
            && Active(g, n) == Active(g, r)
            && plan.verdict && Done(r, plan.ops, Total(plan.ops), Chip(g))
  {
    hide Cut, Done, PageScan, Keep, RepairOps, View, Fits, Empty, Erased, Readable, Total, SetPlan, Counter, NoPhantom;
    SoundActive(g, r);
    var lo := Active(g, r).value;
    var data := Counter(v);
    var k := Total(SetPlan(g, r, REBOOT_CNT, data).ops);
    CounterValue(v);
    CounterRoom(g, r, lo, data);
    BootUpdates(g, r, lo, data);
    ReadableEnd(g, r, lo);
    ErasedTakes(g, r, lo, REBOOT_CNT, data);
    SetTotals(g, r, lo, REBOOT_CNT, data);
    RepairGoes(g, r, lo, REBOOT_CNT, k);
    SetGoes(g, r, lo, REBOOT_CNT, data, k);
    SetSteady(g, r, lo, REBOOT_CNT, data, k);
    UpdateDiffers(g, r, lo, REBOOT_CNT, data);
    BootShadows(g, r, lo, data, k);
  }

  lemma CounterRoom(g: Geometry, r: seq<byte>, lo: nat, data: seq<byte>)
    requires IsFlash(g, r) && Active(g, r) == Some(lo) && Space(g, r) >= COUNTER_SIZE && |data| == 2
    ensures HasRoom(g, lo, Empty(g, r, lo), |data|)
  {
    hide Empty;
  }

  lemma BootUpdates(g: Geometry, r: seq<byte>, lo: nat, data: seq<byte>)
    requires IsFlash(g, r) && Active(g, r) == Some(lo) && |data| == 2 && HasRoom(g, lo, Empty(g, r, lo), |data|)
    requires REBOOT_CNT in View(g, r) ==> View(g, r)[REBOOT_CNT] != data
    ensures Updates(g, r, lo, REBOOT_CNT, data)
  {
    hide PageScan, MapOf, Empty, Last;
    EmptyAbove(g, r, lo);
    LastIsMap(PageScan(g, r, lo), REBOOT_CNT);
  }

  /** After the update the new counter shadows only copies that can be zeroed. */
  lemma BootShadows(g: Geometry, r: seq<byte>, lo: nat, data: seq<byte>, k: nat)
    requires IsFlash(g, r) && Updates(g, r, lo, REBOOT_CNT, data) && Repairable(g, r)
    requires Done(r, SetPlan(g, r, REBOOT_CNT, data).ops, k, Chip(g))
    requires var n := Cut(r, SetPlan(g, r, REBOOT_CNT, data).ops, k, Chip(g));
             var e := New(g, r, lo, REBOOT_CNT, data);
             Active(g, n) == Some(lo) && NoPhantom(g, r, n, lo, Some(e)) && e in PageScan(g, n, lo)
    ensures Repairable(g, Cut(r, SetPlan(g, r, REBOOT_CNT, data).ops, k, Chip(g)))
  {
    hide Cut, Done, PageScan, Keep, SetPlan, Empty, Stored, Live, Quiet;
    var n := Cut(r, SetPlan(g, r, REBOOT_CNT, data).ops, k, Chip(g));
    var s, t := PageScan(g, r, lo), PageScan(g, n, lo);
    var e := New(g, r, lo, REBOOT_CNT, data);
    OldIsGone(g, r, lo, REBOOT_CNT, data, k);
    PageLive(g, n, lo);
    KeepIn(s, REBOOT_CNT);
    KeepIn(t, REBOOT_CNT);
    forall x | x in t && x.id == REBOOT_CNT ensures x.at <= e.at {
      if x in s { EndsBeforeEmpty(g, r, lo, x); }
    }
    LastUnique(t, First(lo), e);
  }

  /** With a supply that lasts, the driver's initialisation is the read and the update. */
  lemma BootIs(g: Geometry, m: seq<byte>, k: nat)
    requires IsFlash(g, m) && Active(g, m).Some? && k >= BootCost(g, m)
    requires Done(m, GetPlan(g, m, REBOOT_CNT).ops, Total(GetPlan(g, m, REBOOT_CNT).ops), Chip(g))
    requires var r := Exec(g, m, CGet(REBOOT_CNT));
             var plan := SetPlan(g, r, REBOOT_CNT, Counter(NextCounter(g, m)));
             plan.verdict && Done(r, plan.ops, Total(plan.ops), Chip(g))
    ensures InitStore(g, m, k) == Outcome(Booted(g, m), k - BootCost(g, m), true)
  {
    hide Cut, Done, Spent, GetPlan, SetPlan, Counter, LittleEndian, View, Total;
    var b := GetPlan(g, m, REBOOT_CNT).ops;
    var r := Exec(g, m, CGet(REBOOT_CNT));
    DoneMore(m, b, Total(b), k, Chip(g));
    DoneSpent(m, b, k, Chip(g));
    var read := Perform(g, m, GetPlan(g, m, REBOOT_CNT), k);
    ReadVerdict(g, m, REBOOT_CNT);
    var next := if read.res then NextCounter(g, m) else 0;
    var plan := SetPlan(g, r, REBOOT_CNT, Counter(next));
    DoneMore(r, plan.ops, Total(plan.ops), read.supply, Chip(g));
    DoneSpent(r, plan.ops, read.supply, Chip(g));
  }

  /** The flash after `n` more boots. */
  function Boots(g: Geometry, m: seq<byte>, n: nat): (r: seq<byte>)
    requires IsFlash(g, m)
    ensures IsFlash(g, r)
  {
    if n == 0 then m else Booted(g, Boots(g, m, n - 1))
  }

  /** None of the next `n` boots leaves dead bytes that collide with a record. */
  ghost predicate QuietBoots(g: Geometry, m: seq<byte>, n: nat)
    requires IsFlash(g, m)
  {
    forall i: nat :: i < n ==> QuietBoot(g, Boots(g, m, i))
  }

  lemma BootableMore(g: Geometry, m: seq<byte>, n: nat)
    requires IsFlash(g, m) && Bootable(g, m, n) && n > 0
    ensures Bootable(g, m, n - 1) && Bootable(g, m, 1)
  {
    hide Sound, Repairable, Space;
  }

  /**
   On any store with nine bytes of room for each of them, `n` initialisations advance the counter by `n` modulo
   65536, touch no other id, and take nine bytes each.
   */
  lemma {:induction false} BootsCountModulo(g: Geometry, m: seq<byte>, c: nat, n: nat)
    requires IsFlash(g, m) && Bootable(g, m, n) && QuietBoots(g, m, n) && c <= 0xFFFF
    requires REBOOT_CNT in View(g, m) && View(g, m)[REBOOT_CNT] == Counter(c)
    ensures var p := Boots(g, m, n);
            && View(g, p) == View(g, m)[REBOOT_CNT := Counter((c + n) % 0x1_0000)]
            && Bootable(g, p, 0) && Space(g, p) == Space(g, m) - COUNTER_SIZE * n
  {
    hide View, Counter, Sound, Repairable, Space, NextCounter, Booted, QuietBoot, BootCost, InitStore;
    if n == 0 {
      assert View(g, m)[REBOOT_CNT := Counter(c)] == View(g, m);
    } else {
      BootableMore(g, m, n);
      BootsCountModulo(g, m, c, n - 1);
      var p := Boots(g, m, n - 1);
      NextIs(g, p, (c + n - 1) % 0x1_0000);
      NextModulo(c + n - 1);
      CountExact(g, p);
    }
  }

  /** On a tidy store, counters below 0x8000 collide with nothing. */
  lemma QuietCount(g: Geometry, m: seq<byte>)
    requires IsFlash(g, m) && Ready(g, m) && Space(g, m) >= COUNTER_SIZE && NextCounter(g, m) < 0x8000
    ensures QuietBoot(g, m) && Ready(g, Booted(g, m))
  {
    hide Cut, Tidy, View, SetPlan, NextCounter, PageScan, Counter, Mild, RepairOps, Empty, NoPhantom, Fits;
    var lo, s :| Tidy(g, m, lo, s);
    TidyActive(g, m, lo, s);
    TidyScan(g, m, lo, s);
    GentleSearch(g, m, lo, s, REBOOT_CNT);
    var r := Exec(g, m, CGet(REBOOT_CNT));
    SearchSpace(g, m, lo, Total(RepairOps(s, REBOOT_CNT)));
    var v := NextCounter(g, m);
    CounterIsMild(v);
    CounterValue(v);
    var lr, t :| Tidy(g, r, lr, t);
    TidyActive(g, r, lr, t);
    CounterRoom(g, r, lr, Counter(v));
    GentleSet(g, r, lr, t, REBOOT_CNT, Counter(v));
  }

  lemma SearchSpace(g: Geometry, m: seq<byte>, lo: nat, k: nat)
    requires IsFlash(g, m) && Active(g, m) == Some(lo)
    requires NoPhantom(g, m, Cut(m, GetPlan(g, m, REBOOT_CNT).ops, k, Chip(g)), lo, None)
    ensures Space(g, Cut(m, GetPlan(g, m, REBOOT_CNT).ops, k, Chip(g))) == Space(g, m)
    ensures Active(g, Cut(m, GetPlan(g, m, REBOOT_CNT).ops, k, Chip(g))) == Some(lo)
  {
    hide Cut, PageScan, RepairOps, Empty, View;
    SearchAtomic(g, m, lo, REBOOT_CNT, k);
  }

  /** So on a tidy store nothing at all is assumed, as long as the counter stays below 0x8000. */
  lemma {:induction false} BootsCount(g: Geometry, m: seq<byte>, c: nat, n: nat)
    requires IsFlash(g, m) && Ready(g, m) && Bootable(g, m, n)
    requires REBOOT_CNT in View(g, m) && View(g, m)[REBOOT_CNT] == Counter(c) && c + n < 0x8000
    ensures QuietBoots(g, m, n) && Ready(g, Boots(g, m, n))
    ensures View(g, Boots(g, m, n)) == View(g, m)[REBOOT_CNT := Counter(c + n)]
  {
    hide View, Counter, Sound, Repairable, Space, NextCounter, Booted, QuietBoot, Ready;
    if n > 0 {
      BootableMore(g, m, n);
      BootsCount(g, m, c, n - 1);
      BootsCountModulo(g, m, c, n - 1);
      var p := Boots(g, m, n - 1);
      NextIs(g, p, c + n - 1);
      QuietCount(g, p);
    }
    BootsCountModulo(g, m, c, n);
  }

  /** The first boot on flash without an active page: formatted, with a counter of zero and nothing else. */
  lemma FirstBoot(g: Geometry, m: seq<byte>, k: nat)
    requires IsFlash(g, m) && Active(g, m).None? && k >= g.pageLen + 2 * MARK_LEN + COUNTER_SIZE
    ensures var n := InitStore(g, m, k);
            && n.res && Ready(g, n.flash) && View(g, n.flash) == map[REBOOT_CNT := Counter(0)]
            && Space(g, n.flash) == g.pageLen - MARK_LEN - COUNTER_SIZE
            && Bootable(g, n.flash, 0)
  {
    hide Tidy, Cut, Done, View, FormatPlan, Ready, Sound, Repairable, Space, CountBoot, Booted, QuietBoot, Counter, NextCounter;
    FormatWith(g, m, k);
    var f := Perform(g, m, FormatPlan(g), k);
    FreshBoot(g, f.flash);
    var n := InitStore(g, f.flash, f.supply);
  }

  /** A freshly formatted page. */
  lemma FreshBoot(g: Geometry, f: seq<byte>)
    requires IsFlash(g, f) && Tidy(g, f, 0, []) && View(g, f) == map[]
    ensures Active(g, f).Some?
    ensures forall k :: k >= COUNTER_SIZE ==>
      var n := InitStore(g, f, k);
      && n.res && Ready(g, n.flash) && View(g, n.flash) == map[REBOOT_CNT := Counter(0)]
      && Space(g, n.flash) == g.pageLen - MARK_LEN - COUNTER_SIZE && Bootable(g, n.flash, 0)
  {
    hide Tidy, Cut, Done, View, Counter, SetPlan, Booted, InitStore, NextCounter, QuietBoot;
    TidyActive(g, f, 0, []);
    TidyScan(g, f, 0, []);
    TidyBlank(g, f, 0, []);
    FreshNext(g, f);
    QuietCount(g, f);
    CountExact(g, f);
    FreshCost(g, f);
    assert View(g, f)[REBOOT_CNT := Counter(0)] == map[REBOOT_CNT := Counter(0)];
  }

  lemma FreshNext(g: Geometry, f: seq<byte>)
    requires IsFlash(g, f) && View(g, f) == map[]
    ensures NextCounter(g, f) == 0
  {
    hide View;
  }

  lemma FreshCost(g: Geometry, f: seq<byte>)
    requires IsFlash(g, f) && Active(g, f) == Some(0) && PageScan(g, f, 0) == [] && NextCounter(g, f) == 0
    ensures BootCost(g, f) == COUNTER_SIZE
  {
    hide PageScan, NextCounter;
    CutNone(f, 0, Chip(g));
    var data := Counter(0);
    CounterValue(0);
    assert SetPlan(g, f, REBOOT_CNT, data).ops == [Write(4, Header(g, REBOOT_CNT, data))] + [Write(11, data)] by {
      assert [] + ([Write(4, Header(g, REBOOT_CNT, data))] + [Write(11, data)] + []) ==
             [Write(4, Header(g, REBOOT_CNT, data))] + [Write(11, data)];
    }
    CutOne(f, Write(4, Header(g, REBOOT_CNT, data)), 0, Chip(g));
    CutSnoc(f, [Write(4, Header(g, REBOOT_CNT, data))], Write(11, data), 0, Chip(g));
  }
}
