/** Hang protection over whole runs of resets. */
module BootRuns {
  import opened Bytes
  import opened Boot
  import TidyStore

  /** What happens in one reset: whether a started application comes to clear the counter, and how the stores end. */
  datatype Event = Event(alive: bool, init: Fate, later: Fate)

  /** A reset starts the application. */
  predicate StartsIn(env: Env, p: Params, e: Event) { Launches(env, InitParams(env, p, e.init)) }

  /** One reset. */
  function ResetIn(env: Env, p: Params, e: Event): Params {
    var q := InitParams(env, p, e.init);
    if !Launches(env, q) then TryParams(env, q, e.later)
    else if e.alive then Put(q, BOOT_CNT, [0], e.later) else q
  }

  /** The parameters after a run of resets. */
  function ResetsIn(env: Env, p: Params, es: seq<Event>): Params {
    if es == [] then p else ResetIn(env, ResetsIn(env, p, es[..|es| - 1]), es[|es| - 1])
  }

  /** With stores that do not fail. */
  predicate Starts(env: Env, p: Params) { StartsIn(env, p, Event(true, Kept, Kept)) }

  function Reset(env: Env, p: Params, alive: bool): Params { ResetIn(env, p, Event(alive, Kept, Kept)) }

  function Resets(env: Env, p: Params, hs: seq<bool>): Params {
    if hs == [] then p else Reset(env, Resets(env, p, hs[..|hs| - 1]), hs[|hs| - 1])
  }

  /** The driver's calls of one reset: initialise, try the application, and let a started one reach its late poll. */
  method ResetBoard(b: BootDriver, e: Event) returns (started: bool)
    modifies b
    ensures b.params == ResetIn(b.env, old(b.params), e)
    ensures started == StartsIn(b.env, old(b.params), e)
  {
    var res := b.BootInit(e.init);
    started, res := b.TryApp(e.later);
    if started && e.alive {
      res := b.Proc(true, e.later);
    }
  }

  predicate StaysOn(env: Env, p: Params) { BOOT_CMD in p && p[BOOT_CMD] == EnumBytes(env, STAY_ON) }

  function StartCount(env: Env, p: Params, es: seq<Event>): nat {
    if es == [] then 0
    else
      var init := es[..|es| - 1];
      StartCount(env, p, init) + if StartsIn(env, ResetsIn(env, p, init), es[|es| - 1]) then 1 else 0
  }

  /** In how many resets the launch was not counted. */
  function LostCount(es: seq<Event>): nat {
    if es == [] then 0 else LostCount(es[..|es| - 1]) + if es[|es| - 1].init == Lost then 1 else 0
  }

  /** The number of hangs in a row at the end. */
  function Trail(hs: seq<bool>): nat {
    if hs == [] || hs[|hs| - 1] then 0 else 1 + Trail(hs[..|hs| - 1])
  }

  /** Some six resets in a row hung. */
  predicate SixHung(hs: seq<bool>) {
    hs != [] && (SixHung(hs[..|hs| - 1]) || Trail(hs) > LAUNCH_TRY)
  }

  lemma {:induction false} TrailIs(hs: seq<bool>)
    ensures Trail(hs) <= |hs| && forall j :: |hs| - Trail(hs) <= j < |hs| ==> !hs[j]
    ensures Trail(hs) < |hs| ==> hs[|hs| - Trail(hs) - 1]
  {
    if hs != [] && !hs[|hs| - 1] {
      TrailIs(hs[..|hs| - 1]);
    }
  }

  predicate HungFrom(hs: seq<bool>, i: nat) {
    i + LAUNCH_TRY < |hs| && forall j :: i <= j <= i + LAUNCH_TRY ==> !hs[j]
  }

  lemma {:induction false} SixHungIs(hs: seq<bool>)
    ensures SixHung(hs) <==> exists i: nat :: HungFrom(hs, i)
  {
    if hs != [] {
      var init := hs[..|hs| - 1];
      SixHungIs(init);
      TrailIs(hs);
      if SixHung(init) {
        var i: nat :| HungFrom(init, i);
        assert HungFrom(hs, i);
      } else if Trail(hs) > LAUNCH_TRY {
        assert HungFrom(hs, |hs| - LAUNCH_TRY - 1);
      } else if i: nat :| HungFrom(hs, i) {
        if i + LAUNCH_TRY < |init| {
          assert HungFrom(init, i);
        }
      }
    }
  }

  lemma CommandIs(env: Env, p: Params, cmd: byte)
    requires BOOT_CMD in p && (p[BOOT_CMD] == [cmd] || p[BOOT_CMD] == EnumBytes(env, cmd))
    ensures Command(env, p) == EnumBytes(env, cmd)
  {
    var d := EnumBytes(env, ENDEF);
    assert [cmd] + d[1..] == EnumBytes(env, cmd);
    assert EnumBytes(env, cmd) + d[env.enumSize..] == EnumBytes(env, cmd);
  }

  /** The parameter holds a single byte. */
  predicate Holds(p: Params, id: nat, value: nat) { id in p && |p[id]| == 1 && p[id][0] as nat == value }

  /** A stored command reads as `cmd`: its first byte, and zeros behind it as far as it was stored. */
  predicate Stored(env: Env, p: Params, cmd: nat) {
    && BOOT_CMD in p && 1 <= |p[BOOT_CMD]| <= env.enumSize && p[BOOT_CMD][0] as nat == cmd
    && forall i :: 1 <= i < |p[BOOT_CMD]| ==> p[BOOT_CMD][i] == 0
  }

  /** What a stored command is read as, whatever its length: exactly one of the stored forms of the command. */
  lemma CommandExactly(env: Env, p: Params, cmd: byte)
    requires cmd == 0 || cmd == 2
    ensures Command(env, p) == EnumBytes(env, cmd) <==> Stored(env, p, cmd as nat)
  {
    var want := EnumBytes(env, cmd);
    assert want[0] == cmd;
    CommandByte(env, p, 0);
    if Command(env, p) == want && BOOT_CMD in p && |p[BOOT_CMD]| <= env.enumSize {
      forall i | 0 <= i < |p[BOOT_CMD]| ensures p[BOOT_CMD][i] == want[i] { CommandByte(env, p, i); }
    }
    if Stored(env, p, cmd as nat) {
      forall i | 0 <= i < env.enumSize ensures Command(env, p)[i] == want[i] { CommandByte(env, p, i); }
    }
  }

  /** Byte `i` of the command variable: what was read, and behind it what it held before. */
  lemma CommandByte(env: Env, p: Params, i: nat)
    requires i < env.enumSize
    ensures |Command(env, p)| == env.enumSize
    ensures Command(env, p)[i] as nat ==
            if BOOT_CMD in p && i < |p[BOOT_CMD]| <= env.enumSize then p[BOOT_CMD][i] as nat else if i == 0 then 3 else 0
  {
  }

  /** The address stored is one that can be started. */
  predicate Startable(env: Env, p: Params) {
    APP_START in p && |p[APP_START]| == 4 && env.isFlash(p[APP_START]) && env.stackInRam(p[APP_START])
  }

  /** A flash address without a stack in RAM behind it. */
  predicate Broken(env: Env, p: Params) {
    APP_START in p && |p[APP_START]| == 4 && env.isFlash(p[APP_START]) && !env.stackInRam(p[APP_START])
  }

  /** No start address can be read. */
  predicate Unknown(p: Params) { APP_START !in p || |p[APP_START]| > 4 }

  /** The application is started exactly with a stored launch command and an address that can be started. */
  lemma LaunchesExactly(env: Env, p: Params)
    ensures Launches(env, p) <==> Stored(env, p, 0) && Startable(env, p)
  {
    hide EnumBytes, Command, Stored;
    CommandExactly(env, p, LAUNCH_APP);
  }

  /** The counter has one byte and is above five. */
  predicate Exhausted(p: Params) { BOOT_CNT in p && |p[BOOT_CNT]| == 1 && p[BOOT_CNT][0] > 5 }

  /** What the first step of a reset stores, with a store that takes: the next count, zero, or STAY_ON after five. */
  lemma InitExactly(env: Env, p: Params, f: Fate)
    ensures var q := InitParams(env, p, f);
            if f == Lost then q == p
            else if Exhausted(p) then q == p[BOOT_CMD := EnumBytes(env, 2)]
            else q - {BOOT_CNT} == p - {BOOT_CNT} &&
                 Holds(q, BOOT_CNT, if BOOT_CNT in p && |p[BOOT_CNT]| == 1 then p[BOOT_CNT][0] as nat + 1 else 0)
  {
    hide EnumBytes;
  }

  /** What trying the application stores when it does not start it, and what it returns. */
  lemma TryExactly(env: Env, p: Params, f: Fate)
    requires !(Stored(env, p, 0) && Startable(env, p))
    ensures var q := TryParams(env, p, f);
            if f == Lost || !Stored(env, p, 0) then q == p
            else if Unknown(p) then q == p[APP_START := [0x00, 0xA0, 0x01, 0x00]]
            else if Broken(env, p) then q == p[BOOT_CMD := [2]]
            else q == p
    ensures TryResult(env, p, f) <==> Stored(env, p, 2) || (Stored(env, p, 0) && (Unknown(p) || Broken(env, p)) && f == Kept)
  {
    hide EnumBytes, Command, Stored;
    CommandExactly(env, p, LAUNCH_APP);
    CommandExactly(env, p, STAY_ON);
    EnumDiffers(env, LAUNCH_APP, STAY_ON);
  }

  /**
   A launch without a stored address. The reset starts nothing; it stores the default address and leaves the command
   alone, so if that address can be started and a try is left, the next reset starts it.
   */
  lemma AddressIsStored(env: Env, p: Params, alive: bool)
    requires Stored(env, p, 0) && Unknown(p) && !Exhausted(p)
    ensures var q := Reset(env, p, alive);
            && !Starts(env, p)
            && APP_START in q && q[APP_START] == [0x00, 0xA0, 0x01, 0x00]
            && BOOT_CMD in q && q[BOOT_CMD] == p[BOOT_CMD]
            && (env.isFlash(DEFAULT_START) && env.stackInRam(DEFAULT_START) && !Holds(p, BOOT_CNT, 5) ==> Starts(env, q))
  {
    hide EnumBytes, Command, InitParams, TryParams, Launches;
    var a := InitParams(env, p, Kept);
    InitExactly(env, p, Kept);
    InitKeeps(env, p, a);
    LaunchesExactly(env, a);
    TryExactly(env, a, Kept);
    var q := Reset(env, p, alive);
    var b := InitParams(env, q, Kept);
    InitExactly(env, q, Kept);
    if !Exhausted(q) {
      InitKeeps(env, q, b);
      LaunchesExactly(env, b);
    }
  }

  /** Only the counter differs. */
  lemma InitKeeps(env: Env, p: Params, q: Params)
    requires q - {BOOT_CNT} == p - {BOOT_CNT}
    ensures forall id :: id != BOOT_CNT ==> (id in q <==> id in p) && (id in p ==> q[id] == p[id])
    ensures (forall cmd :: Stored(env, q, cmd) <==> Stored(env, p, cmd)) && (Startable(env, q) <==> Startable(env, p))
    ensures (Unknown(q) <==> Unknown(p)) && (Broken(env, q) <==> Broken(env, p))
  {
    forall id | id != BOOT_CNT ensures (id in q <==> id in p) && (id in p ==> q[id] == p[id]) {
      assert id in q <==> id in q - {BOOT_CNT};
      assert id in p <==> id in p - {BOOT_CNT};
      assert id in p ==> (p - {BOOT_CNT})[id] == p[id];
      assert id in q ==> (q - {BOOT_CNT})[id] == q[id];
    }
  }

  /** The reset stores this parameter anew. */
  predicate Changes(env: Env, p: Params, e: Event, id: nat) {
    var q := ResetIn(env, p, e);
    (id in q) != (id in p) || (id in q && id in p && q[id] != p[id])
  }

  /** The only reasons for a reset to change the command, or the start address. */
  lemma ChangesOnly(env: Env, p: Params, e: Event)
    ensures Changes(env, p, e, BOOT_CMD) ==> (Exhausted(p) && e.init != Lost) || (Stored(env, p, 0) && Broken(env, p) && e.later != Lost)
    ensures Changes(env, p, e, APP_START) ==> Stored(env, p, 0) && Unknown(p) && e.later != Lost
    ensures forall id :: id != BOOT_CMD && id != BOOT_CNT && id != APP_START ==> !Changes(env, p, e, id)
  {
    hide EnumBytes, Command, Stored, Startable, InitParams, TryParams, Launches;
    var a := InitParams(env, p, e.init);
    InitExactly(env, p, e.init);
    LaunchesExactly(env, a);
    if e.init == Lost {
      TryChanges(env, p, e.later);
    } else if Exhausted(p) {
      GivesUp(env, p);
      TryChanges(env, a, e.later);
    } else {
      InitKeeps(env, p, a);
      TryChanges(env, a, e.later);
    }
  }

  lemma TryChanges(env: Env, p: Params, f: Fate)
    ensures var q := if Launches(env, p) then p else TryParams(env, p, f);
            || q == p
            || (Stored(env, p, 0) && Unknown(p) && f != Lost && q == p[APP_START := [0x00, 0xA0, 0x01, 0x00]])
            || (Stored(env, p, 0) && Broken(env, p) && f != Lost && q == p[BOOT_CMD := [2]])
  {
    hide EnumBytes, Command, Stored, Startable, TryParams, Launches;
    LaunchesExactly(env, p);
    if !Launches(env, p) {
      TryExactly(env, p, f);
    }
  }

  /** `n` hung resets in a row. */
  function Hangs(n: nat): (hs: seq<bool>)
    ensures |hs| == n
  {
    seq(n, _ => false)
  }

  /**
   Without a stored counter. The first reset stores zero, and a hanging application is started exactly seven times
   before the boot loader gives up.
   */
  lemma {:induction false} UncountedHangs(env: Env, p: Params, n: nat)
    requires Stored(env, p, 0) && Startable(env, p) && (BOOT_CNT !in p || |p[BOOT_CNT]| != 1) && n <= 7
    ensures var q := Resets(env, p, Hangs(n));
            && (if n == 0 then q == p else q - {BOOT_CNT} == p - {BOOT_CNT} && Holds(q, BOOT_CNT, n - 1))
            && (Starts(env, q) <==> n < 7)
  {
    hide EnumBytes, Command, InitParams, TryParams, Launches, Stored, Startable;
    var q := Resets(env, p, Hangs(n));
    if n > 0 {
      UncountedHangs(env, p, n - 1);
      assert Hangs(n)[..n - 1] == Hangs(n - 1);
      HangCounts(env, p, Resets(env, p, Hangs(n - 1)));
    }
    HangCounts(env, p, q);
  }

  /** One hung reset from parameters that differ in the counter alone. */
  lemma HangCounts(env: Env, p: Params, q: Params)
    requires Stored(env, p, 0) && Startable(env, p) && q - {BOOT_CNT} == p - {BOOT_CNT}
    ensures Starts(env, q) <==> !Exhausted(q)
    ensures !Exhausted(q) ==>
              var r := Reset(env, q, false);
              && r - {BOOT_CNT} == p - {BOOT_CNT}
              && Holds(r, BOOT_CNT, if BOOT_CNT in q && |q[BOOT_CNT]| == 1 then q[BOOT_CNT][0] as nat + 1 else 0)
  {
    hide EnumBytes, Command, InitParams, TryParams, Launches, Stored, Startable;
    var a := InitParams(env, q, Kept);
    InitExactly(env, q, Kept);
    LaunchesExactly(env, a);
    if Exhausted(q) {
      GivesUp(env, q);
    } else {
      InitKeeps(env, p, a);
    }
  }

  lemma GivesUp(env: Env, q: Params)
    ensures !Stored(env, q[BOOT_CMD := EnumBytes(env, 2)], 0)
  {
    assert EnumBytes(env, 2)[0] == 2;
  }

  /**
   A command that reads as STAY_ON absorbs: whatever else is stored, whatever addresses can be started and however
   stores end, no run of resets starts the application, and the command stays.
   */
  lemma {:induction false} StayOnAbsorbs(env: Env, p: Params, es: seq<Event>, e: Event)
    requires Command(env, p) == EnumBytes(env, STAY_ON)
    ensures var q := ResetsIn(env, p, es);
            !StartsIn(env, q, e) && Command(env, q) == EnumBytes(env, STAY_ON)
  {
    hide EnumBytes, Command;
    if es != [] {
      StayOnAbsorbs(env, p, es[..|es| - 1], e);
      StayStep(env, ResetsIn(env, p, es[..|es| - 1]), es[|es| - 1]);
    }
    StayStep(env, ResetsIn(env, p, es), e);
  }

  lemma StayStep(env: Env, p: Params, e: Event)
    requires Command(env, p) == EnumBytes(env, STAY_ON)
    ensures !StartsIn(env, p, e) && Command(env, ResetIn(env, p, e)) == EnumBytes(env, STAY_ON)
  {
    hide EnumBytes;
    EnumDiffers(env, STAY_ON, LAUNCH_APP);
    var q := InitParams(env, p, e.init);
    if BOOT_CMD in q && q[BOOT_CMD] == EnumBytes(env, STAY_ON) {
      CommandIs(env, q, STAY_ON);
    }
  }

  /** Jumping to the boot loader: the application is not started again, until a launch is commanded. */
  lemma JumpToBootStays(env: Env, p: Params, es: seq<Event>, e: Event)
    ensures var q := ResetsIn(env, p[BOOT_CMD := [STAY_ON]], es);
            && !StartsIn(env, q, e) && Command(env, q) == EnumBytes(env, STAY_ON)
            && Command(env, LaunchParams(q)) == EnumBytes(env, LAUNCH_APP)
  {
    hide EnumBytes, Command, ResetsIn, StartsIn;
    CommandIs(env, p[BOOT_CMD := [STAY_ON]], STAY_ON);
    StayOnAbsorbs(env, p[BOOT_CMD := [STAY_ON]], es, e);
    CommandIs(env, LaunchParams(ResetsIn(env, p[BOOT_CMD := [STAY_ON]], es)), LAUNCH_APP);
  }

  /** The same, by the driver's calls: once the command is stored, no later reset starts the application. */
  method JumpAndReset(b: BootDriver, f: Fate, es: seq<Event>) returns (started: bool)
    modifies b
    ensures b.params == ResetsIn(b.env, Put(old(b.params), BOOT_CMD, [STAY_ON], f), es)
    ensures f != Lost ==> !started && Command(b.env, b.params) == EnumBytes(b.env, STAY_ON)
  {
    hide EnumBytes, Command, ResetIn, StartsIn;
    b.JumpToBoot(f);
    ghost var p := b.params;
    started := false;
    if f != Lost {
      CommandIs(b.env, p, STAY_ON);
    }
    var i := 0;
    assert es[..0] == [];
    while i < |es|
      invariant i <= |es| && b.params == ResetsIn(b.env, p, es[..i])
      invariant f != Lost ==> !started && Command(b.env, b.params) == EnumBytes(b.env, STAY_ON)
    {
      assert es[..i + 1][..i] == es[..i];
      if f != Lost {
        StayStep(b.env, b.params, es[i]);
      }
      var now := ResetBoard(b, es[i]);
      started := started || now;
      i := i + 1;
    }
    assert es[..i] == es;
  }

  /** The parameters after a run from a commanded launch whose default address can be started. */
  ghost predicate Tracks(env: Env, p: Params, hs: seq<bool>) {
    && {BOOT_CMD, BOOT_CNT, APP_START} <= p.Keys && p[APP_START] == DEFAULT_START
    && if SixHung(hs)
       then p[BOOT_CNT] == [LAUNCH_TRY + 1] && (p[BOOT_CMD] == [LAUNCH_APP] || p[BOOT_CMD] == EnumBytes(env, STAY_ON))
       else Trail(hs) <= LAUNCH_TRY && p[BOOT_CNT] == [Trail(hs) % 256] && p[BOOT_CMD] == [LAUNCH_APP]
  }

  /** Six hangs in a row: the next reset stores STAY_ON, and nothing is started any more. */
  lemma TracksHung(env: Env, p: Params, hs: seq<bool>, alive: bool)
    requires Tracks(env, p, hs) && SixHung(hs)
    ensures !Starts(env, p) && StaysOn(env, Reset(env, p, alive))
    ensures Tracks(env, Reset(env, p, alive), hs + [alive])
  {
    hide EnumBytes, Command;
    var q := InitParams(env, p, Kept);
    assert q == p[BOOT_CMD := EnumBytes(env, STAY_ON)];
    EnumDiffers(env, STAY_ON, LAUNCH_APP);
    CommandIs(env, q, STAY_ON);
    assert (hs + [alive])[..|hs|] == hs;
  }

  lemma InitFine(env: Env, p: Params, hs: seq<bool>)
    requires Tracks(env, p, hs) && !SixHung(hs)
    ensures InitParams(env, p, Kept) == p[BOOT_CNT := [(Trail(hs) + 1) % 256]]
  {
    hide EnumBytes, SixHung, Trail;
  }

  lemma CanLaunch(env: Env, q: Params)
    requires env.isFlash(DEFAULT_START) && env.stackInRam(DEFAULT_START)
    requires BOOT_CMD in q && q[BOOT_CMD] == [LAUNCH_APP] && APP_START in q && q[APP_START] == DEFAULT_START
    ensures Launches(env, q)
  {
    hide EnumBytes, Command;
    CommandIs(env, q, LAUNCH_APP);
  }

  lemma NextTrail(hs: seq<bool>, alive: bool)
    ensures Trail(hs + [alive]) == if alive then 0 else 1 + Trail(hs)
    ensures SixHung(hs + [alive]) <==> SixHung(hs) || Trail(hs + [alive]) > LAUNCH_TRY
  {
    assert (hs + [alive])[..|hs|] == hs;
  }

  /** The counter after one more start, which comes up or hangs. */
  lemma TracksNext(env: Env, p: Params, hs: seq<bool>, alive: bool)
    requires Tracks(env, p, hs) && !SixHung(hs)
    ensures var q := p[BOOT_CNT := [(Trail(hs) + 1) % 256]];
            Tracks(env, if alive then q[BOOT_CNT := [0]] else q, hs + [alive])
  {
    hide EnumBytes, SixHung, Trail;
    NextTrail(hs, alive);
  }

  /** Otherwise the reset starts the application. */
  lemma TracksFine(env: Env, p: Params, hs: seq<bool>, alive: bool)
    requires env.isFlash(DEFAULT_START) && env.stackInRam(DEFAULT_START)
    requires Tracks(env, p, hs) && !SixHung(hs)
    ensures Starts(env, p)
    ensures Tracks(env, Reset(env, p, alive), hs + [alive])
  {
    InitFine(env, p, hs);
    TracksLaunch(env, p, hs);
    hide Tracks, InitParams, Launches, SixHung, Trail;
    TracksNext(env, p, hs, alive);
  }

  lemma TracksLaunch(env: Env, p: Params, hs: seq<bool>)
    requires env.isFlash(DEFAULT_START) && env.stackInRam(DEFAULT_START)
    requires Tracks(env, p, hs) && !SixHung(hs)
    ensures Launches(env, p[BOOT_CNT := [(Trail(hs) + 1) % 256]])
  {
    hide SixHung, Trail, Launches;
    CanLaunch(env, p[BOOT_CNT := [(Trail(hs) + 1) % 256]]);
  }

  lemma TracksStep(env: Env, p: Params, hs: seq<bool>, alive: bool)
    requires env.isFlash(DEFAULT_START) && env.stackInRam(DEFAULT_START) && Tracks(env, p, hs)
    ensures Starts(env, p) <==> !SixHung(hs)
    ensures SixHung(hs) ==> StaysOn(env, Reset(env, p, alive))
    ensures Tracks(env, Reset(env, p, alive), hs + [alive])
  {
    hide Starts, Reset;
    if SixHung(hs) { TracksHung(env, p, hs, alive); } else { TracksFine(env, p, hs, alive); }
  }

  lemma LaunchTracks(env: Env, p: Params)
    ensures Tracks(env, LaunchParams(p), [])
  {
  }

  /**
   Exactly when the boot loader gives up. After a commanded launch of an address that can be started, a reset
   starts the application if and only if no six resets in a row have hung so far; from then on the stored
   command is STAY_ON after every reset.
   */
  lemma {:induction false} StartsExactly(env: Env, p: Params, hs: seq<bool>)
    requires env.isFlash(DEFAULT_START) && env.stackInRam(DEFAULT_START)
    ensures var q := Resets(env, LaunchParams(p), hs);
            && Tracks(env, q, hs)
            && (Starts(env, q) <==> !SixHung(hs))
            && (SixHung(hs) ==> forall alive :: StaysOn(env, Reset(env, q, alive)))
  {
    hide Reset, Starts, SixHung, StaysOn;
    var q := Resets(env, LaunchParams(p), hs);
    if hs == [] {
      LaunchTracks(env, p);
    } else {
      hide Tracks;
      var init := hs[..|hs| - 1];
      StartsExactly(env, p, init);
      TracksStep(env, Resets(env, LaunchParams(p), init), init, hs[|hs| - 1]);
      assert hs == init + [hs[|hs| - 1]];
    }
    TracksStep(env, q, hs, true);
    TracksStep(env, q, hs, false);
  }

  /** If every start comes up, the boot loader never gives up. */
  lemma HealthyNeverStays(env: Env, p: Params, hs: seq<bool>)
    requires env.isFlash(DEFAULT_START) && env.stackInRam(DEFAULT_START)
    requires forall i :: 0 <= i < |hs| ==> hs[i]
    ensures var q := Resets(env, LaunchParams(p), hs);
            Starts(env, q) && BOOT_CMD in q && q[BOOT_CMD] == [LAUNCH_APP]
  {
    StartsExactly(env, p, hs);
    SixHungIs(hs);
    forall i: nat ensures !HungFrom(hs, i) {
      assert i < |hs| ==> hs[i];
    }
  }

  /** How many more starts a hanging application can get out of these parameters. */
  function StartsLeft(p: Params): nat {
    match Read(p, BOOT_CNT, 1)
    case None => LAUNCH_TRY + 2
    case Some(c) => if |c| != 1 then LAUNCH_TRY + 2 else if LAUNCH_TRY < c[0] then 0 else LAUNCH_TRY + 1 - c[0]
  }

  lemma HangStep(env: Env, p: Params, e: Event)
    requires !e.alive
    ensures StartsLeft(ResetIn(env, p, e)) + (if StartsIn(env, p, e) then 1 else 0) <=
            StartsLeft(p) + if e.init == Lost then 1 else 0
  {
    EnumDiffers(env, STAY_ON, LAUNCH_APP);
    if StartsLeft(p) == 0 && e.init != Lost {
      CommandIs(env, InitParams(env, p, e.init), STAY_ON);
    }
  }

  /**
   Hang protection from any stored parameters, any addresses and any failing stores: a hanging application is
   started at most `StartsLeft` times, and once more for every launch that could not be counted. That is never more
   than seven besides those, and six after a commanded launch.
   */
  lemma {:induction false} HangBound(env: Env, p: Params, es: seq<Event>)
    requires forall i :: 0 <= i < |es| ==> !es[i].alive
    ensures StartCount(env, p, es) + StartsLeft(ResetsIn(env, p, es)) <= StartsLeft(p) + LostCount(es)
    ensures StartsLeft(p) <= LAUNCH_TRY + 2 && StartsLeft(LaunchParams(p)) == LAUNCH_TRY + 1
  {
    if es != [] {
      var init := es[..|es| - 1];
      HangBound(env, p, init);
      HangStep(env, ResetsIn(env, p, init), es[|es| - 1]);
    }
  }

  /** Every value the boot loader stores leaves nothing harmful behind when it is replaced. */
  lemma BootValuesAreMild(env: Env, c: byte)
    requires c <= LAUNCH_TRY + 1
    ensures TidyStore.Mild([c]) && TidyStore.Mild(EnumBytes(env, c)) && TidyStore.Mild(DEFAULT_START)
    ensures BOOT_CMD < TidyStore.USER_IDS && BOOT_CNT < TidyStore.USER_IDS && APP_START < TidyStore.USER_IDS
  {
    TidyStore.SevenBitIsMild([c]);
    TidyStore.SevenBitIsMild(EnumBytes(env, c));
    var d := Zeros(7) + DEFAULT_START;
    assert d == [0, 0, 0, 0, 0, 0, 0, 0x00, 0xA0, 0x01, 0x00];
    forall x: nat | x + 3 < |d| ensures !TidyStore.MatchAt(d, x) {
      assert x == 0 || x == 1 || x == 2 || x == 3 || x == 4 || x == 5 || x == 6 || x == 7;
    }
  }
}
