/**
 Hang protection in the boot loader, over the map the store keeps. Every reset runs `BootInit` and then
 `TryApp`; an application that comes up runs `Proc`, which clears the launch counter.
 */
module Boot {
  import opened Bytes

  const APP_START := 11
  const BOOT_CMD := 12
  const BOOT_CNT := 13
  const LAUNCH_APP: byte := 0
  const STAY_ON: byte := 2
  const ENDEF: byte := 3
  const LAUNCH_TRY := 5
  /** 0x0001A000, little-endian. */
  const DEFAULT_START: seq<byte> := [0x00, 0xA0, 0x01, 0x00]

  type Params = map<nat, seq<byte>>

  /**
   How a store call of the boot driver ends: it reports success, or failure; and a failed one may have changed nothing,
   or stored the value before it failed.
   */
  datatype Fate = Kept | Lost | Unsure

  function Put(p: Params, id: nat, data: seq<byte>, f: Fate): Params {
    if f == Lost then p else p[id := data]
  }

  /** What the surroundings decide: the size of the command enumeration and which addresses can be started. */
  datatype EnvRaw = Env(enumSize: nat, isFlash: seq<byte> -> bool, stackInRam: seq<byte> -> bool)
  type Env = e: EnvRaw | 1 <= e.enumSize <= 4 witness Env(1, _ => false, _ => false)

  /** A read into a buffer of `maxLen` bytes. */
  function Read(p: Params, id: nat, maxLen: nat): Option<seq<byte>> {
    if id in p && |p[id]| <= maxLen then Some(p[id]) else None
  }

  /** The command as stored by code that writes the whole enumeration. */
  function EnumBytes(env: Env, cmd: byte): seq<byte> {
    [cmd] + Zeros(env.enumSize - 1)
  }

  lemma EnumDiffers(env: Env, a: byte, b: byte)
    ensures EnumBytes(env, a) == EnumBytes(env, b) <==> a == b
  {
    assert EnumBytes(env, a)[0] == a && EnumBytes(env, b)[0] == b;
  }

  /** The bytes read replace the first bytes of a variable holding `init`. */
  function Overlay(init: seq<byte>, data: Option<seq<byte>>): seq<byte>
    requires data.Some? ==> |data.value| <= |init|
  {
    match data case None => init case Some(d) => d + init[|d|..]
  }

  /** The command variable after the read, whatever the stored length was. */
  function Command(env: Env, p: Params): seq<byte> {
    Overlay(EnumBytes(env, ENDEF), Read(p, BOOT_CMD, |EnumBytes(env, ENDEF)|))
  }

  /** Counting the launch, or giving up; one store. */
  function InitParams(env: Env, p: Params, f: Fate): Params {
    match Read(p, BOOT_CNT, 1)
    case Some(c) =>
      if |c| != 1 then Put(p, BOOT_CNT, [0], f)
      else if LAUNCH_TRY < c[0] then Put(p, BOOT_CMD, EnumBytes(env, STAY_ON), f)
      else Put(p, BOOT_CNT, [(c[0] + 1) % 256], f)
    case None => Put(p, BOOT_CNT, [0], f)
  }

  predicate Launches(env: Env, p: Params) {
    && Command(env, p) == EnumBytes(env, LAUNCH_APP)
    && var a := Read(p, APP_START, 4);
       a.Some? && |a.value| == 4 && env.isFlash(a.value) && env.stackInRam(a.value)
  }

  /** What trying the application does to the parameters when it does not start it; at most one store. */
  function TryParams(env: Env, p: Params, f: Fate): Params {
    if Command(env, p) != EnumBytes(env, LAUNCH_APP) then p
    else
      match Read(p, APP_START, 4)
      case None => Put(p, APP_START, DEFAULT_START, f)
      case Some(a) =>
        if |a| == 4 && env.isFlash(a) && !env.stackInRam(a) then Put(p, BOOT_CMD, [STAY_ON], f) else p
  }

  /** What trying the application returns, unless it starts it. */
  predicate TryResult(env: Env, p: Params, f: Fate) {
    if Command(env, p) == EnumBytes(env, STAY_ON) then true
    else if Command(env, p) != EnumBytes(env, LAUNCH_APP) then false
    else
      match Read(p, APP_START, 4)
      case None => f == Kept
      case Some(a) => |a| == 4 && env.isFlash(a) && !env.stackInRam(a) && f == Kept
  }

  function LaunchParams(p: Params): Params {
    p[BOOT_CMD := [LAUNCH_APP]][BOOT_CNT := [0]][APP_START := DEFAULT_START]
  }

  class BootDriver {
    const env: Env
    /** What the store holds. */
    var params: Params
    var fineStartEvent: bool

    constructor (env: Env, params: Params)
      ensures this.env == env && this.params == params && !fineStartEvent
    {
      this.env := env;
      this.params := params;
      fineStartEvent := false;
    }

    method Store(id: nat, data: seq<byte>, f: Fate) returns (res: bool)
      modifies this`params
      ensures params == Put(old(params), id, data, f) && res == (f == Kept)
    {
      if f != Lost {
        params := params[id := data];
      }
      res := f == Kept;
    }

    method BootInit(f: Fate) returns (res: bool)
      modifies this
      ensures params == InitParams(env, old(params), f) && !fineStartEvent && res == (f == Kept)
    {
      fineStartEvent := false;
      var got := Read(params, BOOT_CNT, 1);
      if got.Some? && |got.value| == 1 {
        var bootCnt := got.value[0];
        if LAUNCH_TRY < bootCnt {
          res := Store(BOOT_CMD, EnumBytes(env, STAY_ON), f);
        } else {
          bootCnt := (bootCnt + 1) % 256;
          res := Store(BOOT_CNT, [bootCnt], f);
        }
      } else {
        res := Store(BOOT_CNT, [0], f);
      }
    }

    method JumpToCode(addr: seq<byte>, f: Fate) returns (launched: bool, res: bool)
      modifies this`params
      ensures launched == (env.isFlash(addr) && env.stackInRam(addr))
      ensures var stays := env.isFlash(addr) && !env.stackInRam(addr);
              && res == (stays && f == Kept)
              && params == if stays then Put(old(params), BOOT_CMD, [STAY_ON], f) else old(params)
    {
      launched, res := false, false;
      if env.isFlash(addr) {
        if env.stackInRam(addr) {
          launched := true;
        } else {
          res := Store(BOOT_CMD, [STAY_ON], f);
        }
      }
    }

    method TryApp(f: Fate) returns (launched: bool, res: bool)
      modifies this`params
      ensures launched == Launches(env, old(params))
      ensures params == if launched then old(params) else TryParams(env, old(params), f)
      ensures !launched ==> res == TryResult(env, old(params), f)
    {
      launched, res := false, false;
      var bootCmd := EnumBytes(env, ENDEF);
      bootCmd := Overlay(bootCmd, Read(params, BOOT_CMD, |bootCmd|));
      if bootCmd == EnumBytes(env, STAY_ON) {
        res := true;
        EnumDiffers(env, STAY_ON, LAUNCH_APP);
      } else if bootCmd == EnumBytes(env, LAUNCH_APP) {
        var start := Read(params, APP_START, 4);
        if start.Some? {
          if |start.value| == 4 {
            launched, res := JumpToCode(start.value, f);
          }
        } else {
          res := Store(APP_START, DEFAULT_START, f);
        }
      }
    }

    /** Three stores, none of which stops the next; ends with a reboot. */
    method LaunchApp(cmd: Fate, cnt: Fate, start: Fate)
      modifies this`params
      ensures params ==
              Put(Put(Put(old(params), BOOT_CMD, [LAUNCH_APP], cmd), BOOT_CNT, [0], cnt), APP_START, DEFAULT_START, start)
      ensures cmd != Lost && cnt != Lost && start != Lost ==> params == LaunchParams(old(params))
    {
      var res := Store(BOOT_CMD, [LAUNCH_APP], cmd);
      res := Store(BOOT_CNT, [0], cnt);
      res := Store(APP_START, DEFAULT_START, start);
    }

    /** Ends with a reboot. */
    method JumpToBoot(f: Fate)
      modifies this`params
      ensures params == Put(old(params), BOOT_CMD, [STAY_ON], f)
    {
      var res := Store(BOOT_CMD, [STAY_ON], f);
    }

    /** Called by the running application; `late` says that two watchdog periods have passed. */
    method Proc(late: bool, f: Fate) returns (res: bool)
      modifies this
      ensures res == (late && !old(fineStartEvent) && f == Kept)
      ensures params == if late && !old(fineStartEvent) then Put(old(params), BOOT_CNT, [0], f) else old(params)
      ensures fineStartEvent == (late || old(fineStartEvent))
    {
      res := false;
      if late {
        if !fineStartEvent {
          res := Store(BOOT_CNT, [0], f);
        }
        fineStartEvent := true;
      }
    }
  }
}
