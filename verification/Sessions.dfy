/** The methods of the driver carry out a run: what the run lemmas say holds of the bytes the driver leaves. */
module Sessions {
  import opened Bytes
  import opened NorFlash
  import opened Records
  import opened Store
  import opened StoreSteps
  import opened StoreLaws
  import opened TurnLaws
  import opened Steady
  import opened Reads
  import opened Runs
  import opened FlashFsDriver

  /** The supply at a call: what the command says if it may be cut, and otherwise any that lasts. */
  predicate Supplied(g: Geometry, m: seq<byte>, c: Cmd, k: nat)
    requires IsFlash(g, m)
  {
    if Cuttable(c) then k == c.supply else Total(PlanOf(g, m, c).ops) <= k
  }

  predicate AllSupplied(g: Geometry, m: seq<byte>, cs: seq<Cmd>, ks: seq<nat>)
    requires IsFlash(g, m)
    decreases |cs|
  {
    |ks| == |cs| && (cs != [] ==> Supplied(g, m, cs[0], ks[0]) && AllSupplied(g, Exec(g, m, cs[0]), cs[1..], ks[1..]))
  }

  /** A supply that lasts is as good as any other. */
  lemma SuppliedExec(g: Geometry, m: seq<byte>, c: Cmd, k: nat)
    requires IsFlash(g, m) && Supplied(g, m, c, k)
    ensures Cut(m, PlanOf(g, m, c).ops, k, Chip(g)) == Exec(g, m, c)
    ensures Succeeds(g, m, c) <==> PlanOf(g, m, c).verdict && Done(m, PlanOf(g, m, c).ops, k, Chip(g))
  {
    hide Cut, Done, PlanOf, Total;
    if !Cuttable(c) {
      CutSame(m, PlanOf(g, m, c).ops, k, Total(PlanOf(g, m, c).ops), Chip(g));
    }
  }

  lemma TurnPerforms(g: Geometry, m: seq<byte>, clean: bool, k: nat)
    requires IsFlash(g, m) && Sound(g, m, clean)
    ensures TurnRun(g, m, k) == Perform(g, m, TurnPlan(g, m), k)
  {
    hide TurnRun, Perform, TurnPlan, Fits;
    TurnIsPlan(g, m, k);
  }

  /** No stored value is longer than the largest buffer. */
  lemma ReadShort(g: Geometry, m: seq<byte>, id: nat)
    requires IsFlash(g, m) && ReadBack(g, m, id).Some?
    ensures |ReadBack(g, m, id).value| <= 0xFFFF
  {
    hide PageScan, MapOf, Last, Done, RepairOps, Total;
    var lo := Active(g, m).value;
    LastIsMap(PageScan(g, m, lo), id);
    PageLive(g, m, lo);
  }

  lemma NeverInvalid(g: Geometry, m: seq<byte>)
    requires IsFlash(g, m)
    ensures ReadBack(g, m, INVALID_ID) == None
  {
  }

  method CallGet(fs: FlashFs, id: nat) returns (ok: bool, data: seq<byte>)
    requires fs.Valid() && IsFlash(fs.g, fs.nvs[..]) && Supplied(fs.g, fs.nvs[..], CGet(id), fs.supply)
    modifies fs.nvs, fs`supply
    ensures var p := PlanOf(fs.g, old(fs.nvs[..]), CGet(id));
            fs.nvs[..] == Cut(old(fs.nvs[..]), p.ops, old(fs.supply), Chip(fs.g))
    ensures Sees(fs.g, old(fs.nvs[..]), CGet(id)) == Sight(ok, if ok then Some(data) else None)
  {
    hide Cut, Done, Spent, Total, View, PageScan, RepairOps, Active, Succeeds, ReadBack, Sees, GetPlan;
    CutNone(fs.nvs[..], fs.supply, Chip(fs.g));
    GetSees(fs.g, fs.nvs[..], id);
    NeverInvalid(fs.g, fs.nvs[..]);
    if ReadBack(fs.g, fs.nvs[..], id).Some? { ReadShort(fs.g, fs.nvs[..], id); }
    ok, data := fs.Get(id, 0xFFFF);
  }

  /** The call of a command, with supply `k`: what it leaves, reports and, if it is a read, returns. */
  method Call(fs: FlashFs, c: Cmd, k: nat, ghost clean: bool) returns (ok: bool, data: seq<byte>)
    requires fs.Valid() && IsFlash(fs.g, fs.nvs[..])
    requires Sound(fs.g, fs.nvs[..], clean) && Admissible(fs.g, fs.nvs[..], clean, c) && Supplied(fs.g, fs.nvs[..], c, k)
    modifies fs.nvs, fs`supply
    ensures fs.nvs[..] == Exec(fs.g, old(fs.nvs[..]), c)
    ensures !c.CMaintain? ==> ok == Succeeds(fs.g, old(fs.nvs[..]), c)
    ensures c.CGet? && ok ==> Sees(fs.g, old(fs.nvs[..]), c).read == Some(data)
  {
    hide Cut, Done, Spent, Total, Sound, View, PageScan, RepairOps, TurnRun, SetPlan, InvalidatePlan, TurnPlan, Active,
         Exec, Succeeds, Last, NeedsTurn, ReadBack;
    ghost var m := fs.nvs[..];
    data := [];
    SuppliedExec(fs.g, m, c, k);
    fs.supply := k;
    match c
    case CFormat => ok := fs.Format();
    case CSet(id, value) => ok := fs.Set(id, value);
    case CTear(id, value, _) => ok := fs.Set(id, value);
    case CInvalidate(id) => ok := fs.Invalidate(id);
    case CDrop(id, _) => ok := fs.Invalidate(id);
    case CTurn(_) =>
      TurnPerforms(fs.g, m, clean, k);
      ok := fs.TurnPage();
    case CMaintain =>
      TurnPerforms(fs.g, m, clean, k);
      ok := fs.Maintain();
    case CSearch(id, _) =>
      var item, empty, rem;
      ok, item, empty, rem := fs.FindField(id, 0);
    case CGet(id) => ok, data := CallGet(fs, id);
  }

  lemma AllStep(g: Geometry, m: seq<byte>, clean: bool, cs: seq<Cmd>, ks: seq<nat>)
    requires IsFlash(g, m) && cs != [] && AllAdmissible(g, m, clean, cs) && AllSupplied(g, m, cs, ks)
    ensures |ks| == |cs| && Admissible(g, m, clean, cs[0]) && Supplied(g, m, cs[0], ks[0])
    ensures ExecAll(g, m, cs) == ExecAll(g, Exec(g, m, cs[0]), cs[1..])
    ensures AllAdmissible(g, Exec(g, m, cs[0]), CleanAfter(g, m, cs[0], clean), cs[1..])
    ensures AllSupplied(g, Exec(g, m, cs[0]), cs[1..], ks[1..])
  {
    hide Exec, CleanAfter, Admissible, Supplied;
  }

  /**
   A format and then any admissible calls, made with the driver's methods on any flash content. The bytes are
   those of the run, so every read returns what the caller believes.
   */
  method Session(fs: FlashFs, cs: seq<Cmd>, ks: seq<nat>)
    requires fs.Valid() && IsFlash(fs.g, fs.nvs[..]) && Supplied(fs.g, fs.nvs[..], CFormat, fs.supply)
    requires AllAdmissible(fs.g, Exec(fs.g, fs.nvs[..], CFormat), true, cs)
    requires AllSupplied(fs.g, Exec(fs.g, fs.nvs[..], CFormat), cs, ks)
    modifies fs.nvs, fs`supply
    ensures fs.nvs[..] == ExecAll(fs.g, old(fs.nvs[..]), [CFormat] + cs)
    ensures Matches(fs.g, fs.nvs[..], BelievedAll(fs.g, Exec(fs.g, old(fs.nvs[..]), CFormat), map[], cs))
  {
    hide Sound, Exec, Cut, Done, Matches, AllAdmissible, AllSupplied, ExecAll, Admissible, CleanAfter, Supplied, PlanOf, Total;
    ghost var m := fs.nvs[..];
    ghost var clean := true;
    RunFromFormat(fs.g, m, cs);
    FormatRefines(fs.g, m);
    SuppliedExec(fs.g, m, CFormat, fs.supply);
    FormatIs(fs.g, m);
    var ok := fs.Format();
    ghost var f := fs.nvs[..];
    var i := 0;
    assert cs[0..] == cs && ks[0..] == ks;
    AllLengths(fs.g, f, cs, ks);
    while i < |cs|
      invariant i <= |cs| == |ks| && fs.Valid() && IsFlash(fs.g, fs.nvs[..])
      invariant Sound(fs.g, fs.nvs[..], clean) && AllAdmissible(fs.g, fs.nvs[..], clean, cs[i..])
      invariant AllSupplied(fs.g, fs.nvs[..], cs[i..], ks[i..])
      invariant ExecAll(fs.g, f, cs) == ExecAll(fs.g, fs.nvs[..], cs[i..])
    {
      ghost var n := fs.nvs[..];
      AllStep(fs.g, n, clean, cs[i..], ks[i..]);
      StepSound(fs.g, n, clean, cs[i]);
      assert cs[i..][1..] == cs[i + 1..] && ks[i..][1..] == ks[i + 1..];
      var data;
      ok, data := Call(fs, cs[i], ks[i], clean);
      clean := CleanAfter(fs.g, n, cs[i], clean);
      i := i + 1;
    }
    assert cs[i..] == [];
    NoMore(fs.g, fs.nvs[..]);
    FromFormat(fs.g, m, cs);
  }

  lemma FormatIs(g: Geometry, m: seq<byte>)
    requires IsFlash(g, m)
    ensures PlanOf(g, m, CFormat).ops == FormatPlan(g).ops
  {
  }

  lemma AllLengths(g: Geometry, m: seq<byte>, cs: seq<Cmd>, ks: seq<nat>)
    requires IsFlash(g, m) && AllSupplied(g, m, cs, ks)
    ensures |ks| == |cs|
  {
  }

  lemma NoMore(g: Geometry, m: seq<byte>)
    requires IsFlash(g, m)
    ensures ExecAll(g, m, []) == m
  {
  }

  lemma FromFormat(g: Geometry, m: seq<byte>, cs: seq<Cmd>)
    requires IsFlash(g, m)
    ensures ExecAll(g, m, [CFormat] + cs) == ExecAll(g, Exec(g, m, CFormat), cs)
  {
    assert ([CFormat] + cs)[1..] == cs;
  }
}
