/** Frames in message RAM: header bit fields and payload bytes packed into 32-bit words, and back. */
module Frames {
  import opened Mram
  import B = Bytes

  /** The bit fields of a frame to transmit, in their widths. */
  datatype TxHeader = TxHeader(id: bv29, rtr: bv1, xtd: bv1, esi: bv1, dlc: bv4, brs: bv1, fdf: bv1, efc: bv1, mm: bv8)

  /** The bit fields of a received frame. */
  datatype RxHeader = RxHeader(id: bv29, rtr: bv1, xtd: bv1, esi: bv1, rxts: bv16, dlc: bv4, brs: bv1, fdf: bv1,
                               fidx: bv7, anmf: bv1)

  /** Payload bytes announced by a data length code. */
  function DlcBytes(dlc: bv4): (n: nat)
    ensures n <= 64 && (n > 8 ==> n % 4 == 0)
  {
    if dlc < 9 then dlc as nat
    else if dlc == 9 then 12
    else if dlc == 10 then 16
    else if dlc == 11 then 20
    else if dlc == 12 then 24
    else if dlc == 13 then 32
    else if dlc == 14 then 48
    else 64
  }

  /** The length codes: up to eight bytes, then the seven sizes of flexible data rate, those of the element size codes. */
  lemma DlcTable(dlc: bv4)
    ensures dlc <= 8 ==> DlcBytes(dlc) == dlc as nat
    ensures DlcBytes(9) == 12 && DlcBytes(10) == 16 && DlcBytes(11) == 20 && DlcBytes(12) == 24
    ensures DlcBytes(13) == 32 && DlcBytes(14) == 48 && DlcBytes(15) == 64
    ensures dlc >= 8 ==> DlcBytes(dlc) == DataBytes(dlc as nat - 8)
  {
  }

  function FlagWord(esi: bv1, xtd: bv1, rtr: bv1): bv32 {
    ((esi as bv32) << 31) | ((xtd as bv32) << 30) | ((rtr as bv32) << 29)
  }

  /** The first word with a standard id, and with an extended one. */
  function StandardHead(e: bv1, x: bv1, r: bv1, id: bv29): bv32 { FlagWord(e, x, r) | ((id as bv32 & 0x7FF) << 18) }

  function ExtendedHead(e: bv1, x: bv1, r: bv1, id: bv29): bv32 { FlagWord(e, x, r) | (id as bv32 & 0x1FFFFFFF) }

  function HeadWord(h: TxHeader): bv32 {
    if h.xtd != 0 then ExtendedHead(h.esi, h.xtd, h.rtr, h.id) else StandardHead(h.esi, h.xtd, h.rtr, h.id)
  }

  /** The control fields below the message marker. */
  function LowControl(h: TxHeader): bv32 {
    ((h.dlc as bv32) << 16) | ((h.brs as bv32) << 20) | ((h.fdf as bv32) << 21) | ((h.efc as bv32) << 23)
  }

  function ControlWord(h: TxHeader): bv32 {
    LowControl(h) | ((h.mm as bv32) << 24)
  }

  function DecodeId(w0: bv32, xtd: bv1): bv29 {
    if xtd != 0 then (w0 & 0x1FFFFFFF) as bv29 else ((w0 & 0x1FFC0000) >> 18) as bv29
  }

  function Decode(w0: bv32, w1: bv32): RxHeader {
    var xtd := ((w0 & 0x40000000) >> 30) as bv1;
    RxHeader(DecodeId(w0, xtd),
             ((w0 & 0x20000000) >> 29) as bv1, xtd, ((w0 & 0x80000000) >> 31) as bv1,
             (w1 & 0xFFFF) as bv16, ((w1 & 0xF0000) >> 16) as bv4,
             ((w1 & 0x100000) >> 20) as bv1, ((w1 & 0x200000) >> 21) as bv1,
             ((w1 & 0x7F000000) >> 24) as bv7, ((w1 & 0x80000000) >> 31) as bv1)
  }

  lemma FlagBits(h: TxHeader)
    ensures var r := Decode(HeadWord(h), ControlWord(h));
            r.xtd == h.xtd && r.rtr == h.rtr && r.esi == h.esi
  {
    var w := HeadWord(h);
    assert w & 0x40000000 == (h.xtd as bv32) << 30;
    assert w & 0x20000000 == (h.rtr as bv32) << 29;
    assert w & 0x80000000 == (h.esi as bv32) << 31;
  }

  lemma IdField(f: bv32, id: bv32)
    requires f & 0x1FFFFFFF == 0
    ensures (f | (id & 0x1FFFFFFF)) & 0x1FFFFFFF == id & 0x1FFFFFFF
    ensures ((f | ((id & 0x7FF) << 18)) & 0x1FFC0000) >> 18 == id & 0x7FF
  {
  }

  lemma FlagField(e: bv1, x: bv1, r: bv1)
    ensures FlagWord(e, x, r) & 0x1FFFFFFF == 0
  {
  }

  lemma IdWidth(id: bv29)
    ensures id as bv32 & 0x1FFFFFFF == id as bv32 && (id as bv32) as bv29 == id
    ensures (id as bv32 & 0x7FF) as bv29 == id & 0x7FF
  {
  }

  lemma IdBits(h: TxHeader)
    ensures DecodeId(HeadWord(h), h.xtd) == if h.xtd != 0 then h.id else h.id & 0x7FF
  {
    hide FlagWord;
    FlagField(h.esi, h.xtd, h.rtr);
    IdField(FlagWord(h.esi, h.xtd, h.rtr), h.id as bv32);
    IdWidth(h.id);
  }

  lemma DecodedId(h: TxHeader)
    ensures Decode(HeadWord(h), ControlWord(h)).id == DecodeId(HeadWord(h), h.xtd)
  {
    FlagBits(h);
    hide HeadWord, ControlWord, DecodeId;
  }

  lemma ControlBits(h: TxHeader)
    ensures var r := Decode(HeadWord(h), ControlWord(h));
            r.dlc == h.dlc && r.brs == h.brs && r.fdf == h.fdf && r.rxts == 0
  {
    var w := ControlWord(h);
    assert w & 0xF0000 == (h.dlc as bv32) << 16;
    assert w & 0x100000 == (h.brs as bv32) << 20;
    assert w & 0x200000 == (h.fdf as bv32) << 21;
    assert w & 0xFFFF == 0;
  }

  lemma LowField(h: TxHeader)
    ensures LowControl(h) & 0xFF000000 == 0
  {
  }

  lemma TopByte(low: bv32, mm: bv32)
    requires low & 0xFF000000 == 0
    ensures ((low | (mm << 24)) & 0x7F000000) >> 24 == mm & 0x7F
    ensures ((low | (mm << 24)) & 0x80000000) >> 31 == (mm & 0x80) >> 7
  {
  }

  lemma MarkerWidth(mm: bv8)
    ensures (mm as bv32 & 0x7F) as bv7 == (mm & 0x7F) as bv7
    ensures ((mm as bv32 & 0x80) >> 7) as bv1 == ((mm & 0x80) >> 7) as bv1
  {
  }

  lemma MarkerBits(h: TxHeader)
    ensures var r := Decode(HeadWord(h), ControlWord(h));
            r.fidx == (h.mm & 0x7F) as bv7 && r.anmf == ((h.mm & 0x80) >> 7) as bv1
  {
    hide LowControl, HeadWord, DecodeId;
    LowField(h);
    TopByte(LowControl(h), h.mm as bv32);
    MarkerWidth(h.mm);
  }

  /** A received word is a sent one field by field; a standard id keeps its low 11 bits. */
  lemma HeaderRoundTrip(h: TxHeader)
    ensures var r := Decode(HeadWord(h), ControlWord(h));
            && r.xtd == h.xtd && r.rtr == h.rtr && r.esi == h.esi && r.dlc == h.dlc && r.brs == h.brs && r.fdf == h.fdf
            && r.id == (if h.xtd != 0 then h.id else h.id & 0x7FF)
            && r.rxts == 0 && r.fidx == (h.mm & 0x7F) as bv7 && r.anmf == ((h.mm & 0x80) >> 7) as bv1
  {
    hide Decode, HeadWord, ControlWord;
    FlagBits(h);
    DecodedId(h);
    IdBits(h);
    ControlBits(h);
    MarkerBits(h);
  }

  /** So the id survives exactly when it is extended or below 2048. */
  lemma IdRoundTrip(h: TxHeader)
    ensures Decode(HeadWord(h), ControlWord(h)).id == h.id <==> h.xtd != 0 || h.id < 0x800
  {
    hide Decode, HeadWord, ControlWord;
    HeaderRoundTrip(h);
  }

  /** The numbers that words and fields stand for. */
  function Value(w: bv32): nat { w as nat }

  function ByteValue(b: bv8): nat { b as nat }

  function HalfValue(h: bv16): nat { h as nat }

  function IdValue(id: bv29): nat { id as nat }

  function StdValue(id: bv11): nat { id as nat }

  function DlcValue(dlc: bv4): nat { dlc as nat }

  function IndexValue(i: bv7): nat { i as nat }

  function BitValue(b: bv1): nat { if b == 1 then 1 else 0 }

  /** The first word of a frame, as a number. */
  function HeadNumber(h: TxHeader): nat {
    0x8000_0000 * BitValue(h.esi) + 0x4000_0000 * BitValue(h.xtd) + 0x2000_0000 * BitValue(h.rtr) +
    if h.xtd == 1 then IdValue(h.id) else 0x4_0000 * (IdValue(h.id) % 0x800)
  }

  /** The second word. */
  function ControlNumber(h: TxHeader): nat {
    0x1_0000 * DlcValue(h.dlc) + 0x10_0000 * BitValue(h.brs) + 0x20_0000 * BitValue(h.fdf) + 0x80_0000 * BitValue(h.efc) +
    0x100_0000 * ByteValue(h.mm)
  }

  lemma ControlSum(dlc: bv4, brs: bv1, fdf: bv1, efc: bv1, mm: bv8)
    ensures (((dlc as bv32) << 16) | ((brs as bv32) << 20) | ((fdf as bv32) << 21) | ((efc as bv32) << 23)
             | ((mm as bv32) << 24)) as nat ==
            0x1_0000 * (dlc as nat) + 0x10_0000 * BitValue(brs) + 0x20_0000 * BitValue(fdf) + 0x80_0000 * BitValue(efc) +
            0x100_0000 * (mm as nat)
  {
  }

  lemma ExtendedSum(e: bv1, x: bv1, r: bv1, id: bv29)
    ensures (((e as bv32) << 31) | ((x as bv32) << 30) | ((r as bv32) << 29) | (id as bv32 & 0x1FFFFFFF)) as nat ==
            0x8000_0000 * BitValue(e) + 0x4000_0000 * BitValue(x) + 0x2000_0000 * BitValue(r) + id as nat
  {
  }

  /** The low 11 bits of an id, and the bits above them. */
  function Join(std: bv11, high: bv18): bv29 { ((high as bv29) << 11) | (std as bv29) }

  lemma SplitId(id: bv29) returns (std: bv11, high: bv18)
    ensures id == Join(std, high)
  {
    std, high := (id & 0x7FF) as bv11, (id >> 11) as bv18;
  }

  lemma JoinSum(std: bv11, high: bv18)
    ensures (((high as bv29) << 11) | (std as bv29)) as nat == 0x800 * (high as nat) + std as nat && std as nat < 0x800
  {
  }

  lemma JoinIs(std: bv11, high: bv18) returns (n: nat)
    ensures IdValue(Join(std, high)) == 0x800 * n + StdValue(std) && StdValue(std) < 0x800
  {
    n := high as nat;
    JoinSum(std, high);
  }

  lemma JoinValue(std: bv11, high: bv18)
    ensures IdValue(Join(std, high)) % 0x800 == StdValue(std)
  {
    hide IdValue, StdValue, Join;
    var n := JoinIs(std, high);
  }

  lemma StandardSum(e: bv1, x: bv1, r: bv1, std: bv11, high: bv18)
    ensures (((e as bv32) << 31) | ((x as bv32) << 30) | ((r as bv32) << 29)
             | (((((high as bv29) << 11) | (std as bv29)) as bv32 & 0x7FF) << 18)) as nat ==
            0x8000_0000 * BitValue(e) + 0x4000_0000 * BitValue(x) + 0x2000_0000 * BitValue(r) + 0x4_0000 * (std as nat)
  {
  }

  lemma HeadIs(h: TxHeader)
    ensures HeadWord(h) ==
            if h.xtd == 1 then ExtendedHead(h.esi, h.xtd, h.rtr, h.id) else StandardHead(h.esi, h.xtd, h.rtr, h.id)
  {
    hide ExtendedHead, StandardHead;
  }

  lemma StandardWord(e: bv1, x: bv1, r: bv1, std: bv11, high: bv18)
    ensures Value(StandardHead(e, x, r, Join(std, high))) ==
            0x8000_0000 * BitValue(e) + 0x4000_0000 * BitValue(x) + 0x2000_0000 * BitValue(r) + 0x4_0000 * StdValue(std)
  {
    StandardSum(e, x, r, std, high);
  }

  lemma ExtendedWord(e: bv1, x: bv1, r: bv1, id: bv29)
    ensures Value(ExtendedHead(e, x, r, id)) ==
            0x8000_0000 * BitValue(e) + 0x4000_0000 * BitValue(x) + 0x2000_0000 * BitValue(r) + IdValue(id)
  {
    hide FlagWord, BitValue;
    ExtendedRaw(e, x, r, id);
    ExtendedSum(e, x, r, id);
  }

  lemma ExtendedRaw(e: bv1, x: bv1, r: bv1, id: bv29)
    ensures FlagWord(e, x, r) | (id as bv32 & 0x1FFFFFFF) ==
            ((e as bv32) << 31) | ((x as bv32) << 30) | ((r as bv32) << 29) | (id as bv32 & 0x1FFFFFFF)
  {
  }

  lemma ControlValue(h: TxHeader)
    ensures Value(ControlWord(h)) == ControlNumber(h)
  {
    ControlSum(h.dlc, h.brs, h.fdf, h.efc, h.mm);
  }

  lemma HeadValue(h: TxHeader)
    ensures Value(HeadWord(h)) == HeadNumber(h)
  {
    hide Value, HeadWord, StandardHead, ExtendedHead, Join, IdValue, StdValue, BitValue;
    HeadIs(h);
    if h.xtd == 1 {
      ExtendedWord(h.esi, h.xtd, h.rtr, h.id);
    } else {
      var std, high := SplitId(h.id);
      JoinValue(std, high);
      StandardWord(h.esi, h.xtd, h.rtr, std, high);
    }
  }

  /** The header words of a frame are the sums of its fields, each in its place. */
  lemma HeaderValues(h: TxHeader)
    ensures Value(HeadWord(h)) == HeadNumber(h) && Value(ControlWord(h)) == ControlNumber(h)
  {
    hide HeadWord, ControlWord, HeadNumber, ControlNumber;
    HeadValue(h);
    ControlValue(h);
  }

  /** A received first word, cut into its fields. */
  function FirstWord(e: bv1, x: bv1, r: bv1, std: bv11, low: bv18): bv32 {
    ((e as bv32) << 31) | ((x as bv32) << 30) | ((r as bv32) << 29) | ((std as bv32) << 18) | (low as bv32)
  }

  function LowIdValue(low: bv18): nat { low as nat }

  lemma FirstSum(e: bv1, x: bv1, r: bv1, std: bv11, low: bv18)
    ensures (((e as bv32) << 31) | ((x as bv32) << 30) | ((r as bv32) << 29) | ((std as bv32) << 18) | (low as bv32)) as nat ==
            0x8000_0000 * BitValue(e) + 0x4000_0000 * BitValue(x) + 0x2000_0000 * BitValue(r) + 0x4_0000 * (std as nat) +
            low as nat
  {
  }

  lemma FirstValue(e: bv1, x: bv1, r: bv1, std: bv11, low: bv18)
    ensures Value(FirstWord(e, x, r, std, low)) ==
            0x8000_0000 * BitValue(e) + 0x4000_0000 * BitValue(x) + 0x2000_0000 * BitValue(r) + 0x4_0000 * StdValue(std) +
            LowIdValue(low)
  {
    hide BitValue;
    FirstSum(e, x, r, std, low);
  }

  function StdBits(w: bv32): bv11 { ((w >> 18) & 0x7FF) as bv11 }

  function LowBits(w: bv32): bv18 { (w & 0x3FFFF) as bv18 }

  lemma FirstFlags(w0: bv32, w1: bv32)
    ensures var r := Decode(w0, w1); w0 == FirstWord(r.esi, r.xtd, r.rtr, StdBits(w0), LowBits(w0))
  {
    hide DecodeId;
  }

  lemma IdCut(w: bv32)
    ensures DecodeId(w, 1) == ((StdBits(w) as bv29) << 18) | (LowBits(w) as bv29)
    ensures DecodeId(w, 0) == StdBits(w) as bv29
  {
  }

  lemma FirstFields(w0: bv32, w1: bv32) returns (std: bv11, low: bv18)
    ensures var r := Decode(w0, w1);
            && w0 == FirstWord(r.esi, r.xtd, r.rtr, std, low)
            && r.id == if r.xtd == 1 then ((std as bv29) << 18) | (low as bv29) else std as bv29
  {
    FirstFlags(w0, w1);
    IdCut(w0);
    hide DecodeId, FirstWord, StdBits, LowBits;
    std, low := StdBits(w0), LowBits(w0);
  }

  lemma IdSum(std: bv11, low: bv18)
    ensures (((std as bv29) << 18) | (low as bv29)) as nat == 0x4_0000 * (std as nat) + low as nat
    ensures (std as bv29) as nat == std as nat && std as nat < 0x800 && low as nat < 0x4_0000
  {
  }

  lemma IdNumbers(std: bv11, low: bv18)
    ensures IdValue(((std as bv29) << 18) | (low as bv29)) == 0x4_0000 * StdValue(std) + LowIdValue(low)
    ensures IdValue(std as bv29) == StdValue(std) < 0x800 && LowIdValue(low) < 0x4_0000
  {
    IdSum(std, low);
  }

  lemma FirstDigits(e: nat, x: nat, r: nat, std: nat, low: nat)
    requires e < 2 && x < 2 && r < 2 && std < 0x800 && low < 0x4_0000
    ensures var w := 0x8000_0000 * e + 0x4000_0000 * x + 0x2000_0000 * r + 0x4_0000 * std + low;
            && w / 0x8000_0000 == e && w / 0x4000_0000 % 2 == x && w / 0x2000_0000 % 2 == r
            && w / 0x4_0000 % 0x800 == std && w % 0x2000_0000 == 0x4_0000 * std + low
  {
    var w := 0x8000_0000 * e + 0x4000_0000 * x + 0x2000_0000 * r + 0x4_0000 * std + low;
    assert w / 0x4_0000 == 0x2000 * e + 0x1000 * x + 0x800 * r + std;
    assert w / 0x2000_0000 == 4 * e + 2 * x + r;
    assert w / 0x4000_0000 == 2 * e + x;
  }

  lemma BitBelow(b: bv1)
    ensures BitValue(b) < 2 && (BitValue(b) == 1 <==> b == 1)
  {
  }

  /** The flags and the id of a received frame are the digits of its first word. */
  lemma FirstDecoded(w0: bv32, w1: bv32)
    ensures var r := Decode(w0, w1);
            var n := Value(w0);
            && BitValue(r.esi) == n / 0x8000_0000 && BitValue(r.xtd) == n / 0x4000_0000 % 2
            && BitValue(r.rtr) == n / 0x2000_0000 % 2
            && IdValue(r.id) == if r.xtd == 1 then n % 0x2000_0000 else n / 0x4_0000 % 0x800
  {
    hide Decode, Value, BitValue, IdValue, StdValue, LowIdValue, FirstWord;
    var r := Decode(w0, w1);
    var std, low := FirstFields(w0, w1);
    FirstValue(r.esi, r.xtd, r.rtr, std, low);
    IdNumbers(std, low);
    BitBelow(r.esi);
    BitBelow(r.xtd);
    BitBelow(r.rtr);
    FirstDigits(BitValue(r.esi), BitValue(r.xtd), BitValue(r.rtr), StdValue(std), LowIdValue(low));
  }

  /** A received second word, cut into its fields; two bits are reserved. */
  function SecondWord(rxts: bv16, dlc: bv4, brs: bv1, fdf: bv1, rest: bv2, fidx: bv7, anmf: bv1): bv32 {
    (rxts as bv32) | ((dlc as bv32) << 16) | ((brs as bv32) << 20) | ((fdf as bv32) << 21) | ((rest as bv32) << 22)
    | ((fidx as bv32) << 24) | ((anmf as bv32) << 31)
  }

  function RestValue(rest: bv2): nat { rest as nat }

  lemma SecondSum(rxts: bv16, dlc: bv4, brs: bv1, fdf: bv1, rest: bv2, fidx: bv7, anmf: bv1)
    ensures ((rxts as bv32) | ((dlc as bv32) << 16) | ((brs as bv32) << 20) | ((fdf as bv32) << 21) | ((rest as bv32) << 22)
             | ((fidx as bv32) << 24) | ((anmf as bv32) << 31)) as nat ==
            rxts as nat + 0x1_0000 * (dlc as nat) + 0x10_0000 * BitValue(brs) + 0x20_0000 * BitValue(fdf) +
            0x40_0000 * (rest as nat) + 0x100_0000 * (fidx as nat) + 0x8000_0000 * BitValue(anmf)
  {
  }

  lemma SecondValue(rxts: bv16, dlc: bv4, brs: bv1, fdf: bv1, rest: bv2, fidx: bv7, anmf: bv1)
    ensures Value(SecondWord(rxts, dlc, brs, fdf, rest, fidx, anmf)) ==
            HalfValue(rxts) + 0x1_0000 * DlcValue(dlc) + 0x10_0000 * BitValue(brs) + 0x20_0000 * BitValue(fdf) +
            0x40_0000 * RestValue(rest) + 0x100_0000 * IndexValue(fidx) + 0x8000_0000 * BitValue(anmf)
  {
    hide BitValue;
    SecondSum(rxts, dlc, brs, fdf, rest, fidx, anmf);
  }

  lemma SecondFields(w0: bv32, w1: bv32) returns (rest: bv2)
    ensures var r := Decode(w0, w1);
            w1 == SecondWord(r.rxts, r.dlc, r.brs, r.fdf, rest, r.fidx, r.anmf)
  {
    rest := ((w1 >> 22) & 3) as bv2;
  }

  lemma FieldBounds(rxts: bv16, dlc: bv4, rest: bv2, fidx: bv7)
    ensures HalfValue(rxts) < 0x1_0000 && DlcValue(dlc) < 16 && RestValue(rest) < 4 && IndexValue(fidx) < 0x80
  {
  }

  lemma SecondDigits(rxts: nat, dlc: nat, brs: nat, fdf: nat, rest: nat, fidx: nat, anmf: nat)
    requires rxts < 0x1_0000 && dlc < 16 && brs < 2 && fdf < 2 && rest < 4 && fidx < 0x80 && anmf < 2
    ensures var w := rxts + 0x1_0000 * dlc + 0x10_0000 * brs + 0x20_0000 * fdf + 0x40_0000 * rest + 0x100_0000 * fidx +
                     0x8000_0000 * anmf;
            && w % 0x1_0000 == rxts && w / 0x1_0000 % 16 == dlc && w / 0x10_0000 % 2 == brs && w / 0x20_0000 % 2 == fdf
            && w / 0x100_0000 % 0x80 == fidx && w / 0x8000_0000 == anmf
  {
    var w := rxts + 0x1_0000 * dlc + 0x10_0000 * brs + 0x20_0000 * fdf + 0x40_0000 * rest + 0x100_0000 * fidx +
             0x8000_0000 * anmf;
    assert w / 0x1_0000 == dlc + 16 * brs + 32 * fdf + 64 * rest + 256 * fidx + 0x8000 * anmf;
    assert w / 0x10_0000 == brs + 2 * fdf + 4 * rest + 16 * fidx + 0x800 * anmf;
    assert w / 0x20_0000 == fdf + 2 * rest + 8 * fidx + 0x400 * anmf;
    assert w / 0x100_0000 == fidx + 0x80 * anmf;
  }

  /** The other fields are the digits of its second word. */
  lemma SecondDecoded(w0: bv32, w1: bv32)
    ensures var r := Decode(w0, w1);
            var n := Value(w1);
            && HalfValue(r.rxts) == n % 0x1_0000 && DlcValue(r.dlc) == n / 0x1_0000 % 16
            && BitValue(r.brs) == n / 0x10_0000 % 2 && BitValue(r.fdf) == n / 0x20_0000 % 2
            && IndexValue(r.fidx) == n / 0x100_0000 % 0x80 && BitValue(r.anmf) == n / 0x8000_0000
  {
    hide Decode, Value, BitValue, HalfValue, DlcValue, RestValue, IndexValue, SecondWord;
    var r := Decode(w0, w1);
    var rest := SecondFields(w0, w1);
    SecondValue(r.rxts, r.dlc, r.brs, r.fdf, rest, r.fidx, r.anmf);
    FieldBounds(r.rxts, r.dlc, rest, r.fidx);
    BitBelow(r.brs);
    BitBelow(r.fdf);
    BitBelow(r.anmf);
    SecondDigits(HalfValue(r.rxts), DlcValue(r.dlc), BitValue(r.brs), BitValue(r.fdf), RestValue(rest), IndexValue(r.fidx),
                 BitValue(r.anmf));
  }

  /** Byte `k` of a word, least significant first. */
  function Lane(w: bv32, k: nat): bv8
    requires k < 4
  {
    if k == 0 then (w & 0xFF) as bv8
    else if k == 1 then ((w >> 8) & 0xFF) as bv8
    else if k == 2 then ((w >> 16) & 0xFF) as bv8
    else ((w >> 24) & 0xFF) as bv8
  }

  /** A byte moved to lane `k`. */
  function Place(b: bv8, k: nat): bv32
    requires k < 4
  {
    if k == 0 then b as bv32
    else if k == 1 then (b as bv32) << 8
    else if k == 2 then (b as bv32) << 16
    else (b as bv32) << 24
  }

  function ByteOr0(data: seq<bv8>, i: nat, n: nat): bv8
    requires n <= |data|
  {
    if i < n then data[i] else 0
  }

  /** The first `k` lanes of the word at byte `at`. */
  function Fill(data: seq<bv8>, at: nat, n: nat, k: nat): bv32
    requires n <= |data| && k <= 4
  {
    if k == 0 then 0 else Fill(data, at, n, k - 1) | Place(ByteOr0(data, at + k - 1, n), k - 1)
  }

  function PackWord(data: seq<bv8>, at: nat, n: nat): bv32
    requires n <= |data|
  {
    Fill(data, at, n, 4)
  }

  /** The first `n` bytes as words, the last one padded with zeros. */
  function Words(data: seq<bv8>, n: nat): (r: seq<bv32>)
    requires n <= |data|
    ensures |r| == (n + 3) / 4
  {
    seq((n + 3) / 4, k requires 0 <= k => PackWord(data, 4 * k, n))
  }

  /** `n` bytes out of words. */
  function Unpack(ws: seq<bv32>, n: nat): (r: seq<bv8>)
    requires (n + 3) / 4 <= |ws|
    ensures |r| == n
  {
    seq(n, i requires 0 <= i < n => Lane(ws[i / 4], i % 4))
  }

  /** Four bytes as a word. */
  function PackFour(a: bv8, b: bv8, c: bv8, d: bv8): bv32 {
    0 | Place(a, 0) | Place(b, 1) | Place(c, 2) | Place(d, 3)
  }

  lemma Lanes(a: bv8, b: bv8, c: bv8, d: bv8)
    ensures var w := PackFour(a, b, c, d);
            Lane(w, 0) == a && Lane(w, 1) == b && Lane(w, 2) == c && Lane(w, 3) == d
  {
  }

  lemma LaneByte(data: seq<bv8>, i: nat, n: nat)
    requires i < n <= |data|
    ensures ByteOr0(data, i, n) == data[i]
  {
  }

  lemma LaneOfFour(a: bv8, b: bv8, c: bv8, d: bv8, k: nat)
    requires k < 4
    ensures Lane(PackFour(a, b, c, d), k) == [a, b, c, d][k]
  {
    hide Lane, PackFour;
    Lanes(a, b, c, d);
  }

  lemma PackedLane(data: seq<bv8>, at: nat, n: nat, k: nat)
    requires n <= |data| && k < 4 && at + k < n
    ensures Lane(PackWord(data, at, n), k) == data[at + k]
  {
    hide Lane, PackFour, PackWord, ByteOr0;
    FillFour(data, at, n);
    LaneByte(data, at + k, n);
    LaneOfFour(ByteOr0(data, at, n), ByteOr0(data, at + 1, n), ByteOr0(data, at + 2, n), ByteOr0(data, at + 3, n), k);
  }

  /** The weight of byte `k` in a word. */
  function Weight(k: nat): nat
    requires k < 4
  {
    [1, 0x100, 0x1_0000, 0x100_0000][k]
  }

  lemma FourSum(a: bv8, b: bv8, c: bv8, d: bv8)
    ensures ((a as bv32) | ((b as bv32) << 8) | ((c as bv32) << 16) | ((d as bv32) << 24)) as nat ==
            (a as nat) + 0x100 * (b as nat) + 0x1_0000 * (c as nat) + 0x100_0000 * (d as nat)
  {
  }

  lemma FourRaw(a: bv8, b: bv8, c: bv8, d: bv8)
    ensures PackFour(a, b, c, d) == (a as bv32) | ((b as bv32) << 8) | ((c as bv32) << 16) | ((d as bv32) << 24)
  {
  }

  lemma FourValue(a: bv8, b: bv8, c: bv8, d: bv8)
    ensures Value(PackFour(a, b, c, d)) ==
            ByteValue(a) + 0x100 * ByteValue(b) + 0x1_0000 * ByteValue(c) + 0x100_0000 * ByteValue(d)
  {
    hide PackFour;
    FourRaw(a, b, c, d);
    FourSum(a, b, c, d);
  }

  /** The value of byte `i` of the first `n`, or zero behind them. */
  function ByteAt(data: seq<bv8>, i: nat, n: nat): nat
    requires n <= |data|
  {
    if i < n then ByteValue(data[i]) else 0
  }

  /** A payload word is the sum of its bytes, the first one lowest. */
  lemma PackedValue(data: seq<bv8>, at: nat, n: nat)
    requires n <= |data|
    ensures Value(PackWord(data, at, n)) ==
            ByteAt(data, at, n) + 0x100 * ByteAt(data, at + 1, n) + 0x1_0000 * ByteAt(data, at + 2, n) +
            0x100_0000 * ByteAt(data, at + 3, n)
  {
    hide Value, ByteValue, PackFour, PackWord, ByteOr0, ByteAt;
    FillFour(data, at, n);
    FourValue(ByteOr0(data, at, n), ByteOr0(data, at + 1, n), ByteOr0(data, at + 2, n), ByteOr0(data, at + 3, n));
    PaddedByte(data, at, n);
    PaddedByte(data, at + 1, n);
    PaddedByte(data, at + 2, n);
    PaddedByte(data, at + 3, n);
  }

  lemma PaddedByte(data: seq<bv8>, i: nat, n: nat)
    requires n <= |data|
    ensures ByteValue(ByteOr0(data, i, n)) == ByteAt(data, i, n)
  {
  }

  lemma FourLanes(w: bv32)
    ensures w == PackFour(Lane(w, 0), Lane(w, 1), Lane(w, 2), Lane(w, 3))
  {
  }

  lemma ByteBound(b: bv8)
    ensures ByteValue(b) < 0x100
  {
  }

  lemma Digits(a: nat, b: nat, c: nat, d: nat)
    requires a < 0x100 && b < 0x100 && c < 0x100 && d < 0x100
    ensures var w := a + 0x100 * b + 0x1_0000 * c + 0x100_0000 * d;
            w % 0x100 == a && w / 0x100 % 0x100 == b && w / 0x1_0000 % 0x100 == c && w / 0x100_0000 % 0x100 == d
  {
    var w := a + 0x100 * b + 0x1_0000 * c + 0x100_0000 * d;
    assert w / 0x100 == b + 0x100 * c + 0x1_0000 * d;
    assert w / 0x1_0000 == c + 0x100 * d;
    assert w / 0x100_0000 == d;
  }

  /** A byte taken out of a word is the digit of its place. */
  lemma LaneValue(w: bv32, k: nat)
    requires k < 4
    ensures ByteValue(Lane(w, k)) == Value(w) / Weight(k) % 0x100
  {
    hide Lane, PackFour, Value, ByteValue;
    var a, b, c, d := Lane(w, 0), Lane(w, 1), Lane(w, 2), Lane(w, 3);
    FourLanes(w);
    FourValue(a, b, c, d);
    ByteBound(a);
    ByteBound(b);
    ByteBound(c);
    ByteBound(d);
    Digits(ByteValue(a), ByteValue(b), ByteValue(c), ByteValue(d));
  }

  /** The words hold the first `n` bytes of `data`, four to a word, the first one lowest; zeros behind them. */
  ghost predicate HoldBytes(words: seq<bv32>, data: seq<bv8>, n: nat)
    requires n <= |data|
  {
    && |words| == (n + 3) / 4
    && forall k :: 0 <= k < |words| ==>
         Value(words[k]) ==
         ByteAt(data, 4 * k, n) + 0x100 * ByteAt(data, 4 * k + 1, n) + 0x1_0000 * ByteAt(data, 4 * k + 2, n) +
         0x100_0000 * ByteAt(data, 4 * k + 3, n)
  }

  lemma WordsHold(data: seq<bv8>, n: nat)
    requires n <= |data|
    ensures HoldBytes(Words(data, n), data, n)
  {
    hide Value, ByteAt, PackWord;
    forall k | 0 <= k < (n + 3) / 4
      ensures Value(Words(data, n)[k]) ==
              ByteAt(data, 4 * k, n) + 0x100 * ByteAt(data, 4 * k + 1, n) + 0x1_0000 * ByteAt(data, 4 * k + 2, n) +
              0x100_0000 * ByteAt(data, 4 * k + 3, n)
    {
      PackedValue(data, 4 * k, n);
    }
  }

  /** Byte `i` of what is unpacked is a digit of word `i / 4`. */
  lemma UnpackedValue(ws: seq<bv32>, n: nat, i: nat)
    requires (n + 3) / 4 <= |ws| && i < n
    ensures ByteValue(Unpack(ws, n)[i]) == Value(ws[i / 4]) / Weight(i % 4) % 0x100
  {
    hide Lane, Value, ByteValue, Weight;
    LaneValue(ws[i / 4], i % 4);
  }

  lemma FillStep(data: seq<bv8>, at: nat, n: nat, k: nat)
    requires n <= |data| && k < 4
    ensures Fill(data, at, n, 0) == 0
    ensures Fill(data, at, n, k + 1) == Fill(data, at, n, k) | Place(ByteOr0(data, at + k, n), k)
  {
  }

  lemma FillFour(data: seq<bv8>, at: nat, n: nat)
    requires n <= |data|
    ensures PackWord(data, at, n) ==
            PackFour(ByteOr0(data, at, n), ByteOr0(data, at + 1, n), ByteOr0(data, at + 2, n), ByteOr0(data, at + 3, n))
  {
    hide Place, ByteOr0, Fill;
    FillStep(data, at, n, 0);
    FillStep(data, at, n, 1);
    FillStep(data, at, n, 2);
    FillStep(data, at, n, 3);
  }

  /** Lanes past the end add nothing. */
  lemma {:induction false} FillRest(data: seq<bv8>, at: nat, n: nat, k: nat)
    requires at <= n <= |data| && n - at <= k <= 4
    ensures Fill(data, at, n, k) == Fill(data, at, n, n - at)
    decreases k
  {
    if k > n - at {
      FillRest(data, at, n, k - 1);
      PlaceZero(k - 1);
      OrZero(Fill(data, at, n, k - 1));
    }
  }

  /** Unpacking what was packed gives the bytes back. */
  lemma PayloadRoundTrip(data: seq<bv8>, n: nat)
    requires n <= |data|
    ensures Unpack(Words(data, n), n) == data[..n]
  {
    hide Lane, PackWord;
    forall i | 0 <= i < n ensures Unpack(Words(data, n), n)[i] == data[i] {
      PackedLane(data, 4 * (i / 4), n, i % 4);
    }
  }

  /** What the transmit function sends for one frame. */
  function FrameWords(h: TxHeader, data: seq<bv8>): seq<bv32>
    requires DlcBytes(h.dlc) <= |data|
  {
    [HeadWord(h), ControlWord(h)] + Words(data, DlcBytes(h.dlc))
  }

  /** The words of a frame, as numbers: the fields of the header in their places, then the payload bytes. */
  ghost predicate IsFrame(words: seq<bv32>, h: TxHeader, data: seq<bv8>)
    requires DlcBytes(h.dlc) <= |data|
  {
    && |words| >= 2 && Value(words[0]) == HeadNumber(h) && Value(words[1]) == ControlNumber(h)
    && HoldBytes(words[2..], data, DlcBytes(h.dlc))
  }

  lemma FrameIs(h: TxHeader, data: seq<bv8>)
    requires DlcBytes(h.dlc) <= |data|
    ensures IsFrame(FrameWords(h, data), h, data)
  {
    hide Value, HeadWord, ControlWord, HeadNumber, ControlNumber, HoldBytes, Words, DlcBytes;
    HeaderValues(h);
    WordsHold(data, DlcBytes(h.dlc));
    assert FrameWords(h, data)[2..] == Words(data, DlcBytes(h.dlc));
  }

  /** One burst: where it goes, how many words its header announces, and the words. */
  datatype Burst = Burst(addr: nat, announced: nat, words: seq<bv32>)

  /** What is written back after a read: the index of a FIFO element, or a bit of a new-data register. */
  datatype Ack = FifoAck(fifo1: bool, index: nat) | NewDataAck(second: bool, bit: nat)

  class Link {
    const mcan: Mcan
    var sent: seq<Burst>
    var acks: seq<Ack>

    constructor (mcan: Mcan)
      ensures this.mcan == mcan && sent == [] && acks == []
    {
      this.mcan := mcan;
      sent := [];
      acks := [];
    }

    /** Packs the payload word by word; a last word of fewer than four bytes is filled byte by byte. */
    method PackPayload(data: seq<bv8>, n: nat) returns (words: seq<bv32>)
      requires n <= |data| && n <= 64
      ensures words == Words(data, n) && HoldBytes(words, data, n)
    {
      WordsHold(data, n);
      hide HoldBytes;
      words := [];
      var i := 0;
      while i < n
        invariant i <= n && (i == n || i % 4 == 0) && |words| == (i + 3) / 4
        invariant forall k :: 0 <= k < |words| ==> words[k] == PackWord(data, 4 * k, n)
      {
        hide PackWord;
        var word;
        if n - i < 4 {
          word := LastWord(data, i, n);
          words := words + [word];
          i := n;
        } else {
          word := FullWord(data, i, n);
          words := words + [word];
          i := i + 4;
        }
      }
    }

    /** A last word of fewer than four bytes. */
    method LastWord(data: seq<bv8>, at: nat, n: nat) returns (word: bv32)
      requires at < n <= |data| && n - at < 4 && at % 4 == 0
      ensures word == PackWord(data, at, n)
    {
      hide Place, ByteOr0, Fill;
      word := 0;
      var i := at;
      FillStep(data, at, n, 0);
      while i < n
        invariant at <= i <= n
        invariant word == Fill(data, at, n, i - at)
      {
        LaneByte(data, i, n);
        FillStep(data, at, n, i - at);
        SameLane(at, i);
        word := word | Place(data[i], i % 4);
        i := i + 1;
      }
      FillRest(data, at, n, 4);
    }

    lemma SameLane(at: nat, i: nat)
      requires at % 4 == 0 && at <= i < at + 4
      ensures i % 4 == i - at
    {
    }

    method FullWord(data: seq<bv8>, at: nat, n: nat) returns (word: bv32)
      requires at + 4 <= n <= |data|
      ensures word == PackWord(data, at, n)
    {
      hide Place, ByteOr0, PackWord;
      FillFour(data, at, n);
      LaneByte(data, at, n);
      LaneByte(data, at + 1, n);
      LaneByte(data, at + 2, n);
      LaneByte(data, at + 3, n);
      word := 0;
      word := word | Place(data[at], 0);
      word := word | Place(data[at + 1], 1);
      word := word | Place(data[at + 2], 2);
      word := word | Place(data[at + 3], 3);
    }

    /** Writes a frame to a transmit buffer; `mask` is the bit of the buffer, for the first 32. */
    method WriteTxBuffer(bufIndex: nat, h: TxHeader, data: seq<bv8>) returns (ok: bool, mask: bv32)
      requires bufIndex < 256 && DlcBytes(h.dlc) <= |data|
      modifies `sent
      ensures var buffers := AtMost(Field(mcan.txbc, FIELD24, 64), 32) + AtMost(Field(mcan.txbc, FIELD8, 64), 32);
              var addr := Address(mcan.txbc, DataBytes(Field(mcan.txesc, 1, 8)) + 8, bufIndex);
              && ok == (bufIndex < buffers)
              && (!ok ==> mask == 0) && (ok && bufIndex < 32 ==> mask == 1 << bufIndex)
              && sent == old(sent) + if ok then [Burst(addr, |FrameWords(h, data)|, FrameWords(h, data))] else []
      ensures ok ==> |sent| > 0 && IsFrame(sent[|sent| - 1].words, h, data)
    {
      hide IsFrame, Field, Address, DataBytes, HeadWord, ControlWord, DlcBytes, AtMost, PackWord;
      var addr;
      mask := 0;
      ok, addr := mcan.TxAddress(bufIndex);
      if !ok {
        return;
      }
      var n := DlcBytes(h.dlc);
      var announced := (n + 8) / 4;
      if n % 4 != 0 {
        announced := announced + 1;
      }
      var payload := PackPayload(data, n);
      FrameIs(h, data);
      sent := sent + [Burst(addr, announced, [HeadWord(h), ControlWord(h)] + payload)];
      if bufIndex < 32 {
        mask := 1 << bufIndex;
      }
    }

    /**
     Reads an element of `size` payload bytes. `ram` is what the chip returns for a word address. With an
     empty payload the count returned is an uninitialised variable, `stale`.
     */
    method ReadElement(addr: nat, size: nat, ram: nat -> bv32, stale: nat)
      returns (count: nat, header: RxHeader, data: seq<bv8>)
      ensures header == Decode(ram(addr), ram(addr + 4))
      ensures data == PayloadAt(ram, addr, size)
      ensures count == if data == [] then stale else |data|
    {
      hide Lane, Decode, DlcBytes;
      header := Decode(ram(addr), ram(addr + 4));
      var n := size;
      if DlcBytes(header.dlc) < n {
        n := DlcBytes(header.dlc);
      }
      count, data := stale, [];
      if n > 0 {
        data := ReadPayload(addr + 8, n, ram);
        count := |data|;
      }
    }

    /** Reads, and acknowledges, the element of a receive FIFO that the FIFO status register names, if there is one. */
    method ReadNextFifo(fifo1: bool, status: nat, ram: nat -> bv32, stale: nat)
      returns (count: nat, header: B.Option<RxHeader>, data: seq<bv8>)
      modifies `acks
      ensures acks == old(acks) + if header.Some? then [FifoAck(fifo1, Field(status, 256, 64))] else []
      ensures header.None? <==> status % 128 == 0
      ensures header.None? ==> count == 0 && data == []
      ensures header.Some? ==>
        var size := DataBytes(if fifo1 then Field(mcan.rxesc, 16, 8) else Field(mcan.rxesc, 1, 8));
        var addr := Address(if fifo1 then mcan.rxf1c else mcan.rxf0c, size + 8, Field(status, 256, 64));
        && header.value == Decode(ram(addr), ram(addr + 4))
        && data == PayloadAt(ram, addr, size)
        && count == if data == [] then stale else |data|
    {
      hide Field, Decode, DataBytes, Address, PayloadAt;
      count, header, data := 0, B.None, [];
      if status % 128 == 0 {
        return;
      }
      var getIndex := Field(status, 256, 64);
      FieldBelow(status, 256, 64);
      var addr, size := mcan.FifoAddress(fifo1, getIndex);
      var rx;
      count, rx, data := ReadElement(addr, size, ram, stale);
      header := B.Some(rx);
      acks := acks + [FifoAck(fifo1, getIndex)];
    }

    /** Reads a dedicated receive buffer and clears its new-data bit; index 64 has none. */
    method ReadRxBuffer(bufIndex: nat, ram: nat -> bv32, stale: nat)
      returns (count: nat, header: RxHeader, data: seq<bv8>)
      requires bufIndex < 256
      modifies `acks
      ensures var index := AtMost(bufIndex, 64);
              acks == old(acks) + [NewDataAck(index >= 32, if index < 32 then index else index - 32)]
      ensures var size := DataBytes(Field(mcan.rxesc, 256, 8));
              var addr := Address(mcan.rxbc, size + 8, AtMost(bufIndex, 64));
              && header == Decode(ram(addr), ram(addr + 4))
              && data == PayloadAt(ram, addr, size)
              && count == if data == [] then stale else |data|
    {
      hide Field, Decode, DataBytes, Address, PayloadAt;
      var addr, size := mcan.RxBufferAddress(bufIndex);
      count, header, data := ReadElement(addr, size, ram, stale);
      var getIndex := if bufIndex > 64 then 64 else bufIndex;
      if getIndex < 32 {
        acks := acks + [NewDataAck(false, getIndex)];
      } else {
        acks := acks + [NewDataAck(true, getIndex - 32)];
      }
    }

    /** The payload loop: a new word every fourth byte. */
    method ReadPayload(addr: nat, n: nat, ram: nat -> bv32) returns (data: seq<bv8>)
      ensures data == Unpack(seq((n + 3) / 4, k requires 0 <= k => ram(addr + 4 * k)), n)
      ensures TakenFrom(data, ram, addr)
    {
      ReadValues(ram, addr, n);
      hide Lane, TakenFrom;
      ghost var ws := seq((n + 3) / 4, k requires 0 <= k => ram(addr + 4 * k));
      data := [];
      var word: bv32 := 0;
      var i := 0;
      while i < n
        invariant i <= n && |data| == i
        invariant i % 4 != 0 ==> word == ws[i / 4]
        invariant forall j :: 0 <= j < i ==> data[j] == Lane(ws[j / 4], j % 4)
      {
        if i % 4 == 0 {
          word := ram(addr + i);
          assert i == 4 * (i / 4);
        }
        data := data + [Lane(word, i % 4)];
        i := i + 1;
      }
    }
  }

  /** Byte `i` is a digit of the word at `addr + 4 * (i / 4)`, the first one of a word the lowest. */
  ghost predicate TakenFrom(data: seq<bv8>, ram: nat -> bv32, addr: nat) {
    forall i :: 0 <= i < |data| ==> ByteValue(data[i]) == Value(ram(addr + 4 * (i / 4))) / Weight(i % 4) % 0x100
  }

  lemma ReadValues(ram: nat -> bv32, addr: nat, n: nat)
    ensures TakenFrom(Unpack(seq((n + 3) / 4, k requires 0 <= k => ram(addr + 4 * k)), n), ram, addr)
  {
    hide Lane, Value, ByteValue;
    var ws := seq((n + 3) / 4, k requires 0 <= k => ram(addr + 4 * k));
    forall i | 0 <= i < n ensures ByteValue(Unpack(ws, n)[i]) == Value(ram(addr + 4 * (i / 4))) / Weight(i % 4) % 0x100 {
      UnpackedValue(ws, n, i);
    }
  }

  /** Payload bytes read: what the length code says, but no more than the element holds. */
  function PayloadLen(w0: bv32, w1: bv32, size: nat): nat {
    var n := DlcBytes(Decode(w0, w1).dlc);
    if n < size then n else size
  }

  /** The payload bytes of the element at `addr`. */
  function PayloadAt(ram: nat -> bv32, addr: nat, size: nat): seq<bv8> {
    var n := PayloadLen(ram(addr), ram(addr + 4), size);
    Unpack(seq((n + 3) / 4, k requires 0 <= k => ram(addr + 8 + 4 * k)), n)
  }

  /**
   The payload of a received element: as many bytes as its length code announces, but no more than the element holds;
   each is a digit of its word.
   */
  lemma PayloadValues(ram: nat -> bv32, addr: nat, size: nat)
    ensures var p := PayloadAt(ram, addr, size);
            var announced := DlcBytes(Decode(ram(addr), ram(addr + 4)).dlc);
            && (announced <= size ==> |p| == announced) && (announced >= size ==> |p| == size)
            && TakenFrom(p, ram, addr + 8)
  {
    hide Decode, TakenFrom, Unpack, DlcBytes;
    var n := PayloadLen(ram(addr), ram(addr + 4), size);
    ReadValues(ram, addr + 8, n);
    assert seq((n + 3) / 4, k requires 0 <= k => ram(addr + 8 + 4 * k)) ==
           seq((n + 3) / 4, k requires 0 <= k => ram((addr + 8) + 4 * k));
  }

  lemma FieldBelow(reg: nat, shift: nat, width: nat)
    requires shift > 0 && width > 0
    ensures Field(reg, shift, width) < width
  {
  }

  lemma PlaceZero(k: nat)
    requires k < 4
    ensures Place(0, k) == 0
  {
  }

  lemma OrZero(w: bv32)
    ensures w | 0 == w
  {
  }

  /** The words at consecutive addresses from `addr` on. */
  ghost predicate InRam(ram: nat -> bv32, addr: nat, ws: seq<bv32>) {
    forall k :: 0 <= k < |ws| ==> ram(addr + 4 * k) == ws[k]
  }

  /**
   Frame round trip. Reading, as the receive function does, an element that holds the words the transmit
   function sends returns every shared header field and exactly the payload, if the payload fits the element.
   */
  lemma FrameRoundTrip(h: TxHeader, data: seq<bv8>, ram: nat -> bv32, addr: nat, size: nat)
    requires DlcBytes(h.dlc) <= |data| && DlcBytes(h.dlc) <= size
    requires InRam(ram, addr, FrameWords(h, data))
    ensures var r := Decode(ram(addr), ram(addr + 4));
            && r.xtd == h.xtd && r.rtr == h.rtr && r.esi == h.esi && r.dlc == h.dlc && r.brs == h.brs && r.fdf == h.fdf
            && r.id == (if h.xtd != 0 then h.id else h.id & 0x7FF)
            && PayloadAt(ram, addr, size) == data[..DlcBytes(h.dlc)]
  {
    hide Decode, HeadWord, ControlWord, DlcBytes, Words, Unpack;
    var n := DlcBytes(h.dlc);
    var fw := FrameWords(h, data);
    var ws := Words(data, n);
    assert fw[0] == HeadWord(h) && fw[1] == ControlWord(h);
    assert ram(addr + 4 * 0) == fw[0] && ram(addr + 4 * 1) == fw[1];
    HeaderRoundTrip(h);
    PayloadRoundTrip(data, n);
    assert seq((n + 3) / 4, k requires 0 <= k => ram(addr + 8 + 4 * k)) == ws by {
      forall k | 0 <= k < |ws| ensures ram(addr + 8 + 4 * k) == ws[k] {
        assert addr + 8 + 4 * k == addr + 4 * (k + 2) && fw[k + 2] == ws[k];
      }
    }
  }

  /** A transmitted frame stays inside its element exactly when its payload fits the configured size. */
  lemma SentFits(c: Config, h: TxHeader, data: seq<bv8>)
    requires DlcBytes(h.dlc) <= |data|
    ensures 4 * |FrameWords(h, data)| <= ElementSize(c, Tx) <==> DlcBytes(h.dlc) <= DataBytes(c.txSize)
  {
    hide DlcBytes, DataBytes, HeadWord, ControlWord;
  }

  /** A receive never reads past its element. */
  lemma ReadFits(w0: bv32, w1: bv32, code: nat)
    ensures 8 + 4 * ((PayloadLen(w0, w1, DataBytes(code)) + 3) / 4) <= DataBytes(code) + 8
  {
    hide Decode, DataBytes, DlcBytes;
  }
}
