/**
 The layout of the controller's message RAM. Seven sections are laid out one after the other; `Configure`
 writes where they start into registers, and the access functions compute element addresses from those.
 Register fields do not overlap, so combining them is addition.
 */
module Mram {

  const MRAM := 0x8000
  const MRAM_SIZE := 2048
  const FIELD8 := 0x1_0000
  const FIELD24 := 0x100_0000
  const OVERWRITE := 0x8000_0000
  const QUEUE_MODE := 0x4000_0000

  /** Element counts and size codes, in the widths of the configuration's bit fields. */
  datatype ConfigRaw = Config(sid: nat, xid: nat, rx0: nat, rx0Size: nat, rx1: nat, rx1Size: nat,
                              rxBuf: nat, rxBufSize: nat, txEvent: nat, tx: nat, txSize: nat)
  type Config = c: ConfigRaw |
    && c.sid < 256 && c.xid < 128 && c.rx0 < 128 && c.rx1 < 128 && c.rxBuf < 128 && c.txEvent < 64 && c.tx < 64
    && c.rx0Size < 8 && c.rx1Size < 8 && c.rxBufSize < 8 && c.txSize < 8
    witness Config(0, 0, 0, 0, 0, 0, 0, 0, 0, 0, 0)

  /** Payload bytes of an element with this size code. */
  function DataBytes(code: nat): (r: nat)
    ensures 8 <= r <= 64 && r % 4 == 0
  {
    [8, 12, 16, 20, 24, 32, 48, 64][code % 8]
  }

  /** The eight element sizes. */
  lemma SizeTable(code: nat)
    ensures DataBytes(0) == 8 && DataBytes(1) == 12 && DataBytes(2) == 16 && DataBytes(3) == 20
    ensures DataBytes(4) == 24 && DataBytes(5) == 32 && DataBytes(6) == 48 && DataBytes(7) == 64
    ensures DataBytes(code) == DataBytes(code % 8)
  {
  }

  datatype Section = Sid | Xid | Rx0 | Rx1 | RxBuf | TxEvent | Tx

  function AtMost(n: nat, max: nat): nat { if n > max then max else n }

  /** The number of elements a section gets. */
  function Count(c: Config, s: Section): nat {
    match s
    case Sid => AtMost(c.sid, 128)
    case Xid => AtMost(c.xid, 64)
    case Rx0 => AtMost(c.rx0, 64)
    case Rx1 => AtMost(c.rx1, 64)
    case RxBuf => AtMost(c.rxBuf, 64)
    case TxEvent => AtMost(c.txEvent, 32)
    case Tx => AtMost(c.tx, 32)
  }

  /** The bytes of one element. */
  function ElementSize(c: Config, s: Section): (r: nat)
    ensures 4 <= r <= 72 && r % 4 == 0
  {
    match s
    case Sid => 4
    case Xid => 8
    case Rx0 => DataBytes(c.rx0Size) + 8
    case Rx1 => DataBytes(c.rx1Size) + 8
    case RxBuf => DataBytes(c.rxBufSize) + 8
    case TxEvent => 8
    case Tx => DataBytes(c.txSize) + 8
  }

  function SectionBytes(c: Config, s: Section): nat { ElementSize(c, s) * Count(c, s) }

  /** Where a section starts, relative to the message RAM. */
  function Start(c: Config, s: Section): nat {
    match s
    case Sid => 0
    case Xid => SectionBytes(c, Sid)
    case Rx0 => SectionBytes(c, Sid) + SectionBytes(c, Xid)
    case Rx1 => SectionBytes(c, Sid) + SectionBytes(c, Xid) + SectionBytes(c, Rx0)
    case RxBuf => SectionBytes(c, Sid) + SectionBytes(c, Xid) + SectionBytes(c, Rx0) + SectionBytes(c, Rx1)
    case TxEvent => SectionBytes(c, Sid) + SectionBytes(c, Xid) + SectionBytes(c, Rx0) + SectionBytes(c, Rx1) + SectionBytes(c, RxBuf)
    case Tx => SectionBytes(c, Sid) + SectionBytes(c, Xid) + SectionBytes(c, Rx0) + SectionBytes(c, Rx1) + SectionBytes(c, RxBuf) + SectionBytes(c, TxEvent)
  }

  function Finish(c: Config, s: Section): nat { Start(c, s) + SectionBytes(c, s) }

  function Total(c: Config): nat { Finish(c, Tx) }

  /** An element: its bytes are [ElementAt, ElementAt + ElementSize). */
  function ElementAt(c: Config, s: Section, i: nat): nat { Start(c, s) + ElementSize(c, s) * i }

  function Rank(s: Section): nat {
    match s case Sid => 0 case Xid => 1 case Rx0 => 2 case Rx1 => 3 case RxBuf => 4 case TxEvent => 5 case Tx => 6
  }

  lemma MulLe(a: nat, b: nat, n: nat)
    requires a <= b
    ensures a * n <= b * n
  {
  }

  lemma MulWords(q: nat, n: nat)
    ensures 4 * q * n % 4 == 0
  {
    assert 4 * q * n == 4 * (q * n);
  }

  lemma BytesBound(c: Config, s: Section)
    ensures SectionBytes(c, s) == 4 * (SectionBytes(c, s) / 4)
    ensures SectionBytes(c, s) <= if s.Sid? || s.Xid? then 512 else if s.TxEvent? then 256 else if s.Tx? then 2304 else 4608
  {
    MulWords(ElementSize(c, s) / 4, Count(c, s));
    assert ElementSize(c, s) == 4 * (ElementSize(c, s) / 4);
    if s.Sid? || s.Xid? || s.TxEvent? {
    } else {
      hide ElementSize;
      MulLe(ElementSize(c, s), 72, Count(c, s));
    }
  }

  /** The number of words before a section. */
  function WordsBefore(c: Config, s: Section): nat {
    var a, b, d, e, f, h := SectionBytes(c, Sid) / 4, SectionBytes(c, Xid) / 4, SectionBytes(c, Rx0) / 4, SectionBytes(c, Rx1) / 4,
                            SectionBytes(c, RxBuf) / 4, SectionBytes(c, TxEvent) / 4;
    match s
    case Sid => 0
    case Xid => a
    case Rx0 => a + b
    case Rx1 => a + b + d
    case RxBuf => a + b + d + e
    case TxEvent => a + b + d + e + f
    case Tx => a + b + d + e + f + h
  }

  lemma AllBounds(c: Config)
    ensures Start(c, Tx) + SectionBytes(c, Tx) <= 17408
    ensures forall s :: SectionBytes(c, s) == 4 * (SectionBytes(c, s) / 4)
  {
    hide SectionBytes;
    forall s ensures SectionBytes(c, s) == 4 * (SectionBytes(c, s) / 4) {
      BytesBound(c, s);
    }
    BytesBound(c, Sid);
    BytesBound(c, Xid);
    BytesBound(c, Rx0);
    BytesBound(c, Rx1);
    BytesBound(c, RxBuf);
    BytesBound(c, TxEvent);
    BytesBound(c, Tx);
  }

  lemma StartWords(c: Config, s: Section)
    ensures Start(c, s) == 4 * WordsBefore(c, s) && Start(c, s) + SectionBytes(c, s) <= Start(c, Tx) + SectionBytes(c, Tx)
  {
    hide SectionBytes;
    AllBounds(c);
  }

  /** Every section starts and ends on a word, and no offset comes near the limit of 16 bits. */
  lemma LayoutFits(c: Config, s: Section)
    ensures Start(c, s) % 4 == 0 && Finish(c, s) % 4 == 0 && Finish(c, s) <= Total(c) <= 17408
  {
    hide SectionBytes, Start, WordsBefore;
    AllBounds(c);
    StartWords(c, s);
    assert Finish(c, s) == 4 * (WordsBefore(c, s) + SectionBytes(c, s) / 4);
  }

  /** How many elements each section gets at most. */
  lemma CountTable(c: Config)
    ensures Count(c, Sid) == if c.sid <= 128 then c.sid else 128
    ensures Count(c, Xid) == if c.xid <= 64 then c.xid else 64
    ensures Count(c, Rx0) == if c.rx0 <= 64 then c.rx0 else 64
    ensures Count(c, Rx1) == if c.rx1 <= 64 then c.rx1 else 64
    ensures Count(c, RxBuf) == if c.rxBuf <= 64 then c.rxBuf else 64
    ensures Count(c, TxEvent) == if c.txEvent <= 32 then c.txEvent else 32
    ensures Count(c, Tx) == if c.tx <= 32 then c.tx else 32
  {
  }

  /** The bytes of one element: a filter of one or two words, an event of two, or two words and a payload. */
  lemma ElementTable(c: Config)
    ensures ElementSize(c, Sid) == 4 && ElementSize(c, Xid) == 8 && ElementSize(c, TxEvent) == 8
    ensures ElementSize(c, Rx0) == 8 + [8, 12, 16, 20, 24, 32, 48, 64][c.rx0Size]
    ensures ElementSize(c, Rx1) == 8 + [8, 12, 16, 20, 24, 32, 48, 64][c.rx1Size]
    ensures ElementSize(c, RxBuf) == 8 + [8, 12, 16, 20, 24, 32, 48, 64][c.rxBufSize]
    ensures ElementSize(c, Tx) == 8 + [8, 12, 16, 20, 24, 32, 48, 64][c.txSize]
  {
  }

  /** The order of the sections: filters, receive FIFOs and buffers, transmit events, transmit buffers. */
  lemma SectionOrder(c: Config)
    ensures Start(c, Sid) == 0 && Start(c, Xid) == Finish(c, Sid) && Start(c, Rx0) == Finish(c, Xid)
    ensures Start(c, Rx1) == Finish(c, Rx0) && Start(c, RxBuf) == Finish(c, Rx1)
    ensures Start(c, TxEvent) == Finish(c, RxBuf) && Start(c, Tx) == Finish(c, TxEvent) && Total(c) == Finish(c, Tx)
  {
    hide SectionBytes;
  }

  /** Sections of lower rank end before sections of higher rank start, and neighbours touch. */
  lemma SectionsInOrder(c: Config, s: Section, t: Section)
    requires Rank(s) < Rank(t)
    ensures Finish(c, s) <= Start(c, t)
    ensures Rank(t) == Rank(s) + 1 ==> Finish(c, s) == Start(c, t)
  {
    hide SectionBytes;
  }

  lemma Within(z: nat, i: nat, n: nat)
    requires i < n
    ensures z * i + z <= z * n
  {
    assert z * i + z == z * (i + 1);
    MulLe(i + 1, n, z);
  }

  lemma BytesAre(c: Config, s: Section)
    ensures SectionBytes(c, s) == ElementSize(c, s) * Count(c, s)
  {
  }

  lemma InElement(c: Config, s: Section, i: nat)
    requires i < Count(c, s)
    ensures Start(c, s) <= ElementAt(c, s, i)
    ensures ElementAt(c, s, i) + ElementSize(c, s) <= Finish(c, s) <= Total(c) <= 17408
  {
    hide ElementSize, Count, Start, Total, SectionBytes;
    LayoutFits(c, s);
    BytesAre(c, s);
    Within(ElementSize(c, s), i, Count(c, s));
  }

  /** Every element starts on a word. */
  lemma ElementAligned(c: Config, s: Section, i: nat)
    ensures ElementAt(c, s, i) % 4 == 0
  {
    hide ElementSize, Start, WordsBefore;
    StartWords(c, s);
    var q := ElementSize(c, s) / 4;
    Regroup(WordsBefore(c, s), q, i);
    assert ElementSize(c, s) == 4 * q;
  }

  lemma Regroup(w: nat, q: nat, i: nat)
    ensures (4 * w + 4 * q * i) % 4 == 0
  {
    assert 4 * w + 4 * q * i == 4 * (w + q * i);
  }

  /** Different elements, of one section or of two, share no byte. */
  lemma ElementsDisjoint(c: Config, s: Section, i: nat, t: Section, j: nat)
    requires i < Count(c, s) && j < Count(c, t) && (s != t || i != j)
    ensures ElementAt(c, s, i) + ElementSize(c, s) <= ElementAt(c, t, j) ||
            ElementAt(c, t, j) + ElementSize(c, t) <= ElementAt(c, s, i)
  {
    if s == t {
      hide ElementSize, Count, Start;
      Within(ElementSize(c, s), if i < j then i else j, if i < j then j else i);
    } else {
      hide ElementAt, ElementSize, Count, Finish;
      InElement(c, s, i);
      InElement(c, t, j);
      if Rank(s) < Rank(t) { SectionsInOrder(c, s, t); } else { SectionsInOrder(c, t, s); }
    }
  }

  ghost predicate ElementInRam(c: Config, s: Section, i: nat) {
    ElementAt(c, s, i) + ElementSize(c, s) <= MRAM_SIZE
  }

  /** All elements lie in the message RAM exactly when the total is at most 2048. */
  lemma InBoundsExactly(c: Config)
    ensures Total(c) <= 2048 <==> forall s, i: nat :: i < Count(c, s) ==> ElementInRam(c, s, i)
  {
    hide ElementAt, ElementSize, Count, Finish, Start, Total;
    forall s, i: nat | i < Count(c, s) ensures ElementAt(c, s, i) + ElementSize(c, s) <= Total(c) {
      InElement(c, s, i);
    }
    if Total(c) > MRAM_SIZE {
      var s := LastUsed(c);
      assert !ElementInRam(c, s, Count(c, s) - 1);
    }
  }

  /** The last section that has elements ends where the layout ends. */
  lemma LastUsed(c: Config) returns (s: Section)
    requires Total(c) > 0
    ensures Count(c, s) > 0
    ensures ElementAt(c, s, Count(c, s) - 1) + ElementSize(c, s) == Total(c)
  {
    s := if Count(c, Tx) > 0 then Tx
         else if Count(c, TxEvent) > 0 then TxEvent
         else if Count(c, RxBuf) > 0 then RxBuf
         else if Count(c, Rx1) > 0 then Rx1
         else if Count(c, Rx0) > 0 then Rx0
         else if Count(c, Xid) > 0 then Xid
         else Sid;
    hide ElementSize, Count;
    EmptyBytes(c, Sid);
    EmptyBytes(c, Xid);
    EmptyBytes(c, Rx0);
    EmptyBytes(c, Rx1);
    EmptyBytes(c, RxBuf);
    EmptyBytes(c, TxEvent);
    EmptyBytes(c, Tx);
  }

  lemma EmptyBytes(c: Config, s: Section)
    ensures SectionBytes(c, s) > 0 <==> Count(c, s) > 0
    ensures Count(c, s) > 0 ==> ElementSize(c, s) * (Count(c, s) - 1) + ElementSize(c, s) == SectionBytes(c, s)
  {
    if Count(c, s) > 0 {
      MulLe(1, Count(c, s), ElementSize(c, s));
    }
  }

  /** A field of a register: bits from `shift` on, `width` values. */
  function Field(reg: nat, shift: nat, width: nat): nat
    requires shift > 0 && width > 0
  {
    reg / shift % width
  }

  /** The 16-bit address of element `i` of a section whose start is in the low half of `reg`. */
  function Address(reg: nat, size: nat, i: nat): nat {
    (Field(reg, 1, 0x1_0000) + MRAM + size * i) % 0x1_0000
  }

  /** The offset after `n` elements of a section, in 16 bits. */
  function After(offset: nat, size: nat, n: nat): nat { (offset + size * n) % 0x1_0000 }

  /** The running offset of the layout, section by section; the 16-bit sum never wraps. */
  lemma Offsets(c: Config)
    ensures Start(c, Sid) == 0
    ensures Start(c, Xid) == After(0, 4, Count(c, Sid))
    ensures Start(c, Rx0) == After(Start(c, Xid), 8, Count(c, Xid))
    ensures Start(c, Rx1) == After(Start(c, Rx0), DataBytes(c.rx0Size) + 8, Count(c, Rx0))
    ensures Start(c, RxBuf) == After(Start(c, Rx1), DataBytes(c.rx1Size) + 8, Count(c, Rx1))
    ensures Start(c, TxEvent) == After(Start(c, RxBuf), DataBytes(c.rxBufSize) + 8, Count(c, RxBuf))
    ensures Start(c, Tx) == After(Start(c, TxEvent), 8, Count(c, TxEvent))
    ensures Total(c) - 1 <= MRAM_SIZE + MRAM && Total(c) == After(Start(c, Tx), DataBytes(c.txSize) + 8, Count(c, Tx))
  {
    hide DataBytes, Count, Total, Start;
    FirstStart(c);
    Step(c, Sid, Xid);
    Step(c, Xid, Rx0);
    Step(c, Rx0, Rx1);
    Step(c, Rx1, RxBuf);
    Step(c, RxBuf, TxEvent);
    Step(c, TxEvent, Tx);
    NoWrap(c, Tx);
    LayoutFits(c, Tx);
  }

  /** Neighbouring sections. */
  lemma Step(c: Config, s: Section, t: Section)
    requires Rank(t) == Rank(s) + 1
    ensures Start(c, t) == After(Start(c, s), ElementSize(c, s), Count(c, s))
  {
    hide ElementSize, Count, Total, SectionBytes, Start;
    SectionsInOrder(c, s, t);
    NoWrap(c, s);
  }

  lemma FirstStart(c: Config)
    ensures Start(c, Sid) == 0
  {
  }

  lemma NoWrap(c: Config, s: Section)
    ensures (Start(c, s) + ElementSize(c, s) * Count(c, s)) % 0x1_0000 == Start(c, s) + SectionBytes(c, s)
    ensures Total(c) == Finish(c, Tx)
  {
    hide Start, ElementSize, Count;
    LayoutFits(c, s);
  }

  lemma ModAdd(a: nat, b: nat)
    ensures (a % 0x1_0000 + b) % 0x1_0000 == (a + b) % 0x1_0000
  {
  }

  /** The address as the access functions compute it, in two sums of 16 bits. */
  method ElementAddress(reg: nat, size: nat, i: nat) returns (addr: nat)
    ensures addr == Address(reg, size, i)
  {
    hide Field;
    addr := (Field(reg, 1, 0x1_0000) + MRAM) % 0x1_0000;
    ModAdd(Field(reg, 1, 0x1_0000) + MRAM, size * i);
    addr := (addr + size * i) % 0x1_0000;
  }

  /** A section's register: count, start and mode bits, or zero if the section is empty. */
  function Register(n: nat, unit: nat, start: nat, mode: nat): nat {
    if n > 0 then n * unit + start + mode else 0
  }

  /** The controller's configuration registers. */
  class Mcan {
    var sidfc: nat
    var xidfc: nat
    var rxf0c: nat
    var rxf1c: nat
    var rxbc: nat
    var txefc: nat
    var txbc: nat
    var rxesc: nat
    var txesc: nat

    /** The registers describe the layout of `c`. */
    ghost predicate Configured(c: Config)
      reads this
    {
      && sidfc == Register(Count(c, Sid), FIELD8, Start(c, Sid), 0)
      && xidfc == Register(Count(c, Xid), FIELD8, Start(c, Xid), 0)
      && rxf0c == Register(Count(c, Rx0), FIELD8, Start(c, Rx0), OVERWRITE)
      && rxf1c == Register(Count(c, Rx1), FIELD8, Start(c, Rx1), 0)
      && rxbc == Register(Count(c, RxBuf), 0, Start(c, RxBuf), 0)
      && txefc == Register(Count(c, TxEvent), FIELD8, Start(c, TxEvent), 0)
      && txbc == Register(Count(c, Tx), FIELD24, Start(c, Tx), QUEUE_MODE)
      && rxesc == c.rxBufSize * 256 + c.rx1Size * 16 + c.rx0Size
      && txesc == c.txSize
    }

    constructor ()
    {
      sidfc, xidfc, rxf0c, rxf1c, rxbc, txefc, txbc, rxesc, txesc := 0, 0, 0, 0, 0, 0, 0, 0, 0;
    }

    /** Lays the sections out. The final guard compares an offset with an absolute address and never rejects. */
    method Configure(c: Config) returns (ok: bool)
      modifies this
      ensures ok && Configured(c)
    {
      hide DataBytes, SectionBytes, Start, Finish, Total, AtMost, ElementSize, After, Register;
      Offsets(c);
      var startAddress := 0;

      var n := AtMost(c.sid, 128);
      sidfc := Register(n, FIELD8, startAddress, 0);
      startAddress := After(startAddress, 4, n);

      n := AtMost(c.xid, 64);
      xidfc := Register(n, FIELD8, startAddress, 0);
      startAddress := After(startAddress, 8, n);

      n := AtMost(c.rx0, 64);
      rxf0c := Register(n, FIELD8, startAddress, OVERWRITE);
      startAddress := After(startAddress, DataBytes(c.rx0Size) + 8, n);

      n := AtMost(c.rx1, 64);
      rxf1c := Register(n, FIELD8, startAddress, 0);
      startAddress := After(startAddress, DataBytes(c.rx1Size) + 8, n);

      n := AtMost(c.rxBuf, 64);
      rxbc := Register(n, 0, startAddress, 0);
      startAddress := After(startAddress, DataBytes(c.rxBufSize) + 8, n);

      n := AtMost(c.txEvent, 32);
      txefc := Register(n, FIELD8, startAddress, 0);
      startAddress := After(startAddress, 8, n);

      n := AtMost(c.tx, 32);
      txbc := Register(n, FIELD24, startAddress, QUEUE_MODE);
      startAddress := After(startAddress, DataBytes(c.txSize) + 8, n);

      if startAddress - 1 > MRAM_SIZE + MRAM {
        return false;
      }
      rxesc := c.rxBufSize * 256 + c.rx1Size * 16 + c.rx0Size;
      txesc := c.txSize;
      ok := true;
    }

    /** Address of a standard-id filter. The range check lets one index too many pass. */
    method SidAddress(index: nat) returns (ok: bool, addr: nat)
      requires index < 256
      ensures var count := Field(sidfc, FIELD8, 256);
              && ok == (index <= count)
              && (ok ==> addr == Address(sidfc, 4, index))
    {
      ok, addr := false, 0;
      var getIndex := Field(sidfc, FIELD8, 256);
      if index > getIndex {
        return;
      }
      getIndex := index;
      addr := ElementAddress(sidfc, 4, getIndex);
      ok := true;
    }

    /** Address of an extended-id filter, with the same range check. */
    method XidAddress(index: nat) returns (ok: bool, addr: nat)
      requires index < 256
      ensures var count := Field(xidfc, FIELD8, 256);
              && ok == (index <= count)
              && (ok ==> addr == Address(xidfc, 8, index))
    {
      ok, addr := false, 0;
      var getIndex := Field(xidfc, FIELD8, 256);
      if index > getIndex {
        return;
      }
      getIndex := index;
      addr := ElementAddress(xidfc, 8, getIndex);
      ok := true;
    }

    /** Address of the receive FIFO element the controller's get index names. */
    method FifoAddress(fifo1: bool, getIndex: nat) returns (addr: nat, dataBytes: nat)
      requires getIndex < 64
      ensures dataBytes == DataBytes(if fifo1 then Field(rxesc, 16, 8) else Field(rxesc, 1, 8))
      ensures addr == Address(if fifo1 then rxf1c else rxf0c, dataBytes + 8, getIndex)
    {
      hide Field, DataBytes, Address;
      if fifo1 {
        dataBytes := DataBytes(Field(rxesc, 16, 8));
        addr := ElementAddress(rxf1c, dataBytes + 8, getIndex);
      } else {
        dataBytes := DataBytes(Field(rxesc, 1, 8));
        addr := ElementAddress(rxf0c, dataBytes + 8, getIndex);
      }
    }

    /** Address of a dedicated receive buffer; an index above 64 is read as 64. */
    method RxBufferAddress(bufIndex: nat) returns (addr: nat, dataBytes: nat)
      requires bufIndex < 256
      ensures dataBytes == DataBytes(Field(rxesc, 256, 8))
      ensures addr == Address(rxbc, dataBytes + 8, AtMost(bufIndex, 64))
    {
      hide Field, DataBytes, Address;
      var getIndex := if bufIndex > 64 then 64 else bufIndex;
      dataBytes := DataBytes(Field(rxesc, 256, 8));
      addr := ElementAddress(rxbc, dataBytes + 8, getIndex);
    }

    /** Address of a transmit buffer, refused when there is no such buffer. */
    method TxAddress(bufIndex: nat) returns (ok: bool, addr: nat)
      requires bufIndex < 256
      ensures var buffers := AtMost(Field(txbc, FIELD24, 64), 32) + AtMost(Field(txbc, FIELD8, 64), 32);
              && ok == (bufIndex < buffers)
              && (ok ==> addr == Address(txbc, DataBytes(Field(txesc, 1, 8)) + 8, bufIndex))
    {
      hide Field, DataBytes, Address;
      ok, addr := false, 0;
      var buffers := AtMost(Field(txbc, FIELD24, 64), 32);
      buffers := buffers + AtMost(Field(txbc, FIELD8, 64), 32);
      if bufIndex > buffers - 1 {
        return;
      }
      var elementSize := DataBytes(Field(txesc, 1, 8)) + 8;
      addr := ElementAddress(txbc, elementSize, bufIndex);
      ok := true;
    }
  }

  /** The section registers: start in the low half, count above it, and for two of them a mode bit. */
  lemma RegistersAre(r: Mcan, c: Config)
    requires r.Configured(c)
    ensures r.sidfc == if Count(c, Sid) == 0 then 0 else 65536 * Count(c, Sid) + Start(c, Sid)
    ensures r.xidfc == if Count(c, Xid) == 0 then 0 else 65536 * Count(c, Xid) + Start(c, Xid)
    ensures r.rxf0c == if Count(c, Rx0) == 0 then 0 else 0x8000_0000 + 65536 * Count(c, Rx0) + Start(c, Rx0)
    ensures r.rxf1c == if Count(c, Rx1) == 0 then 0 else 65536 * Count(c, Rx1) + Start(c, Rx1)
    ensures r.rxbc == if Count(c, RxBuf) == 0 then 0 else Start(c, RxBuf)
    ensures r.txefc == if Count(c, TxEvent) == 0 then 0 else 65536 * Count(c, TxEvent) + Start(c, TxEvent)
    ensures r.txbc == if Count(c, Tx) == 0 then 0 else 0x4000_0000 + 0x100_0000 * Count(c, Tx) + Start(c, Tx)
    ensures r.rxesc == c.rx0Size + 16 * c.rx1Size + 256 * c.rxBufSize && r.txesc == c.txSize
  {
    hide Count, Start;
  }

  lemma HalfWords(a: nat, start: nat)
    requires start < 0x1_0000
    ensures (a * 0x1_0000 + start) / 0x1_0000 == a && (a * 0x1_0000 + start) % 0x1_0000 == start
  {
  }

  lemma TopBits(n: nat, top: nat)
    requires n < 256 && top <= 1
    ensures (n + top * 32768) % 256 == n
  {
    if top == 0 {
      assert top * 32768 == 0;
    } else {
      assert top * 32768 == 32768;
    }
  }

  /** A count field above a start field: both can be read back. */
  lemma Packed(n: nat, start: nat, top: nat)
    requires n < 256 && start < 0x1_0000 && top <= 1
    ensures Field(n * FIELD8 + start + top * OVERWRITE, 1, 0x1_0000) == start
    ensures Field(n * FIELD8 + start + top * OVERWRITE, FIELD8, 256) == n
  {
    HalfWords(n + top * 32768, start);
    TopBits(n, top);
    assert n * FIELD8 + start + top * OVERWRITE == (n + top * 32768) * 0x1_0000 + start;
  }

  lemma PackedTx(n: nat, start: nat)
    requires n <= 32 && start < 0x1_0000
    ensures var r := n * FIELD24 + start + QUEUE_MODE;
            Field(r, 1, 0x1_0000) == start && Field(r, FIELD24, 64) == n && Field(r, FIELD8, 64) == 0
  {
    var r := n * FIELD24 + start + QUEUE_MODE;
    assert r == (n * 256 + 16384) * FIELD8 + start;
    assert r / FIELD8 == n * 256 + 16384 == 64 * (4 * n + 256);
    assert r / FIELD24 == n + 64;
  }

  lemma StartBelow(c: Config, s: Section)
    ensures Start(c, s) < 0x1_0000
  {
    hide Start, Total;
    LayoutFits(c, s);
  }

  /** The address computed from a section's own start is the element's, with no wrap. */
  lemma AddressIs(c: Config, s: Section, reg: nat, i: nat)
    requires i <= Count(c, s) && Field(reg, 1, 0x1_0000) == Start(c, s)
    ensures Address(reg, ElementSize(c, s), i) == MRAM + ElementAt(c, s, i)
    ensures i == Count(c, s) ==> ElementAt(c, s, i) == Finish(c, s)
  {
    hide ElementSize, Count, Start, Total, Field;
    LayoutFits(c, s);
    BytesAre(c, s);
    MulLe(i, Count(c, s), ElementSize(c, s));
  }

  /**
   Filter access. An index inside the section addresses that element. The range check also passes the index
   one past the end, which addresses the first byte after the section.
   */
  lemma SidAccess(r: Mcan, c: Config, index: nat)
    requires r.Configured(c)
    ensures Field(r.sidfc, FIELD8, 256) == Count(c, Sid)
    ensures index <= Count(c, Sid) ==>
      var addr := Address(r.sidfc, 4, index);
      addr == 0x8000 + ElementAt(c, Sid, index) && (addr < 0x8000 + Finish(c, Sid) <==> index < Count(c, Sid))
  {
    hide Field, Start, SectionBytes, Address;
    Packed(Count(c, Sid), 0, 0);
    Packed(0, 0, 0);
    SectionStart(c);
    if index <= Count(c, Sid) {
      AddressIs(c, Sid, r.sidfc, index);
      if index < Count(c, Sid) { InElement(c, Sid, index); }
    }
  }

  lemma SectionStart(c: Config)
    ensures Start(c, Sid) == 0 && Count(c, Sid) < 256 && Count(c, Xid) < 256 && Count(c, Rx0) < 256 && Count(c, Rx1) < 256
  {
  }

  lemma XidAccess(r: Mcan, c: Config, index: nat)
    requires r.Configured(c) && Count(c, Xid) > 0
    ensures Field(r.xidfc, FIELD8, 256) == Count(c, Xid)
    ensures index <= Count(c, Xid) ==>
      var addr := Address(r.xidfc, 8, index);
      addr == 0x8000 + ElementAt(c, Xid, index) && (addr < 0x8000 + Finish(c, Xid) <==> index < Count(c, Xid))
  {
    hide Field, Start, SectionBytes, Address;
    StartBelow(c, Xid);
    SectionStart(c);
    Packed(Count(c, Xid), Start(c, Xid), 0);
    if index <= Count(c, Xid) {
      AddressIs(c, Xid, r.xidfc, index);
      if index < Count(c, Xid) { InElement(c, Xid, index); }
    }
  }

  /** Without extended filters the register is zero, so index 0 passes the check and addresses the standard ones. */
  lemma XidNone(r: Mcan, c: Config)
    requires r.Configured(c) && Count(c, Xid) == 0
    ensures Field(r.xidfc, FIELD8, 256) == 0 && Address(r.xidfc, 8, 0) == 0x8000 + Start(c, Sid) == 0x8000
  {
  }

  lemma SizeCodes(a: nat, b: nat, d: nat)
    requires a < 8 && b < 8 && d < 8
    ensures var r := a * 256 + b * 16 + d; Field(r, 1, 8) == d && Field(r, 16, 8) == b && Field(r, 256, 8) == a
  {
    var r := a * 256 + b * 16 + d;
    assert r / 16 == a * 16 + b;
  }

  /** A FIFO element named by an index inside the FIFO is addressed exactly. */
  lemma FifoAccess(r: Mcan, c: Config, fifo1: bool, index: nat)
    requires r.Configured(c) && index < Count(c, if fifo1 then Rx1 else Rx0)
    ensures var s := if fifo1 then Rx1 else Rx0;
            var size := DataBytes(if fifo1 then Field(r.rxesc, 16, 8) else Field(r.rxesc, 1, 8));
            && size + 8 == ElementSize(c, s)
            && Address(if fifo1 then r.rxf1c else r.rxf0c, size + 8, index) == 0x8000 + ElementAt(c, s, index)
  {
    hide Field, Start, SectionBytes, DataBytes, Address;
    var s := if fifo1 then Rx1 else Rx0;
    SizeCodes(c.rxBufSize, c.rx1Size, c.rx0Size);
    StartBelow(c, s);
    SectionStart(c);
    Packed(Count(c, s), Start(c, s), 0);
    Packed(Count(c, s), Start(c, s), 1);
    AddressIs(c, s, if fifo1 then r.rxf1c else r.rxf0c, index);
  }

  lemma RxBufferAccess(r: Mcan, c: Config, index: nat)
    requires r.Configured(c) && index < Count(c, RxBuf)
    ensures var size := DataBytes(Field(r.rxesc, 256, 8));
            && size + 8 == ElementSize(c, RxBuf) && AtMost(index, 64) == index
            && Address(r.rxbc, size + 8, index) == 0x8000 + ElementAt(c, RxBuf, index)
  {
    hide Field, Start, SectionBytes, DataBytes, Address;
    SizeCodes(c.rxBufSize, c.rx1Size, c.rx0Size);
    StartBelow(c, RxBuf);
    Packed(0, Start(c, RxBuf), 0);
    AddressIs(c, RxBuf, r.rxbc, index);
  }

  /** A transmit buffer is accepted exactly when it exists, and then addressed exactly. */
  lemma TxAccess(r: Mcan, c: Config, index: nat)
    requires r.Configured(c)
    ensures AtMost(Field(r.txbc, FIELD24, 64), 32) + AtMost(Field(r.txbc, FIELD8, 64), 32) == Count(c, Tx)
    ensures DataBytes(Field(r.txesc, 1, 8)) + 8 == ElementSize(c, Tx)
    ensures index < Count(c, Tx) ==> Address(r.txbc, ElementSize(c, Tx), index) == 0x8000 + ElementAt(c, Tx, index)
  {
    hide Field, Start, SectionBytes, DataBytes, Address;
    SizeCodes(0, 0, c.txSize);
    StartBelow(c, Tx);
    PackedTx(Count(c, Tx), Start(c, Tx));
    Packed(0, 0, 0);
    FieldZero();
    if index < Count(c, Tx) {
      AddressIs(c, Tx, r.txbc, index);
    }
  }

  lemma FieldZero()
    ensures Field(0, FIELD24, 64) == 0 && Field(0, FIELD8, 64) == 0 && Field(0, 1, 0x1_0000) == 0
  {
  }
}
