/** The store spelled out: the bytes of marks and records, and the calls that are refused. */
module Layout {
  import opened Bytes
  import opened NorFlash
  import opened Records
  import opened Store
  import opened StoreSteps
  import opened Copies
  import opened StoreLaws
  import opened Steady
  import opened Limits

  /** The four bytes of the mark. */
  predicate HasMark(m: seq<byte>, lo: nat)
    requires lo + 4 <= |m|
  {
    m[lo] == 0x00 && m[lo + 1] == 0x00 && m[lo + 2] == 0xA5 && m[lo + 3] == 0x5A
  }

  lemma MarkBytes(m: seq<byte>, lo: nat)
    requires lo + 4 <= |m|
    ensures Marked(m, lo) <==> HasMark(m, lo)
  {
    var a := m[lo..lo + MARK_LEN];
    assert a[0] == m[lo] && a[1] == m[lo + 1] && a[2] == m[lo + 2] && a[3] == m[lo + 3];
    if HasMark(m, lo) {
      assert a == MARK;
    }
  }

  /** Page 1 is active exactly with the mark on it, and page 2 exactly with the mark on it and none on page 1. */
  lemma ActiveExactly(g: Geometry, m: seq<byte>)
    requires IsFlash(g, m)
    ensures Active(g, m) == Some(0) <==> HasMark(m, 0)
    ensures Active(g, m) == Some(g.pageLen) <==> HasMark(m, g.pageLen) && !HasMark(m, 0)
    ensures Active(g, m) == None <==> !HasMark(m, 0) && !HasMark(m, g.pageLen)
  {
    hide Marked;
    MarkBytes(m, 0);
    MarkBytes(m, g.pageLen);
  }

  /** The seven bytes of a header: id, its complement and the length, low bytes first, then the CRC of the payload. */
  function HeaderImage(g: Geometry, id: nat, data: seq<byte>): seq<byte>
    requires id <= 0xFFFF && |data| <= 0xFFFF
  {
    [id % 256, id / 256, 255 - id % 256, 255 - id / 256, |data| % 256, |data| / 256, g.crc(data)]
  }

  lemma HeaderBytes(g: Geometry, id: nat, data: seq<byte>)
    requires id <= 0xFFFF && |data| <= 0xFFFF
    ensures Header(g, id, data) == HeaderImage(g, id, data)
  {
  }

  /** At `o` the flash holds the image of a record with this id and payload. */
  predicate Image(g: Geometry, m: seq<byte>, o: nat, id: nat, data: seq<byte>) {
    && id <= 0xFFFF && |data| <= 0xFFFF && o + 7 + |data| <= |m|
    && m[o..o + 7 + |data|] == HeaderImage(g, id, data) + data
  }

  /**
   What passes the record test: exactly the image of a record that starts more than eight bytes before the end of the
   page and whose payload is shorter than what is left from its start.
   */
  lemma RecordExactly(g: Geometry, m: seq<byte>, o: nat, hi: nat)
    requires hi + SPILL <= |m|
    ensures IsRecord(g.crc, m, o, hi) <==>
            exists id: nat, data: seq<byte> :: Image(g, m, o, id, data) && o + 8 < hi && o + |data| < hi
  {
    if IsRecord(g.crc, m, o, hi) {
      var e := EntryAt(m, o);
      RecordImage(g, m, e, hi);
      HeaderBytes(g, e.id, e.data);
      assert Image(g, m, o, e.id, e.data);
    }
    if id: nat, data: seq<byte> :| Image(g, m, o, id, data) && o + 8 < hi && o + |data| < hi {
      HeaderBytes(g, id, data);
      EncodedStored(g, m, Entry(o, id, data), hi);
    }
  }

  /** The record that is read from such an image. */
  lemma RecordRead(g: Geometry, m: seq<byte>, o: nat, hi: nat, id: nat, data: seq<byte>)
    requires hi + SPILL <= |m| && Image(g, m, o, id, data) && o + 8 < hi && o + |data| < hi
    ensures IsRecord(g.crc, m, o, hi) && EntryAt(m, o) == Entry(o, id, data) && EntryAt(m, o).End() == o + 7 + |data|
  {
    HeaderBytes(g, id, data);
    EncodedStored(g, m, Entry(o, id, data), hi);
  }

  /** Storing is refused, and nothing is touched, for the invalid id, an empty value, or without an active page. */
  lemma SetRefuses(g: Geometry, m: seq<byte>, id: nat, data: seq<byte>, k: nat)
    requires IsFlash(g, m) && (id == 0xFFFF || data == [] || Active(g, m) == None)
    ensures Perform(g, m, SetPlan(g, m, id, data), k) == Outcome(m, k, false)
  {
    CutNone(m, k, Chip(g));
  }

  /** It is refused, and nothing but repairs is done, where fewer bytes are left than a new value has. */
  lemma SetFull(g: Geometry, m: seq<byte>, lo: nat, id: nat, data: seq<byte>, k: nat)
    requires IsFlash(g, m) && Active(g, m) == Some(lo) && id != 0xFFFF
    requires Empty(g, m, lo) <= lo + g.pageLen < Empty(g, m, lo) + |data|
    requires id in View(g, m) ==> View(g, m)[id] != data
    ensures Perform(g, m, SetPlan(g, m, id, data), k) ==
            Perform(g, m, GetPlan(g, m, id), k).(res := false)
  {
    hide PageScan, Empty, MapOf, Last, RepairOps, Cut, Done, Spent;
    LogEnd(g, m, lo);
    LastIsMap(PageScan(g, m, lo), id);
  }

  /** Invalidating an id that is not stored changes nothing and fails. */
  lemma InvalidateNothing(g: Geometry, m: seq<byte>, id: nat, k: nat)
    requires IsFlash(g, m) && id !in View(g, m)
    ensures Perform(g, m, InvalidatePlan(g, m, id), k) == Outcome(m, k, false)
    ensures Perform(g, m, GetPlan(g, m, id), k) == Outcome(m, k, false)
  {
    hide PageScan, MapOf;
    CutNone(m, k, Chip(g));
    if Active(g, m).Some? {
      var lo := Active(g, m).value;
      LastIsMap(PageScan(g, m, lo), id);
      NoRepair(g, m, lo, id);
    }
  }

  /**
   The reboot counter to store next: zero without a stored one or with one of more than two bytes, and otherwise one
   more than it, low byte first, in 16 bits.
   */
  lemma NextCounterIs(g: Geometry, m: seq<byte>)
    requires IsFlash(g, m)
    ensures var v := View(g, m);
            && (1 !in v || |v[1]| > 2 ==> NextCounter(g, m) == 0)
            && (1 in v && |v[1]| == 1 ==> NextCounter(g, m) == v[1][0] as nat + 1)
            && (1 in v && |v[1]| == 2 ==>
                  NextCounter(g, m) == if v[1] == [0xFF, 0xFF] then 0 else v[1][0] as nat + 256 * v[1][1] as nat + 1)
    ensures forall n: nat :: n <= 0xFFFF ==> Counter(n) == [n % 256, n / 256]
  {
    hide View;
    var v := View(g, m);
    if 1 in v && 1 <= |v[1]| <= 2 {
      Digits(v[1]);
    }
  }

  lemma Digits(d: seq<byte>)
    requires 1 <= |d| <= 2
    ensures LittleEndian(d) == d[0] as nat + if |d| == 2 then 256 * (d[1] as nat) else 0
  {
    if |d| == 2 {
      assert d[1..][1..] == [];
    }
  }
}
