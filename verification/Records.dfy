/**
 The byte-by-byte scan of a page. `Scan` is the recursive reading of what the loops over `mm_get_next`
 visit; `MapOf` is the finite map a reader of the last copy of every id sees.
 */
module Records {
  import opened Bytes

  const HEADER_LEN := 7
  const MIN_FILE_LEN := 8
  const MARK_LEN := 4
  const INVALID_ID := 0xFFFF
  /** A payload claimed near the end of a page may be read this far past it. */
  const SPILL := 6

  type Crc = seq<byte> -> byte

  /** A stored record: where its header starts, its id and its payload. */
  datatype Entry = Entry(at: nat, id: nat, data: seq<byte>) {
    function End(): nat { at + HEADER_LEN + |data| }
  }

  /** The header at `o` is one that the scan stops to check: id and inverted id agree and the length fits. */
  predicate Claims(m: seq<byte>, o: nat, hi: nat)
    requires hi + SPILL <= |m|
  {
    o + MIN_FILE_LEN < hi && U16(m, o) + U16(m, o + 2) == 0xFFFF && U16(m, o + 4) < hi - o
  }

  function EntryAt(m: seq<byte>, o: nat): Entry
    requires o + HEADER_LEN <= |m| && o + HEADER_LEN + U16(m, o + 4) <= |m|
  {
    Entry(o, U16(m, o), m[o + HEADER_LEN..o + HEADER_LEN + U16(m, o + 4)])
  }

  /** `o` passes the id, length and CRC test. */
  predicate IsRecord(crc: Crc, m: seq<byte>, o: nat, hi: nat)
    requires hi + SPILL <= |m|
  {
    Claims(m, o, hi) && crc(EntryAt(m, o).data) == m[o + 6]
  }

  /** No offset of [a, b) passes the test. */
  predicate NoRecord(crc: Crc, m: seq<byte>, a: nat, b: nat, hi: nat)
    requires hi + SPILL <= |m|
  {
    forall x :: a <= x < b ==> !IsRecord(crc, m, x, hi)
  }

  /** The bytes at `e.at` are the header fields and payload of `e`. */
  predicate Holds(m: seq<byte>, e: Entry) {
    e.End() <= |m| && U16(m, e.at) == e.id && U16(m, e.at + 4) == |e.data| && m[e.at + HEADER_LEN..e.End()] == e.data
  }

  /** `m` and `n` agree on [a, b). */
  predicate Same(m: seq<byte>, n: seq<byte>, a: nat, b: nat) {
    |m| == |n| && forall x :: a <= x < b && x < |m| ==> n[x] == m[x]
  }

  lemma HoldsFrame(m: seq<byte>, n: seq<byte>, e: Entry)
    requires Holds(m, e) && Same(m, n, e.at, e.End())
    ensures Holds(n, e)
    ensures n[e.at + 2] == m[e.at + 2] && n[e.at + 3] == m[e.at + 3]
  {
    assert n[e.at + HEADER_LEN..e.End()] == m[e.at + HEADER_LEN..e.End()];
  }

  function Scan(crc: Crc, m: seq<byte>, o: nat, hi: nat): (s: seq<Entry>)
    requires hi + SPILL <= |m|
    ensures forall i :: 0 <= i < |s| ==> o <= s[i].at
    decreases hi - o
  {
    if o + MIN_FILE_LEN >= hi then []
    else if IsRecord(crc, m, o, hi) then [EntryAt(m, o)] + Scan(crc, m, EntryAt(m, o).End(), hi)
    else Scan(crc, m, o + 1, hi)
  }

  /** The last entry wins. */
  function MapOf(s: seq<Entry>): map<nat, seq<byte>> {
    if s == [] then map[] else MapOf(s[..|s| - 1])[s[|s| - 1].id := s[|s| - 1].data]
  }

  /** Where the scan stands after its first `i` records. */
  function Bound(s: seq<Entry>, o: nat, i: nat): nat
    requires i <= |s|
  {
    if i == 0 then o else s[i - 1].End()
  }

  lemma BoundFirst(s: seq<Entry>, o: nat)
    ensures Bound(s, o, 0) == o
  {
  }

  function Limit(s: seq<Entry>, hi: nat, i: nat): nat
    requires i <= |s|
  {
    if i < |s| then s[i].at else hi
  }

  /** No entry starts before the end of the one before it. */
  ghost predicate InOrder(s: seq<Entry>, o: nat) {
    forall i {:trigger Bound(s, o, i)} :: 0 <= i < |s| ==> Bound(s, o, i) <= s[i].at
  }

  /** `e` is a record of `m`. */
  predicate Stored(crc: Crc, m: seq<byte>, e: Entry, hi: nat)
    requires hi + SPILL <= |m|
  {
    IsRecord(crc, m, e.at, hi) && EntryAt(m, e.at) == e
  }

  lemma StoredFrame(crc: Crc, m: seq<byte>, n: seq<byte>, e: Entry, hi: nat)
    requires hi + SPILL <= |m| && Stored(crc, m, e, hi) && Same(m, n, e.at, e.End())
    ensures Stored(crc, n, e, hi)
  {
    RecordFrame(crc, m, n, e.at, hi);
  }

  /** The entries of `s` are records of `m`, in order and not overlapping. */
  ghost predicate Live(crc: Crc, m: seq<byte>, o: nat, s: seq<Entry>, hi: nat)
    requires hi + SPILL <= |m|
  {
    && InOrder(s, o)
    && forall i :: 0 <= i < |s| ==> Stored(crc, m, s[i], hi)
  }

  /** No dead offset, that is none outside the entries of `s`, passes the record test. */
  ghost predicate Quiet(crc: Crc, m: seq<byte>, o: nat, s: seq<Entry>, hi: nat)
    requires hi + SPILL <= |m|
  {
    forall i, x :: 0 <= i <= |s| && Bound(s, o, i) <= x < Limit(s, hi, i) ==> !IsRecord(crc, m, x, hi)
  }

  lemma {:induction false} SkipTo(crc: Crc, m: seq<byte>, o: nat, p: nat, hi: nat)
    requires hi + SPILL <= |m|
    requires o <= p && NoRecord(crc, m, o, p, hi)
    ensures Scan(crc, m, o, hi) == Scan(crc, m, p, hi)
    decreases p - o
  {
    if o < p {
      SkipTo(crc, m, o + 1, p, hi);
    }
  }

  lemma Shift(s: seq<Entry>, o: nat, hi: nat, i: nat)
    requires 0 < i <= |s|
    ensures Bound(s, o, i) == Bound(s[1..], s[0].End(), i - 1)
    ensures Limit(s, hi, i) == Limit(s[1..], hi, i - 1)
  {
  }

  lemma LiveCons(crc: Crc, m: seq<byte>, o: nat, e: Entry, t: seq<Entry>, hi: nat)
    requires hi + SPILL <= |m|
    requires o <= e.at && IsRecord(crc, m, e.at, hi) && EntryAt(m, e.at) == e
    requires NoRecord(crc, m, o, e.at, hi)
    requires Live(crc, m, e.End(), t, hi) && Quiet(crc, m, e.End(), t, hi)
    ensures Live(crc, m, o, [e] + t, hi) && Quiet(crc, m, o, [e] + t, hi)
  {
    var s := [e] + t;
    assert s[1..] == t;
    forall i | 0 <= i < |s| ensures Bound(s, o, i) <= s[i].at {
      if i > 0 {
        Shift(s, o, hi, i);
      }
    }
    forall i, x | 0 <= i <= |s| && Bound(s, o, i) <= x < Limit(s, hi, i)
      ensures !IsRecord(crc, m, x, hi)
    {
      if i > 0 {
        Shift(s, o, hi, i);
        assert Bound(t, e.End(), i - 1) <= x < Limit(t, hi, i - 1);
      }
    }
  }

  lemma NoRecordNear(crc: Crc, m: seq<byte>, o: nat, b: nat, hi: nat)
    requires hi + SPILL <= |m| && b <= hi
    ensures o + MIN_FILE_LEN >= hi || b <= o ==> NoRecord(crc, m, o, b, hi)
    ensures !IsRecord(crc, m, o, hi) && NoRecord(crc, m, o + 1, b, hi) ==> NoRecord(crc, m, o, b, hi)
  {
  }

  /** The first reported record is the first offset that passes the test, and the scan goes on after it. */
  lemma {:induction false} ScanStep(crc: Crc, m: seq<byte>, o: nat, hi: nat)
    requires hi + SPILL <= |m|
    ensures var s := Scan(crc, m, o, hi);
      if s == [] then NoRecord(crc, m, o, hi, hi)
      else
        && o <= s[0].at && IsRecord(crc, m, s[0].at, hi) && EntryAt(m, s[0].at) == s[0]
        && NoRecord(crc, m, o, s[0].at, hi)
        && Scan(crc, m, s[0].End(), hi) == s[1..]
    decreases hi - o
  {
    hide NoRecord;
    var s := Scan(crc, m, o, hi);
    if o + MIN_FILE_LEN < hi && !IsRecord(crc, m, o, hi) {
      ScanStep(crc, m, o + 1, hi);
    }
    NoRecordNear(crc, m, o, if s == [] then hi else Min(s[0].at, hi), hi);
  }

  lemma NothingLive(crc: Crc, m: seq<byte>, o: nat, hi: nat)
    requires hi + SPILL <= |m| && NoRecord(crc, m, o, hi, hi)
    ensures Live(crc, m, o, [], hi) && Quiet(crc, m, o, [], hi)
  {
    hide IsRecord;
  }

  lemma {:induction false} ScanIsLive(crc: Crc, m: seq<byte>, o: nat, hi: nat)
    requires hi + SPILL <= |m|
    ensures Live(crc, m, o, Scan(crc, m, o, hi), hi) && Quiet(crc, m, o, Scan(crc, m, o, hi), hi)
    decreases |Scan(crc, m, o, hi)|
  {
    hide Scan, Live, Quiet, NoRecord;
    var s := Scan(crc, m, o, hi);
    ScanStep(crc, m, o, hi);
    if s == [] {
      NothingLive(crc, m, o, hi);
    } else {
      ScanIsLive(crc, m, s[0].End(), hi);
      LiveCons(crc, m, o, s[0], s[1..], hi);
      assert s == [s[0]] + s[1..];
    }
  }

  lemma QuietTail(crc: Crc, m: seq<byte>, o: nat, s: seq<Entry>, hi: nat)
    requires hi + SPILL <= |m|
    requires s != [] && Live(crc, m, o, s, hi) && Quiet(crc, m, o, s, hi)
    ensures Live(crc, m, s[0].End(), s[1..], hi) && Quiet(crc, m, s[0].End(), s[1..], hi)
  {
    hide IsRecord, Stored;
    var t := s[1..];
    var e := s[0].End();
    forall i | 0 <= i < |t| ensures Bound(t, e, i) <= t[i].at {
      Shift(s, o, hi, i + 1);
    }
    forall i, x | 0 <= i <= |t| && Bound(t, e, i) <= x < Limit(t, hi, i)
      ensures !IsRecord(crc, m, x, hi)
    {
      Shift(s, o, hi, i + 1);
      assert Bound(s, o, i + 1) <= x < Limit(s, hi, i + 1);
    }
  }

  lemma {:induction false} FirstOfScan(crc: Crc, m: seq<byte>, o: nat, hi: nat)
    requires hi + SPILL <= |m|
    ensures var s := Scan(crc, m, o, hi);
            s != [] ==> o <= s[0].at && s[0].at + MIN_FILE_LEN < hi && s[0].End() <= |m|
    decreases hi - o
  {
    if o + MIN_FILE_LEN < hi && !IsRecord(crc, m, o, hi) {
      FirstOfScan(crc, m, o + 1, hi);
    }
  }

  /** Records in order with nothing but dead offsets between them are exactly what the scan reports. */
  lemma {:induction false} ScanUnique(crc: Crc, m: seq<byte>, o: nat, s: seq<Entry>, hi: nat)
    requires hi + SPILL <= |m|
    requires Live(crc, m, o, s, hi) && Quiet(crc, m, o, s, hi)
    ensures Scan(crc, m, o, hi) == s
    decreases |s|
  {
    if s == [] {
      assert Bound(s, o, 0) == o;
      if o < hi {
        forall x | o <= x < hi ensures !IsRecord(crc, m, x, hi) {
          assert Bound(s, o, 0) <= x < Limit(s, hi, 0);
        }
        SkipTo(crc, m, o, hi, hi);
      }
    } else {
      assert Bound(s, o, 0) == o <= s[0].at;
      forall x | o <= x < s[0].at ensures !IsRecord(crc, m, x, hi) {
        assert Bound(s, o, 0) <= x < Limit(s, hi, 0);
      }
      SkipTo(crc, m, o, s[0].at, hi);
      QuietTail(crc, m, o, s, hi);
      ScanUnique(crc, m, s[0].End(), s[1..], hi);
    }
  }

  /** The scan reports the live entries `s` and nothing else exactly when every dead offset fails the test. */
  lemma ScanExact(crc: Crc, m: seq<byte>, o: nat, s: seq<Entry>, hi: nat)
    requires hi + SPILL <= |m|
    requires Live(crc, m, o, s, hi)
    ensures Scan(crc, m, o, hi) == s <==> Quiet(crc, m, o, s, hi)
  {
    ScanIsLive(crc, m, o, hi);
    if Quiet(crc, m, o, s, hi) {
      ScanUnique(crc, m, o, s, hi);
    }
  }

  /** Every offset the scan visits that claims a record keeps the claimed payload below `hi`. */
  predicate Contained(crc: Crc, m: seq<byte>, o: nat, hi: nat)
    requires hi + SPILL <= |m|
    decreases hi - o
  {
    o + MIN_FILE_LEN >= hi ||
    if Claims(m, o, hi)
    then EntryAt(m, o).End() <= hi &&
         Contained(crc, m, if IsRecord(crc, m, o, hi) then EntryAt(m, o).End() else o + 1, hi)
    else Contained(crc, m, o + 1, hi)
  }

  /** The record test at `o` reads only the bytes up to the end of the claimed payload. */
  lemma RecordFrame(crc: Crc, m: seq<byte>, n: seq<byte>, o: nat, hi: nat)
    requires hi + SPILL <= |m| && hi + SPILL <= |n|
    requires forall x :: o <= x < o + HEADER_LEN && x < hi ==> m[x] == n[x]
    ensures Claims(m, o, hi) == Claims(n, o, hi)
    ensures Claims(m, o, hi) && (forall x :: o <= x < EntryAt(m, o).End() ==> m[x] == n[x]) ==>
              EntryAt(m, o) == EntryAt(n, o) && IsRecord(crc, m, o, hi) == IsRecord(crc, n, o, hi)
  {
    if Claims(m, o, hi) && (forall x :: o <= x < EntryAt(m, o).End() ==> m[x] == n[x]) {
      assert EntryAt(m, o).data == EntryAt(n, o).data;
    }
  }

  /** A contained scan depends on nothing outside its own bytes. */
  lemma {:induction false} ScanFrame(crc: Crc, m: seq<byte>, n: seq<byte>, o: nat, hi: nat)
    requires hi + SPILL <= |m| && hi + SPILL <= |n|
    requires forall x :: o <= x < hi ==> m[x] == n[x]
    requires Contained(crc, m, o, hi)
    ensures Contained(crc, n, o, hi) && Scan(crc, n, o, hi) == Scan(crc, m, o, hi)
    decreases hi - o
  {
    if o + MIN_FILE_LEN < hi {
      RecordFrame(crc, m, n, o, hi);
      ScanFrame(crc, m, n, if IsRecord(crc, m, o, hi) then EntryAt(m, o).End() else o + 1, hi);
    }
  }

  /** Offsets that claim nothing, and records that end inside, make a contained scan. */
  lemma {:induction false} ContainedSkip(crc: Crc, m: seq<byte>, o: nat, p: nat, hi: nat)
    requires hi + SPILL <= |m|
    requires o <= p && forall x :: o <= x < p ==> !Claims(m, x, hi)
    requires Contained(crc, m, p, hi)
    ensures Contained(crc, m, o, hi)
    decreases p - o
  {
    if o < p {
      ContainedSkip(crc, m, o + 1, p, hi);
    }
  }

  /** Every record of a contained scan ends inside the page. */
  lemma {:induction false} ContainedEnds(crc: Crc, m: seq<byte>, o: nat, hi: nat)
    requires hi + SPILL <= |m|
    requires Contained(crc, m, o, hi)
    ensures forall e :: e in Scan(crc, m, o, hi) ==> e.End() <= hi
    decreases hi - o
  {
    if o + MIN_FILE_LEN < hi {
      ContainedEnds(crc, m, if IsRecord(crc, m, o, hi) then EntryAt(m, o).End() else o + 1, hi);
    }
  }

  /** The scan from `o` depends only on the bytes from `o` on. */
  lemma {:induction false} ScanTail(crc: Crc, m: seq<byte>, n: seq<byte>, o: nat, hi: nat)
    requires hi + SPILL <= |m| && Same(m, n, o, |m|)
    ensures Scan(crc, n, o, hi) == Scan(crc, m, o, hi)
    decreases hi - o
  {
    if o + MIN_FILE_LEN < hi {
      RecordFrame(crc, m, n, o, hi);
      ScanTail(crc, m, n, if IsRecord(crc, m, o, hi) then EntryAt(m, o).End() else o + 1, hi);
    }
  }

  lemma ScanHere(crc: Crc, m: seq<byte>, o: nat, hi: nat)
    requires hi + SPILL <= |m|
    ensures IsRecord(crc, m, o, hi) ==>
      Scan(crc, m, o, hi) == [EntryAt(m, o)] + Scan(crc, m, EntryAt(m, o).End(), hi)
    ensures o + MIN_FILE_LEN >= hi ==> Scan(crc, m, o, hi) == []
  {
  }

  /** The scan that starts after the first `j` records reports the rest. */
  lemma {:induction false} ScanFrom(crc: Crc, m: seq<byte>, o: nat, hi: nat, j: nat)
    requires hi + SPILL <= |m|
    requires j <= |Scan(crc, m, o, hi)|
    ensures Scan(crc, m, Bound(Scan(crc, m, o, hi), o, j), hi) == Scan(crc, m, o, hi)[j..]
    decreases j
  {
    hide Scan;
    if j > 0 {
      var s := Scan(crc, m, o, hi);
      ScanStep(crc, m, o, hi);
      Shift(s, o, hi, j);
      ScanFrom(crc, m, s[0].End(), hi, j - 1);
      assert s[1..][j - 1..] == s[j..];
    }
  }

  lemma {:induction false} ContainedStep(crc: Crc, m: seq<byte>, o: nat, hi: nat)
    requires hi + SPILL <= |m|
    requires Contained(crc, m, o, hi) && Scan(crc, m, o, hi) != []
    ensures Contained(crc, m, Scan(crc, m, o, hi)[0].End(), hi)
    decreases hi - o
  {
    if !IsRecord(crc, m, o, hi) {
      ContainedStep(crc, m, o + 1, hi);
    }
  }

  lemma {:induction false} Ordered(s: seq<Entry>, o: nat, i: nat, j: nat)
    requires InOrder(s, o)
    requires i < j < |s|
    ensures s[i].End() <= s[j].at
    decreases j
  {
    if i < j - 1 {
      Ordered(s, o, i, j - 1);
    }
    assert Bound(s, o, j) <= s[j].at;
  }

  /** The last entry with this id, if any. */
  function Last(s: seq<Entry>, id: nat): (r: Option<Entry>)
    ensures r.Some? ==> r.value in s && r.value.id == id
  {
    if s == [] then None
    else if s[|s| - 1].id == id then Some(s[|s| - 1])
    else Last(s[..|s| - 1], id)
  }

  /** Looking up the last copy is looking up the map. */
  lemma {:induction false} LastIsMap(s: seq<Entry>, id: nat)
    ensures Last(s, id).Some? <==> id in MapOf(s)
    ensures Last(s, id).Some? ==> MapOf(s)[id] == Last(s, id).value.data
  {
    if s != [] {
      LastIsMap(s[..|s| - 1], id);
    }
  }

  lemma {:induction false} ContainedFrom(crc: Crc, m: seq<byte>, o: nat, hi: nat, j: nat)
    requires hi + SPILL <= |m|
    requires Contained(crc, m, o, hi) && j <= |Scan(crc, m, o, hi)|
    ensures Contained(crc, m, Bound(Scan(crc, m, o, hi), o, j), hi)
    decreases j
  {
    hide Scan, Contained;
    if j > 0 {
      var s := Scan(crc, m, o, hi);
      ScanStep(crc, m, o, hi);
      ContainedStep(crc, m, o, hi);
      Shift(s, o, hi, j);
      ContainedFrom(crc, m, s[0].End(), hi, j - 1);
    }
  }
}
