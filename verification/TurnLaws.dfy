/** Page turn: the copy is the same log, packed, and no power cut during the turn loses or changes the map. */
module TurnLaws {
  import opened Bytes
  import opened NorFlash
  import opened Records
  import opened Store
  import opened StoreSteps
  import opened Copies
  import opened StoreLaws

  predicate Blank(m: seq<byte>, a: nat, b: nat) {
    b <= |m| && forall x :: a <= x < b ==> m[x] == ERASED
  }

  /** The same records, packed from `o` on. */
  function Moved(s: seq<Entry>, o: nat): (r: seq<Entry>)
    ensures |r| == |s|
    ensures forall i :: 0 <= i < |s| ==> r[i].id == s[i].id && r[i].data == s[i].data
  {
    if s == [] then []
    else
      var l := s[|s| - 1];
      Moved(s[..|s| - 1], o) + [Entry(o + Size(s[..|s| - 1]), l.id, l.data)]
  }

  lemma {:induction false} MovedAt(s: seq<Entry>, o: nat, i: nat)
    requires i < |s|
    ensures Moved(s, o)[i].at == o + Size(s[..i])
    ensures Moved(s, o)[..i] == Moved(s[..i], o)
  {
    if i < |s| - 1 {
      MovedAt(s[..|s| - 1], o, i);
      assert s[..|s| - 1][..i] == s[..i];
      assert Moved(s, o)[..i] == Moved(s[..|s| - 1], o)[..i];
    } else {
      assert Moved(s, o)[..i] == Moved(s[..i], o);
    }
  }

  lemma {:induction false} MovedMap(s: seq<Entry>, o: nat)
    ensures MapOf(Moved(s, o)) == MapOf(s)
  {
    if s != [] {
      var t := Moved(s[..|s| - 1], o);
      MovedMap(s[..|s| - 1], o);
      assert Moved(s, o)[..|t|] == t;
    }
  }

  /** Packed records leave no gap. */
  lemma MovedBound(s: seq<Entry>, o: nat, i: nat)
    requires i <= |s|
    ensures Bound(Moved(s, o), o, i) == o + Size(s[..i])
    ensures i < |s| ==> Moved(s, o)[i].at == o + Size(s[..i])
  {
    if i < |s| {
      MovedAt(s, o, i);
    }
    if i > 0 {
      MovedAt(s, o, i - 1);
      assert s[..i][..i - 1] == s[..i - 1];
    }
  }

  lemma MovedOrder(s: seq<Entry>, o: nat)
    ensures InOrder(Moved(s, o), o)
  {
    forall i | 0 <= i < |s| ensures Bound(Moved(s, o), o, i) <= Moved(s, o)[i].at {
      MovedBound(s, o, i);
    }
  }

  /** Packed into the other page, a record sits no further from its page start than before. */
  lemma MovedInside(g: Geometry, m: seq<byte>, lo: nat, np: nat, i: nat)
    requires IsFlash(g, m) && lo <= g.pageLen && Fits(g, m, lo)
    requires i < |PageScan(g, m, lo)|
    ensures var e := PageScan(g, m, lo)[i];
            var d := Moved(PageScan(g, m, lo), First(np))[i];
            && d.at - np <= e.at - lo
            && d.at + MIN_FILE_LEN < np + g.pageLen && |d.data| < np + g.pageLen - d.at && d.End() <= np + g.pageLen
            && d.id <= 0xFFFF && |d.data| <= 0xFFFF && Encode(g, d) == Encode(g, e)
  {
    hide Scan, PageScan, Moved, Encode, Fits;
    var s := PageScan(g, m, lo);
    PageLive(g, m, lo);
    PageEnds(g, m, lo);
    SizeBound(s, First(lo), i);
    MovedBound(s, First(np), i);
    assert s[i] in s && Bound(s, First(lo), i) <= s[i].at;
    EncodeSame(g, s[i], Moved(s, First(np))[i]);
  }

  lemma EncodeSame(g: Geometry, a: Entry, b: Entry)
    requires a.id == b.id && a.data == b.data
    ensures Encode(g, a) == Encode(g, b)
  {
  }

  /** The bytes at `e.at` are the encoding of `e`. */
  predicate Coded(g: Geometry, n: seq<byte>, e: Entry) {
    e.End() <= |n| && n[e.at..e.End()] == Encode(g, e)
  }

  lemma CodedFrame(g: Geometry, m: seq<byte>, n: seq<byte>, e: Entry)
    requires Coded(g, m, e) && Same(m, n, e.at, e.End())
    ensures Coded(g, n, e)
  {
    assert n[e.at..e.End()] == m[e.at..e.End()];
  }

  /** The first `i` packed records are in place, and the rest of the page is erased, mark included. */
  ghost predicate Filled(g: Geometry, n: seq<byte>, s: seq<Entry>, np: nat, i: nat)
    requires i <= |s|
  {
    && Blank(n, np, First(np))
    && Blank(n, First(np) + Size(s[..i]), np + g.pageLen)
    && var top := First(np) + Size(s[..i]); forall j :: 0 <= j < i ==> FilledAt(g, n, s, np, top, j)
  }

  ghost predicate FilledAt(g: Geometry, n: seq<byte>, s: seq<Entry>, np: nat, top: nat, j: nat)
    requires j < |s|
  {
    var d := Moved(s, First(np))[j];
    First(np) <= d.at && d.End() <= top && Coded(g, n, d)
  }

  /** Writing above `top` leaves what is in place below it. */
  lemma FilledAtFrame(g: Geometry, n: seq<byte>, r: seq<byte>, s: seq<Entry>, np: nat, top: nat, j: nat, up: nat)
    requires j < |s| && FilledAt(g, n, s, np, top, j) && Same(n, r, 0, top) && top <= up
    ensures FilledAt(g, r, s, np, up, j)
  {
    hide Coded, Moved;
    CodedFrame(g, n, r, Moved(s, First(np))[j]);
  }

  lemma {:induction false} FillBytes(g: Geometry, m: seq<byte>, lo: nat, i: nat, k: nat)
    requires IsFlash(g, m) && Active(g, m) == Some(lo) && Fits(g, m, lo)
    requires i <= |PageScan(g, m, lo)|
    requires Done(m, FillOps(g, PageScan(g, m, lo)[..i], Passive(g, lo)), k, Chip(g))
    ensures Filled(g, Cut(m, FillOps(g, PageScan(g, m, lo)[..i], Passive(g, lo)), k, Chip(g)),
                   PageScan(g, m, lo), Passive(g, lo), i)
  {
    hide Cut, Done, FillOps, PageScan, Encode, Moved, Fits, Coded, Size, Active, Filled, Total, Apply, Takes, Accepts, Spent;
    var s := PageScan(g, m, lo);
    var np := Passive(g, lo);
    if i == 0 {
      FillNone(g, s, np);
      CutOne(m, Erase(np, g.pageLen), k, Chip(g));
      FilledNone(g, Apply(m, Erase(np, g.pageLen), k), s, np);
    } else {
      FillStep(g, s, np, i - 1);
      var ops := FillOps(g, s[..i - 1], np);
      CutSnoc(m, ops, Write(First(np) + Size(s[..i - 1]), Encode(g, s[i - 1])), k, Chip(g));
      FillBytes(g, m, lo, i - 1, k);
      MovedInside(g, m, lo, np, i - 1);
      MovedBound(s, First(np), i - 1);
      FillOne(g, Cut(m, ops, k, Chip(g)), s, np, i - 1, k - Total(ops));
    }
  }

  lemma BlankProgrammable(m: seq<byte>, a: nat, data: seq<byte>)
    requires a + |data| <= |m| && Blank(m, a, a + |data|)
    ensures Programmable(m, a, data)
  {
    forall x | a <= x < a + |data| ensures And(m[x], data[x - a]) == data[x - a] {
      AndByte(data[x - a]);
    }
  }

  /** The next copy goes to erased flash inside the page. */
  lemma FillTakes(g: Geometry, n: seq<byte>, s: seq<Entry>, np: nat, i: nat)
    requires IsFlash(g, n) && (np == 0 || np == g.pageLen) && i < |s| && Filled(g, n, s, np, i)
    requires First(np) + Size(s[..i]) + HEADER_LEN + |s[i].data| <= np + g.pageLen
    ensures var op := Write(First(np) + Size(s[..i]), Encode(g, s[i]));
            Accepts(op, Chip(g)) && Takes(n, op, Chip(g))
  {
    hide Programmable, Encode, Moved, Size, FilledAt;
    BlankProgrammable(n, First(np) + Size(s[..i]), Encode(g, s[i]));
  }

  /** No check of the driver stops the copy loop. */
  lemma {:induction false} FillGoes(g: Geometry, m: seq<byte>, lo: nat, i: nat, k: nat)
    requires IsFlash(g, m) && Active(g, m) == Some(lo) && Fits(g, m, lo)
    requires i <= |PageScan(g, m, lo)|
    requires Total(FillOps(g, PageScan(g, m, lo)[..i], Passive(g, lo))) <= k
    ensures Done(m, FillOps(g, PageScan(g, m, lo)[..i], Passive(g, lo)), k, Chip(g))
  {
    hide Cut, Done, Total, FillOps, PageScan, Encode, Moved, Fits, Coded, Size, Active, Filled, Takes;
    var s := PageScan(g, m, lo);
    var np := Passive(g, lo);
    if i == 0 {
      FillNone(g, s, np);
      CutOne(m, Erase(np, g.pageLen), k, Chip(g));
      EraseTakes(m, np, g.pageLen, Chip(g));
    } else {
      FillStep(g, s, np, i - 1);
      var ops := FillOps(g, s[..i - 1], np);
      CutSnoc(m, ops, Write(First(np) + Size(s[..i - 1]), Encode(g, s[i - 1])), k, Chip(g));
      FillGoes(g, m, lo, i - 1, k);
      FillBytes(g, m, lo, i - 1, k);
      MovedInside(g, m, lo, np, i - 1);
      MovedBound(s, First(np), i - 1);
      FillTakes(g, Cut(m, ops, k, Chip(g)), s, np, i - 1);
    }
  }

  lemma EraseTakes(m: seq<byte>, a: nat, len: nat, chip: Device)
    ensures Takes(m, Erase(a, len), chip)
  {
  }

  lemma FilledNone(g: Geometry, n: seq<byte>, s: seq<Entry>, np: nat)
    requires Blank(n, np, np + g.pageLen)
    ensures Filled(g, n, s, np, 0)
  {
  }

  /** One more record copied onto erased flash. */
  lemma FillOne(g: Geometry, n: seq<byte>, s: seq<Entry>, np: nat, i: nat, k: nat)
    requires i < |s| && Filled(g, n, s, np, i)
    requires var d := Moved(s, First(np))[i];
             && d.at == First(np) + Size(s[..i]) && d.End() <= np + g.pageLen
             && Encode(g, d) == Encode(g, s[i]) && d.End() == First(np) + Size(s[..i + 1])
    requires k >= HEADER_LEN + |s[i].data|
    ensures Filled(g, Apply(n, Write(First(np) + Size(s[..i]), Encode(g, s[i])), k), s, np, i + 1)
  {
    hide Encode, Moved, Size, Coded, FilledAt;
    var d := Moved(s, First(np))[i];
    var r := Apply(n, Write(d.at, Encode(g, d)), k);
    WrittenOnBlank(g, n, d, k);
    var next := i + 1;
    forall j | 0 <= j < next ensures FilledAt(g, r, s, np, d.End(), j) {
      if j < i {
        FilledAtFrame(g, n, r, s, np, d.at, j, d.End());
      } else {
        FilledAtLast(g, r, s, np, i);
      }
    }
  }

  lemma FilledAtLast(g: Geometry, r: seq<byte>, s: seq<Entry>, np: nat, i: nat)
    requires i < |s| && Coded(g, r, Moved(s, First(np))[i])
    ensures FilledAt(g, r, s, np, Moved(s, First(np))[i].End(), i)
  {
    MovedBound(s, First(np), i);
  }

  lemma WrittenOnBlank(g: Geometry, n: seq<byte>, d: Entry, k: nat)
    requires Blank(n, d.at, d.End()) && k >= |Encode(g, d)|
    ensures Coded(g, Apply(n, Write(d.at, Encode(g, d)), k), d)
  {
    hide Encode;
    var r := Apply(n, Write(d.at, Encode(g, d)), k);
    forall x | d.at <= x < d.End() ensures r[x] == Encode(g, d)[x - d.at] {
      AndByte(Encode(g, d)[x - d.at]);
    }
    assert r[d.at..d.End()] == Encode(g, d);
  }

  /** Offsets of erased flash claim nothing. */
  lemma BlankClaims(m: seq<byte>, a: nat, hi: nat, x: nat)
    requires hi + SPILL <= |m| && Blank(m, a, hi) && a <= x
    ensures !Claims(m, x, hi)
  {
  }

  /** Records that end inside the page, and offsets between them that claim nothing: the scan is contained. */
  lemma {:induction false} ContainedLive(crc: Crc, m: seq<byte>, o: nat, s: seq<Entry>, hi: nat)
    requires hi + SPILL <= |m| && Live(crc, m, o, s, hi)
    requires forall e :: e in s ==> e.End() <= hi
    requires forall i, x :: 0 <= i <= |s| && Bound(s, o, i) <= x < Limit(s, hi, i) ==> !Claims(m, x, hi)
    ensures Contained(crc, m, o, hi) && Scan(crc, m, o, hi) == s
    decreases |s|
  {
    hide Scan;
    ScanUnique(crc, m, o, s, hi);
    if s == [] {
      if o < hi {
        forall x | o <= x < hi ensures !Claims(m, x, hi) {
          assert Bound(s, o, 0) <= x < Limit(s, hi, 0);
        }
        ContainedSkip(crc, m, o, hi, hi);
      }
    } else {
      var e := s[0];
      var t := s[1..];
      assert Bound(s, o, 0) == o <= e.at && Stored(crc, m, e, hi) && e in s;
      QuietTail(crc, m, o, s, hi);
      forall i, x | 0 <= i <= |t| && Bound(t, e.End(), i) <= x < Limit(t, hi, i) ensures !Claims(m, x, hi) {
        Shift(s, o, hi, i + 1);
        assert Bound(s, o, i + 1) <= x < Limit(s, hi, i + 1);
      }
      ContainedLive(crc, m, e.End(), t, hi);
      forall x | o <= x < e.at ensures !Claims(m, x, hi) {
        assert Bound(s, o, 0) <= x < Limit(s, hi, 0);
      }
      ContainedSkip(crc, m, o, e.at, hi);
    }
  }

  /** The packed records are in place on erased flash; the mark may have been written since. */
  ghost predicate Packed(g: Geometry, n: seq<byte>, s: seq<Entry>, np: nat)
  {
    && Blank(n, First(np) + Size(s), np + g.pageLen)
    && forall j :: 0 <= j < |s| ==> Coded(g, n, Moved(s, First(np))[j])
  }

  lemma MovedStored(g: Geometry, m: seq<byte>, lo: nat, n: seq<byte>, i: nat)
    requires IsFlash(g, m) && IsFlash(g, n) && Active(g, m) == Some(lo)
    requires Fits(g, m, lo) && i < |PageScan(g, m, lo)|
    requires Coded(g, n, Moved(PageScan(g, m, lo), First(Passive(g, lo)))[i])
    ensures var d := Moved(PageScan(g, m, lo), First(Passive(g, lo)))[i];
            Stored(g.crc, n, d, Passive(g, lo) + g.pageLen) && d.End() <= Passive(g, lo) + g.pageLen
  {
    hide PageScan, Moved, Fits, Stored, Encode;
    MovedInside(g, m, lo, Passive(g, lo), i);
    EncodedStored(g, n, Moved(PageScan(g, m, lo), First(Passive(g, lo)))[i], Passive(g, lo) + g.pageLen);
  }

  /** The packed page, whatever its mark, is scanned as the same records. */
  lemma PackedScan(g: Geometry, m: seq<byte>, lo: nat, n: seq<byte>)
    requires IsFlash(g, m) && IsFlash(g, n) && Active(g, m) == Some(lo)
    requires Fits(g, m, lo)
    requires Packed(g, n, PageScan(g, m, lo), Passive(g, lo))
    ensures var np := Passive(g, lo);
            && PageScan(g, n, np) == Moved(PageScan(g, m, lo), First(np))
            && Fits(g, n, np)
  {
    hide Scan, PageScan, Encode, Moved, Fits, Stored, Claims, Coded, Active, Size, Bound;
    var s := PageScan(g, m, lo);
    var np := Passive(g, lo);
    var t := Moved(s, First(np));
    var hi := np + g.pageLen;
    MovedOrder(s, First(np));
    forall i | 0 <= i < |t| ensures Stored(g.crc, n, t[i], hi) && t[i].End() <= hi {
      MovedStored(g, m, lo, n, i);
    }
    forall i, x | 0 <= i <= |t| && Bound(t, First(np), i) <= x < Limit(t, hi, i) ensures !Claims(n, x, hi) {
      MovedBound(s, First(np), i);
      assert i == |s| && s[..i] == s;
      BlankClaims(n, First(np) + Size(s), hi, x);
    }
    ContainedLive(g.crc, n, First(np), t, hi);
    PageScanIs(g, n, np);
    ContainedFits(g, n, np);
  }

  lemma PageScanIs(g: Geometry, n: seq<byte>, lo: nat)
    requires IsFlash(g, n) && lo <= g.pageLen
    ensures PageScan(g, n, lo) == Scan(g.crc, n, First(lo), lo + g.pageLen)
  {
  }

  /** The mark is written on erased flash byte by byte; it is there only when all four bytes are. */
  lemma MarkWritten(m: seq<byte>, np: nat, k: nat)
    requires np + MARK_LEN <= |m| && Blank(m, np, np + MARK_LEN)
    ensures Marked(Apply(m, Write(np, MARK), k), np) <==> k >= MARK_LEN
  {
    var n := Apply(m, Write(np, MARK), k);
    AndByte(MARK[0]);
    AndByte(MARK[1]);
    AndByte(MARK[2]);
    AndByte(MARK[3]);
    if k >= MARK_LEN {
      assert n[np..np + MARK_LEN] == MARK;
    } else {
      assert n[np..np + MARK_LEN][3] == n[np + 3] == ERASED;
    }
  }

  /** The page that was active still reads the same. */
  lemma SamePage(g: Geometry, m: seq<byte>, n: seq<byte>, lo: nat)
    requires IsFlash(g, m) && IsFlash(g, n) && Active(g, m) == Some(lo) && Active(g, n) == Some(lo)
    requires Fits(g, m, lo) && Same(m, n, First(lo), PageTop(g, lo))
    ensures View(g, n) == View(g, m) && PageScan(g, n, lo) == PageScan(g, m, lo)
    ensures Fits(g, n, lo)
  {
    hide Scan, Contained;
    if lo == 0 {
      ScanFrame(g.crc, m, n, First(lo), lo + g.pageLen);
    } else {
      ScanTail(g.crc, m, n, First(lo), lo + g.pageLen);
    }
  }

  /** The page that was filled reads the same. */
  lemma NewPage(g: Geometry, m: seq<byte>, n: seq<byte>, lo: nat)
    requires IsFlash(g, m) && IsFlash(g, n) && Active(g, m) == Some(lo) && Active(g, n) == Some(Passive(g, lo))
    requires Fits(g, m, lo) && Packed(g, n, PageScan(g, m, lo), Passive(g, lo))
    ensures View(g, n) == View(g, m)
    ensures Fits(g, n, Passive(g, lo))
  {
    hide PageScan, Packed, Fits, Moved, MapOf;
    PackedScan(g, m, lo, n);
    MovedMap(PageScan(g, m, lo), First(Passive(g, lo)));
  }

  lemma FilledEntry(g: Geometry, a: seq<byte>, s: seq<Entry>, np: nat, j: nat)
    requires Filled(g, a, s, np, |s|) && j < |s|
    ensures Coded(g, a, Moved(s, First(np))[j])
  {
    hide Moved, Coded, Size, Encode, Blank;
    var top := First(np) + Size(s[..|s|]);
    assert FilledAt(g, a, s, np, top, j);
  }

  lemma PackedOnce(g: Geometry, a: seq<byte>, b: seq<byte>, s: seq<Entry>, np: nat)
    requires Filled(g, a, s, np, |s|) && Same(a, b, First(np), np + g.pageLen)
    requires forall e :: e in Moved(s, First(np)) ==> First(np) <= e.at && e.End() <= np + g.pageLen
    ensures Packed(g, b, s, np)
  {
    hide Moved, Coded, Size, Encode, Filled;
    forall j | 0 <= j < |s| ensures Coded(g, b, Moved(s, First(np))[j]) {
      assert Moved(s, First(np))[j] in Moved(s, First(np));
      FilledEntry(g, a, s, np, j);
      CodedFrame(g, a, b, Moved(s, First(np))[j]);
    }
    PackedBlank(g, a, b, s, np);
  }

  lemma PackedBlank(g: Geometry, a: seq<byte>, b: seq<byte>, s: seq<Entry>, np: nat)
    requires Filled(g, a, s, np, |s|) && Same(a, b, First(np), np + g.pageLen)
    ensures Blank(b, First(np) + Size(s), np + g.pageLen)
  {
    hide Moved, Coded, Size, Encode, FilledAt;
    assert s[..|s|] == s;
  }

  lemma MovedWithin(g: Geometry, m: seq<byte>, lo: nat)
    requires IsFlash(g, m) && lo <= g.pageLen && Fits(g, m, lo)
    ensures var np := Passive(g, lo);
            forall e :: e in Moved(PageScan(g, m, lo), First(np)) ==> First(np) <= e.at && e.End() <= np + g.pageLen
  {
    hide PageScan, Fits, Moved;
    var np := Passive(g, lo);
    var t := Moved(PageScan(g, m, lo), First(np));
    forall e | e in t ensures First(np) <= e.at && e.End() <= np + g.pageLen {
      var i :| 0 <= i < |t| && t[i] == e;
      MovedInside(g, m, lo, np, i);
      MovedBound(PageScan(g, m, lo), First(np), i);
    }
  }

  /** Either the old page is active and untouched, or the new one is active and holds the same records. */
  ghost predicate Survives(g: Geometry, m: seq<byte>, lo: nat, n: seq<byte>)
    requires IsFlash(g, m) && lo <= g.pageLen
  {
    IsFlash(g, n) &&
    ((Active(g, n) == Some(lo) && Same(m, n, First(lo), PageTop(g, lo))) ||
     (Active(g, n) == Some(Passive(g, lo)) && Packed(g, n, PageScan(g, m, lo), Passive(g, lo))))
  }

  lemma SurvivesReads(g: Geometry, m: seq<byte>, lo: nat, n: seq<byte>)
    requires IsFlash(g, m) && Active(g, m) == Some(lo) && Fits(g, m, lo)
    requires Survives(g, m, lo, n)
    ensures View(g, n) == View(g, m)
    ensures Fits(g, n, Active(g, n).value)
  {
    hide PageScan, Fits, View, Packed, Active;
    if Active(g, n) == Some(lo) && Same(m, n, First(lo), PageTop(g, lo)) {
      SamePage(g, m, n, lo);
    } else {
      NewPage(g, m, n, lo);
    }
  }

  /** With the other page marked, zeroing the old mark leaves one of the two pages active, finally the other. */
  lemma Unmark(g: Geometry, b: seq<byte>, lo: nat, j: nat)
    requires IsFlash(g, b) && (lo == 0 || lo == g.pageLen) && Marked(b, Passive(g, lo))
    ensures var n := Apply(b, Zero(lo, MARK_LEN), j);
            && (Active(g, n) == Some(lo) || Active(g, n) == Some(Passive(g, lo)))
            && (j >= MARK_LEN ==> Active(g, n) == Some(Passive(g, lo)) && !Marked(n, lo))
  {
    var np := Passive(g, lo);
    var n := Apply(b, Zero(lo, MARK_LEN), j);
    assert n[np..np + MARK_LEN] == b[np..np + MARK_LEN];
    if j >= MARK_LEN {
      AndByte(b[lo + 3]);
      assert n[lo..lo + MARK_LEN][3] == n[lo + 3] == 0;
    }
  }

  /** The copy loop is over and `j` bytes of the new mark are written: the old page is still the active one. */
  lemma HalfMarked(g: Geometry, m: seq<byte>, lo: nat, a: seq<byte>, j: nat)
    requires IsFlash(g, m) && Active(g, m) == Some(lo)
    requires IsFlash(g, a) && Active(g, a) == Some(lo) && Same(m, a, lo, PageTop(g, lo))
    requires Blank(a, Passive(g, lo), First(Passive(g, lo))) && j < MARK_LEN
    ensures Survives(g, m, lo, Apply(a, Write(Passive(g, lo), MARK), j))
  {
    hide PageScan, Packed, Active, Apply;
    var np := Passive(g, lo);
    MarkWritten(a, np, j);
    HalfActive(g, a, Apply(a, Write(np, MARK), j), lo);
  }

  lemma HalfActive(g: Geometry, a: seq<byte>, b: seq<byte>, lo: nat)
    requires IsFlash(g, a) && IsFlash(g, b) && Active(g, a) == Some(lo) && !Marked(b, Passive(g, lo))
    requires forall x :: 0 <= x < |a| && !(Passive(g, lo) <= x < First(Passive(g, lo))) ==> b[x] == a[x]
    ensures Active(g, b) == Some(lo)
  {
    assert b[lo..lo + MARK_LEN] == a[lo..lo + MARK_LEN];
  }

  /** The new mark is written and `j` bytes of the old one are zeroed: either page holds the records. */
  lemma BothMarked(g: Geometry, m: seq<byte>, lo: nat, a: seq<byte>, i: nat, j: nat)
    requires IsFlash(g, m) && Active(g, m) == Some(lo) && Fits(g, m, lo)
    requires IsFlash(g, a) && Same(m, a, lo, PageTop(g, lo)) && i >= MARK_LEN
    requires Filled(g, a, PageScan(g, m, lo), Passive(g, lo), |PageScan(g, m, lo)|)
    ensures var n := Apply(Apply(a, Write(Passive(g, lo), MARK), i), Zero(lo, MARK_LEN), j);
            && Survives(g, m, lo, n) && (j >= MARK_LEN ==> Active(g, n) == Some(Passive(g, lo)) && !Marked(n, lo))
  {
    hide PageScan, Fits, Moved, Filled, Packed;
    var np := Passive(g, lo);
    var s := PageScan(g, m, lo);
    var b := Apply(a, Write(np, MARK), i);
    FilledBlank(g, a, s, np);
    MarkWritten(a, np, i);
    MovedWithin(g, m, lo);
    PackedOnce(g, a, Apply(b, Zero(lo, MARK_LEN), j), s, np);
    Unmark(g, b, lo, j);
  }

  lemma FilledBlank(g: Geometry, a: seq<byte>, s: seq<Entry>, np: nat)
    requires Filled(g, a, s, np, |s|)
    ensures Blank(a, np, First(np))
  {
  }

  lemma TurnShape(g: Geometry, m: seq<byte>, lo: nat)
    requires IsFlash(g, m) && Active(g, m) == Some(lo)
    ensures var np := Passive(g, lo);
            && TurnPlan(g, m).ops == FillOps(g, PageScan(g, m, lo), np) + [Write(np, MARK)] + [Zero(lo, MARK_LEN)]
            && Accepts(Write(np, MARK), Chip(g)) && Accepts(Zero(lo, MARK_LEN), Chip(g))
            && (lo == 0 || lo == g.pageLen)
  {
  }

  lemma TurnSurvives(g: Geometry, m: seq<byte>, lo: nat, k: nat)
    requires IsFlash(g, m) && Active(g, m) == Some(lo) && Fits(g, m, lo)
    ensures var n := Cut(m, TurnPlan(g, m).ops, k, Chip(g));
            && Survives(g, m, lo, n)
            && (Done(m, TurnPlan(g, m).ops, k, Chip(g)) ==> Active(g, n) == Some(Passive(g, lo)) && !Marked(n, lo))
  {
    hide Cut, Done, FillOps, PageScan, Fits, Packed, Filled, Active, Programmable, Marked;
    var s := PageScan(g, m, lo);
    var np := Passive(g, lo);
    var ops := FillOps(g, s, np);
    assert s[..|s|] == s;
    FillSame(g, m, lo, |s|, k);
    TurnShape(g, m, lo);
    CutSnoc(m, ops, Write(np, MARK), k, Chip(g));
    CutSnoc(m, ops + [Write(np, MARK)], Zero(lo, MARK_LEN), k, Chip(g));
    if Done(m, ops, k, Chip(g)) {
      FillBytes(g, m, lo, |s|, k);
      var a := Cut(m, ops, k, Chip(g));
      var j := k - Total(ops);
      FilledBlank(g, a, s, np);
      BlankProgrammable(a, np, MARK);
      if j < MARK_LEN {
        HalfMarked(g, m, lo, a, j);
      } else {
        BothMarked(g, m, lo, a, j, j - MARK_LEN);
      }
    }
  }

  /**
   Crash safety of the page turn. After every prefix, byte by byte, of the flash operations of a turn some
   page is active and its records fit, and the map read through it is the map from before the turn.
   This covers the window where both pages carry the mark.
   */
  lemma TurnAtomic(g: Geometry, m: seq<byte>, lo: nat, k: nat)
    requires IsFlash(g, m) && Active(g, m) == Some(lo) && Fits(g, m, lo)
    ensures var n := Cut(m, TurnPlan(g, m).ops, k, Chip(g));
            var a := Active(g, n);
            && a.Some? && Fits(g, n, a.value)
            && View(g, n) == View(g, m)
  {
    hide Cut, PageScan, Fits, View, Packed, TurnPlan;
    TurnSurvives(g, m, lo, k);
    SurvivesReads(g, m, lo, Cut(m, TurnPlan(g, m).ops, k, Chip(g)));
  }

  lemma SizeMoved(g: Geometry, m: seq<byte>, lo: nat)
    requires IsFlash(g, m) && lo <= g.pageLen
    ensures Bound(Moved(PageScan(g, m, lo), First(Passive(g, lo))), First(Passive(g, lo)), |PageScan(g, m, lo)|) ==
            First(Passive(g, lo)) + Size(PageScan(g, m, lo))
    ensures First(lo) + Size(PageScan(g, m, lo)) <= Empty(g, m, lo)
  {
    var s := PageScan(g, m, lo);
    assert s[..|s|] == s;
    PageLive(g, m, lo);
    MovedBound(s, First(Passive(g, lo)), |s|);
    SizeBound(s, First(lo), |s|);
  }

  /**
   What a completed turn leaves: the other page is active, the old one has no mark, and the new one is scanned as
   the same records in the same order with the same bytes, duplicates included; it uses exactly the mark and the
   record sizes, is erased from there on, and has at least as much space left as the old page had.
   */
  lemma TurnCopies(g: Geometry, m: seq<byte>, lo: nat, k: nat)
    requires IsFlash(g, m) && Active(g, m) == Some(lo) && Fits(g, m, lo)
    requires Done(m, TurnPlan(g, m).ops, k, Chip(g))
    ensures var n := Cut(m, TurnPlan(g, m).ops, k, Chip(g));
            var np := Passive(g, lo);
            var s := PageScan(g, m, lo);
            var t := PageScan(g, n, np);
            && Active(g, n) == Some(np) && !Marked(n, lo) && View(g, n) == View(g, m)
            && |t| == |s| && (forall i :: 0 <= i < |s| ==> t[i].id == s[i].id && t[i].data == s[i].data)
            && Empty(g, n, np) == np + MARK_LEN + Size(s) && Blank(n, Empty(g, n, np), np + g.pageLen)
            && (Empty(g, m, lo) <= lo + g.pageLen ==>
                  RemSpace(g, np, Empty(g, n, np)) >= RemSpace(g, lo, Empty(g, m, lo)))
  {
    hide Cut, PageScan, Fits, View, TurnPlan, Moved, Coded;
    var n := Cut(m, TurnPlan(g, m).ops, k, Chip(g));
    TurnSurvives(g, m, lo, k);
    SurvivesReads(g, m, lo, n);
    PackedScan(g, m, lo, n);
    SizeMoved(g, m, lo);
  }

  /** A turn that the supply lasts for is stopped by no check of the driver, written bytes read back or not. */
  lemma TurnAccepted(g: Geometry, m: seq<byte>, lo: nat)
    requires IsFlash(g, m) && Active(g, m) == Some(lo) && Fits(g, m, lo)
    ensures Done(m, TurnPlan(g, m).ops, Total(TurnPlan(g, m).ops), Chip(g))
  {
    hide PageScan, Fits, FillOps, Total, Cut, Done, Filled, Programmable, Active;
    var s := PageScan(g, m, lo);
    var np := Passive(g, lo);
    var ops := FillOps(g, s, np);
    var k := Total(TurnPlan(g, m).ops);
    assert s[..|s|] == s;
    TurnShape(g, m, lo);
    CutTwo(m, ops, Write(np, MARK), Zero(lo, MARK_LEN), k, Chip(g));
    FillGoes(g, m, lo, |s|, k);
    FillBytes(g, m, lo, |s|, k);
    FilledBlank(g, Cut(m, ops, k, Chip(g)), s, np);
    BlankProgrammable(Cut(m, ops, k, Chip(g)), np, MARK);
  }

  /** Record `j` is untouched while the passive page is being filled. */
  lemma NextKept(g: Geometry, m: seq<byte>, n: seq<byte>, lo: nat, j: nat)
    requires IsFlash(g, m) && (lo == 0 || lo == g.pageLen) && Same(m, n, lo, PageTop(g, lo)) && Fits(g, m, lo)
    requires j < |PageScan(g, m, lo)|
    ensures var e := PageScan(g, m, lo)[j]; e.End() <= |n| && n[e.at..e.End()] == Encode(g, e)
  {
    hide PageScan, Encode, Stored;
    var e := PageScan(g, m, lo)[j];
    PageEnds(g, m, lo);
    PageLive(g, m, lo);
    assert e in PageScan(g, m, lo);
    EndsBeforeEmpty(g, m, lo, e);
    StoredFrame(g.crc, m, n, e, lo + g.pageLen);
    StoredImage(g, n, e, lo + g.pageLen);
  }

  /** While the passive page is being filled, the driver's next record is the next of the scan made on entry. */
  lemma NextCopied(g: Geometry, m: seq<byte>, lo: nat, j: nat, k: nat)
    requires IsFlash(g, m) && Active(g, m) == Some(lo) && Fits(g, m, lo)
    requires j <= |PageScan(g, m, lo)|
    ensures var s := PageScan(g, m, lo);
            var n := Cut(m, FillOps(g, s[..j], Passive(g, lo)), k, Chip(g));
            var next := NextToCopy(g, n, lo, Bound(s, First(lo), j));
            && next == (if j < |s| then Some(s[j]) else None)
            && (j < |s| ==> s[j].End() <= |n| && n[s[j].at..s[j].End()] == Encode(g, s[j]))
  {
    hide PageScan, FillOps, Cut, Scan, Fits, Encode, IsRecord, Active, Stored, Same, Bound;
    var s := PageScan(g, m, lo);
    var n := Cut(m, FillOps(g, s[..j], Passive(g, lo)), k, Chip(g));
    FillSame(g, m, lo, j, k);
    FillScan(g, m, n, lo, j);
    PageScanIs(g, m, lo);
    ScanFrom(g.crc, m, First(lo), lo + g.pageLen, j);
    if j < |s| {
      NextKept(g, m, n, lo, j);
    }
  }

  lemma StoredImage(g: Geometry, n: seq<byte>, e: Entry, hi: nat)
    requires hi + SPILL <= |n| && Stored(g.crc, n, e, hi)
    ensures e.End() <= |n| && n[e.at..e.End()] == Encode(g, e)
  {
    RecordImage(g, n, e, hi);
  }

  /** One operation more, performed. */
  lemma PerformOne(g: Geometry, m: seq<byte>, ops: seq<Op>, op: Op, k: nat)
    requires Done(m, ops, k, Chip(g))
    ensures Total(ops) <= k
    ensures Perform(g, Cut(m, ops, k, Chip(g)), Plan([op], true), k - Total(ops)) == Perform(g, m, Plan(ops + [op], true), k)
  {
    hide Cut, Done, Spent;
    DoneSpent(m, ops, k, Chip(g));
    CutConcat(m, ops, [op], k, Chip(g));
  }

  lemma PerformHalts(g: Geometry, m: seq<byte>, a: seq<Op>, all: seq<Op>, k: nat)
    requires Halts(m, a, all, k, Chip(g)) && !Done(m, a, k, Chip(g))
    ensures Perform(g, m, Plan(a, true), k) == Perform(g, m, Plan(all, true), k)
  {
  }

  /** On a page whose records fit the copy loop performs the copies of the records scanned on entry. */
  lemma {:induction false} CopyIsFill(g: Geometry, m: seq<byte>, lo: nat, j: nat, k: nat)
    requires IsFlash(g, m) && Active(g, m) == Some(lo) && Fits(g, m, lo)
    requires j <= |PageScan(g, m, lo)| && Done(m, FillOps(g, PageScan(g, m, lo)[..j], Passive(g, lo)), k, Chip(g))
    ensures var s := PageScan(g, m, lo);
            var ops := FillOps(g, s[..j], Passive(g, lo));
            && Total(ops) <= k
            && CopyRun(g, Cut(m, ops, k, Chip(g)), k - Total(ops), lo, Bound(s, First(lo), j),
                       First(Passive(g, lo)) + Size(s[..j])) ==
               Perform(g, m, Plan(FillOps(g, s, Passive(g, lo)), true), k)
    decreases |PageScan(g, m, lo)| - j
  {
    hide PageScan, FillOps, Cut, Done, Spent, Fits, Encode, Active, Size, NextToCopy, Perform, Total;
    var s := PageScan(g, m, lo);
    var np := Passive(g, lo);
    var ops := FillOps(g, s[..j], np);
    DoneSpent(m, ops, k, Chip(g));
    NextCopied(g, m, lo, j, k);
    if j < |s| {
      var op := Write(First(np) + Size(s[..j]), Encode(g, s[j]));
      FillStep(g, s, np, j);
      PerformOne(g, m, ops, op, k);
      PerformDone(g, m, ops + [op], k);
      if Done(m, ops + [op], k, Chip(g)) {
        CopyIsFill(g, m, lo, j + 1, k);
      } else {
        FillStops(g, m, s, np, j + 1, k);
        PerformHalts(g, m, ops + [op], FillOps(g, s, np), k);
      }
    } else {
      assert s[..j] == s;
      PerformDone(g, m, ops, k);
    }
  }

  lemma PerformDone(g: Geometry, m: seq<byte>, ops: seq<Op>, k: nat)
    ensures var p := Perform(g, m, Plan(ops, true), k);
            && p.res == Done(m, ops, k, Chip(g)) && p.flash == Cut(m, ops, k, Chip(g))
            && (p.res ==> Total(ops) <= k && p.supply == k - Total(ops))
  {
    if Done(m, ops, k, Chip(g)) {
      DoneSpent(m, ops, k, Chip(g));
    }
  }

  /**
   The page turn of the driver. On any flash without an active page it does nothing; if its records fit it
   performs its plan, up to the first failing step: copies of the records scanned on entry, then the two marks.
   */
  lemma TurnIsPlan(g: Geometry, m: seq<byte>, k: nat)
    requires IsFlash(g, m)
    requires Active(g, m).Some? ==> Fits(g, m, Active(g, m).value)
    ensures TurnRun(g, m, k) == Perform(g, m, TurnPlan(g, m), k)
  {
    hide PageScan, FillOps, Cut, Done, Spent, Fits, Active, CopyRun, Perform, Size, Total;
    CutNone(m, k, Chip(g));
    if Active(g, m).None? {
      NoTurn(g, m, k);
    } else {
      var lo := Active(g, m).value;
      var np := Passive(g, lo);
      var s := PageScan(g, m, lo);
      var fill := FillOps(g, s, np);
      FillNone(g, s, np);
      BoundFirst(s, First(lo));
      TurnStops(g, m, lo, k);
      PerformDone(g, m, [Erase(np, g.pageLen)], k);
      PerformDone(g, m, fill, k);
      PerformDone(g, m, fill + [Write(np, MARK)], k);
      FillStops(g, m, s, np, 0, k);
      if !Done(m, [Erase(np, g.pageLen)], k, Chip(g)) {
        PerformHalts(g, m, [Erase(np, g.pageLen)], fill, k);
      } else {
        CopyIsFill(g, m, lo, 0, k);
      }
      if !Done(m, fill, k, Chip(g)) {
        PerformHalts(g, m, fill, TurnPlan(g, m).ops, k);
      } else {
        PerformOne(g, m, fill, Write(np, MARK), k);
        if !Done(m, fill + [Write(np, MARK)], k, Chip(g)) {
          PerformHalts(g, m, fill + [Write(np, MARK)], TurnPlan(g, m).ops, k);
        } else {
          PerformOne(g, m, fill + [Write(np, MARK)], Zero(lo, MARK_LEN), k);
        }
      }
    }
  }

  lemma NoTurn(g: Geometry, m: seq<byte>, k: nat)
    requires IsFlash(g, m) && Active(g, m).None?
    ensures TurnRun(g, m, k) == Perform(g, m, TurnPlan(g, m), k)
  {
    CutNone(m, k, Chip(g));
  }
}
