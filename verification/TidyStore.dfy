/**
 A store that can be trusted unconditionally. When ids stay below 0x8000, the range the driver's interface
 leaves to users, and every stored value is `Mild` (7-bit values are), the bytes left behind by a killed
 record can never be taken for a header, so no property needs to be assumed of dead flash.
 */
module TidyStore {
  import opened Bytes
  import opened NorFlash
  import opened Records
  import opened Store
  import opened StoreSteps
  import opened Copies
  import opened StoreLaws
  import opened TurnLaws

  const USER_IDS := 0x8000

  predicate MatchAt(gap: seq<byte>, x: nat)
    requires x + 3 < |gap|
  {
    gap[x] as int + gap[x + 2] as int == 0xFF && gap[x + 1] as int + gap[x + 3] as int == 0xFF
  }

  /** Dead bytes that match no header, alone or followed by a live record, more dead bytes or erased flash. */
  predicate Calm(gap: seq<byte>) {
    gap == [] ||
    (&& |gap| >= HEADER_LEN
     && gap[0] == gap[1] == gap[2] == gap[3] == 0
     && gap[|gap| - 1] < 0x80
     && gap[|gap| - 3] as int + gap[|gap| - 1] as int != 0xFF
     && forall x: nat :: x + 3 < |gap| ==> !MatchAt(gap, x))
  }

  /** The value leaves calm bytes behind when its header is zeroed. */
  predicate Mild(data: seq<byte>) { Calm(Zeros(HEADER_LEN) + data) }

  /** Values made of bytes below 0x80, such as ASCII text, are mild. */
  lemma SevenBitIsMild(data: seq<byte>)
    requires forall i :: 0 <= i < |data| ==> data[i] < 0x80
    ensures Mild(data)
  {
    var d := Zeros(HEADER_LEN) + data;
    assert forall i :: 0 <= i < |d| ==> d[i] < 0x80;
  }

  /** So is a two-byte counter below 0x8000. */
  lemma CounterIsMild(n: nat)
    requires n < 0x8000
    ensures Mild(Counter(n))
  {
    var d := Zeros(HEADER_LEN) + Counter(n);
    assert d == [0, 0, 0, 0, 0, 0, 0, Low(n), High(n)];
    forall x: nat | x + 3 < |d| ensures !MatchAt(d, x) {
      assert x == 0 || x == 1 || x == 2 || x == 3 || x == 4 || x == 5;
    }
  }

  lemma ZerosAreMild(n: nat)
    ensures Calm(Zeros(HEADER_LEN + n))
  {
    var d := Zeros(HEADER_LEN + n);
    forall x: nat | x + 3 < |d| ensures !MatchAt(d, x) {
      assert d[x] == 0 && d[x + 2] == 0;
    }
  }

  /** Calm stretches one after the other are calm. */
  lemma CalmConcat(a: seq<byte>, b: seq<byte>)
    requires Calm(a) && Calm(b)
    ensures Calm(a + b)
  {
    if a == [] {
      assert a + b == b;
    } else if b == [] {
      assert a + b == a;
    } else {
      var c := a + b;
      forall x: nat | x + 3 < |c| ensures !MatchAt(c, x) {
        if x + 3 < |a| {
          assert !MatchAt(a, x);
        } else if x >= |a| {
          assert !MatchAt(b, x - |a|);
        }
      }
    }
  }

  /** What one live record and the dead bytes before it, from `b` on, must look like. */
  ghost predicate Neat(g: Geometry, m: seq<byte>, b: nat, e: Entry, hi: nat)
    requires hi + SPILL <= |m|
  {
    && b <= e.at && e.End() <= hi && Stored(g.crc, m, e, hi)
    && e.id < USER_IDS && Mild(e.data)
    && Calm(m[b..e.at])
  }

  lemma NeatFrame(g: Geometry, m: seq<byte>, n: seq<byte>, b: nat, e: Entry, hi: nat)
    requires hi + SPILL <= |m| && Neat(g, m, b, e, hi) && Same(m, n, b, e.End())
    ensures Neat(g, n, b, e, hi)
  {
    hide Stored, Calm;
    StoredFrame(g.crc, m, n, e, hi);
    assert n[b..e.at] == m[b..e.at];
  }

  ghost predicate NeatAt(g: Geometry, m: seq<byte>, lo: nat, s: seq<Entry>, i: nat)
    requires IsFlash(g, m) && lo <= g.pageLen && i < |s|
  {
    Neat(g, m, Bound(s, First(lo), i), s[i], lo + g.pageLen)
  }

  /** The page holds the records `s`, calm dead bytes between them, and erased flash after the last one. */
  ghost predicate Tidy(g: Geometry, m: seq<byte>, lo: nat, s: seq<Entry>)
    requires IsFlash(g, m)
  {
    && Active(g, m) == Some(lo)
    && (forall i :: 0 <= i < |s| ==> NeatAt(g, m, lo, s, i))
    && Blank(m, Bound(s, First(lo), |s|), lo + g.pageLen)
  }

  lemma MatchBytes(m: seq<byte>, x: nat)
    requires x + 3 < |m|
    ensures U16(m, x) + U16(m, x + 2) == 0xFFFF <==> MatchAt(m, x)
  {
  }

  /** Calm dead bytes before a user record claim nothing. */
  lemma CalmClaims(g: Geometry, m: seq<byte>, a: nat, e: Entry, hi: nat, x: nat)
    requires hi + SPILL <= |m| && Stored(g.crc, m, e, hi) && e.id < USER_IDS
    requires a <= x < e.at && Calm(m[a..e.at])
    ensures !Claims(m, x, hi)
  {
    var gap := m[a..e.at];
    assert forall y :: a <= y < e.at ==> gap[y - a] == m[y];
    MatchBytes(m, x);
    if x + 3 < e.at {
      assert !MatchAt(gap, x - a);
    } else {
      assert m[e.at + 1] < 0x80;
      assert gap[|gap| - 1] == m[e.at - 1] && gap[|gap| - 3] == m[e.at - 3];
    }
  }

  lemma TidyOrder(g: Geometry, m: seq<byte>, lo: nat, s: seq<Entry>)
    requires IsFlash(g, m) && Tidy(g, m, lo, s)
    ensures InOrder(s, First(lo))
  {
    hide Stored, Calm, Mild;
    forall i | 0 <= i < |s| ensures Bound(s, First(lo), i) <= s[i].at {
      assert NeatAt(g, m, lo, s, i);
    }
  }

  /** Record `i` of a tidy page. */
  lemma TidyAt(g: Geometry, m: seq<byte>, lo: nat, s: seq<Entry>, i: nat)
    requires IsFlash(g, m) && Tidy(g, m, lo, s) && i < |s|
    ensures lo <= g.pageLen && Neat(g, m, Bound(s, First(lo), i), s[i], lo + g.pageLen)
    ensures First(lo) <= Bound(s, First(lo), i) <= s[i].at
    ensures s[i].End() <= Bound(s, First(lo), |s|) <= lo + g.pageLen
    ensures Stored(g.crc, m, s[i], lo + g.pageLen) && s[i].id < USER_IDS
  {
    hide Stored, Calm, Mild;
    TidyOrder(g, m, lo, s);
    assert NeatAt(g, m, lo, s, i);
    assert NeatAt(g, m, lo, s, |s| - 1);
    if i > 0 { AtLeast(s, First(lo), i - 1); }
    if i < |s| - 1 { Ordered(s, First(lo), i, |s| - 1); }
  }

  lemma TidyPair(g: Geometry, m: seq<byte>, lo: nat, s: seq<Entry>, i: nat, j: nat)
    requires IsFlash(g, m) && Tidy(g, m, lo, s) && i < j < |s|
    ensures s[i].End() <= Bound(s, First(lo), j) <= s[j].at
    ensures j == i + 1 ==> s[i].End() == Bound(s, First(lo), j)
  {
    hide Tidy;
    TidyOrder(g, m, lo, s);
    assert Bound(s, First(lo), j) <= s[j].at;
    if i < j - 1 { Ordered(s, First(lo), i, j - 1); }
  }

  lemma TidyLive(g: Geometry, m: seq<byte>, lo: nat, s: seq<Entry>)
    requires IsFlash(g, m) && Tidy(g, m, lo, s)
    ensures Live(g.crc, m, First(lo), s, lo + g.pageLen)
    ensures forall e :: e in s ==> e.End() <= lo + g.pageLen
  {
    hide Stored, Neat, NeatAt;
    TidyOrder(g, m, lo, s);
    forall i | 0 <= i < |s| ensures Stored(g.crc, m, s[i], lo + g.pageLen) && s[i].End() <= lo + g.pageLen {
      TidyAt(g, m, lo, s, i);
    }
  }

  /** Nothing between the records of a tidy page claims to be one. */
  lemma TidyGap(g: Geometry, m: seq<byte>, lo: nat, s: seq<Entry>, i: nat, x: nat)
    requires IsFlash(g, m) && Tidy(g, m, lo, s) && i <= |s|
    requires Bound(s, First(lo), i) <= x < Limit(s, lo + g.pageLen, i)
    ensures !Claims(m, x, lo + g.pageLen)
  {
    hide Stored, Calm, Mild, Claims;
    if i < |s| {
      TidyAt(g, m, lo, s, i);
      CalmClaims(g, m, Bound(s, First(lo), i), s[i], lo + g.pageLen, x);
    } else {
      BlankClaims(m, Bound(s, First(lo), |s|), lo + g.pageLen, x);
    }
  }

  lemma TidyActive(g: Geometry, m: seq<byte>, lo: nat, s: seq<Entry>)
    requires IsFlash(g, m) && Tidy(g, m, lo, s)
    ensures Active(g, m) == Some(lo)
  {
  }

  lemma TidyContained(g: Geometry, m: seq<byte>, lo: nat, s: seq<Entry>)
    requires IsFlash(g, m) && Tidy(g, m, lo, s)
    ensures lo <= g.pageLen && Contained(g.crc, m, First(lo), lo + g.pageLen) && PageScan(g, m, lo) == s
  {
    hide Scan, Claims, Stored, Contained, Tidy, Live, PageScan, Bound;
    var hi := lo + g.pageLen;
    TidyActive(g, m, lo, s);
    TidyLive(g, m, lo, s);
    forall i, x | 0 <= i <= |s| && Bound(s, First(lo), i) <= x < Limit(s, hi, i) ensures !Claims(m, x, hi) {
      TidyGap(g, m, lo, s, i, x);
    }
    ContainedLive(g.crc, m, First(lo), s, hi);
    PageScanIs(g, m, lo);
  }

  /** A tidy page is scanned as its records, inside the page. */
  lemma TidyScan(g: Geometry, m: seq<byte>, lo: nat, s: seq<Entry>)
    requires IsFlash(g, m) && Tidy(g, m, lo, s)
    ensures PageScan(g, m, lo) == s && View(g, m) == MapOf(s) && Fits(g, m, lo)
    ensures Empty(g, m, lo) == Bound(s, First(lo), |s|) && First(lo) <= Empty(g, m, lo) <= lo + g.pageLen
  {
    hide Stored, Contained, Fits, Neat, NeatAt, PageScan, MapOf;
    TidyContained(g, m, lo, s);
    ContainedFits(g, m, lo);
    if s != [] {
      TidyAt(g, m, lo, s, |s| - 1);
    }
  }

  /** Zeroing header or all of a record leaves zeros, then what is left of the payload. */
  lemma KilledBytes(m: seq<byte>, n: seq<byte>, e: Entry, len: nat)
    requires Holds(m, e) && HEADER_LEN <= len <= HEADER_LEN + |e.data| && n == Apply(m, Zero(e.at, len), len)
    ensures n[e.at..e.End()] == Zeros(len) + e.data[len - HEADER_LEN..]
  {
    forall x | e.at <= x < e.End() ensures n[x] == (Zeros(len) + e.data[len - HEADER_LEN..])[x - e.at] {
      AndByte(m[x]);
      assert x >= e.at + HEADER_LEN ==> m[e.at + HEADER_LEN..e.End()][x - e.at - HEADER_LEN] == m[x];
    }
  }

  /** The bytes of a killed record: its header is zeroed, and its payload too when it is invalidated or repaired. */
  lemma DeadIsCalm(g: Geometry, m: seq<byte>, n: seq<byte>, e: Entry, len: nat, hi: nat)
    requires hi + SPILL <= |m| && Stored(g.crc, m, e, hi) && Mild(e.data) && e.End() <= |m|
    requires len == HEADER_LEN || len == HEADER_LEN + |e.data|
    requires n == Apply(m, Zero(e.at, len), len)
    ensures Calm(n[e.at..e.End()])
  {
    hide Calm, Apply;
    KilledBytes(m, n, e, len);
    if len == HEADER_LEN {
      assert e.data[0..] == e.data;
    } else {
      assert Zeros(len) + e.data[|e.data|..] == Zeros(len);
      ZerosAreMild(|e.data|);
    }
  }

  lemma Splice(n: seq<byte>, b: nat, c: nat, d: nat, e: nat)
    requires b <= c <= d <= e <= |n|
    ensures n[b..e] == n[b..c] + n[c..d] + n[d..e]
  {
  }

  lemma DropIndex(s: seq<Entry>, j: nat, o: nat, i: nat)
    requires j < |s| && i < |s|
    ensures Bound(Drop(s, j), o, i) == if i <= j then Bound(s, o, i) else Bound(s, o, i + 1)
    ensures i < |s| - 1 ==> Drop(s, j)[i] == if i < j then s[i] else s[i + 1]
  {
  }

  /** The dead bytes around a killed record join up. */
  lemma KillGap(g: Geometry, m: seq<byte>, b: nat, e: Entry, f: Entry, len: nat, hi: nat)
    requires hi + SPILL <= |m| && Neat(g, m, b, e, hi) && Neat(g, m, e.End(), f, hi)
    requires len == HEADER_LEN || len == HEADER_LEN + |e.data|
    ensures Neat(g, Apply(m, Zero(e.at, len), len), b, f, hi)
  {
    hide Calm, Stored, Mild;
    var n := Apply(m, Zero(e.at, len), len);
    NeatFrame(g, m, n, e.End(), f, hi);
    DeadIsCalm(g, m, n, e, len, hi);
    assert n[b..e.at] == m[b..e.at];
    CalmConcat(n[b..e.at], n[e.at..e.End()]);
    CalmConcat(n[b..e.at] + n[e.at..e.End()], n[e.End()..f.at]);
    Splice(n, b, e.at, e.End(), f.at);
  }

  lemma KillAt(g: Geometry, m: seq<byte>, lo: nat, s: seq<Entry>, j: nat, len: nat, i: nat)
    requires IsFlash(g, m) && Tidy(g, m, lo, s) && j + 1 < |s| && i < |s| - 1
    requires len == HEADER_LEN || len == HEADER_LEN + |s[j].data|
    ensures var n := Apply(m, Zero(s[j].at, len), len);
            var t := Drop(s, j);
            Neat(g, n, Bound(t, First(lo), i), t[i], lo + g.pageLen)
  {
    hide Neat, NeatAt, Drop, Tidy, Bound, InOrder, Live;
    DropIndex(s, j, First(lo), i);
    if i == j {
      TidyAt(g, m, lo, s, i);
      TidyAt(g, m, lo, s, i + 1);
      TidyPair(g, m, lo, s, i, i + 1);
      KillGap(g, m, Bound(s, First(lo), i), s[i], s[i + 1], len, lo + g.pageLen);
    } else {
      KillElsewhere(g, m, lo, s, j, len, if i < j then i else i + 1);
    }
  }

  lemma KillElsewhere(g: Geometry, m: seq<byte>, lo: nat, s: seq<Entry>, j: nat, len: nat, i: nat)
    requires IsFlash(g, m) && Tidy(g, m, lo, s) && j + 1 < |s| && i < |s| && i != j && i != j + 1
    requires len == HEADER_LEN || len == HEADER_LEN + |s[j].data|
    ensures lo <= g.pageLen
    ensures Neat(g, Apply(m, Zero(s[j].at, len), len), Bound(s, First(lo), i), s[i], lo + g.pageLen)
  {
    hide Neat, NeatAt, Tidy, Bound, InOrder, Live, Apply, Same, Stored;
    TidyAt(g, m, lo, s, i);
    TidyAt(g, m, lo, s, j);
    if i < j {
      TidyPair(g, m, lo, s, i, j);
    } else {
      TidyPair(g, m, lo, s, j, i);
    }
    ApplyOutside(m, Zero(s[j].at, len), len, Bound(s, First(lo), i), s[i].End());
    NeatFrame(g, m, Apply(m, Zero(s[j].at, len), len), Bound(s, First(lo), i), s[i], lo + g.pageLen);
  }

  /** Killing a record that is not the last keeps the page tidy, without that record. */
  lemma TidyKill(g: Geometry, m: seq<byte>, lo: nat, s: seq<Entry>, j: nat, len: nat)
    requires IsFlash(g, m) && Tidy(g, m, lo, s) && j + 1 < |s|
    requires len == HEADER_LEN || len == HEADER_LEN + |s[j].data|
    ensures Tidy(g, Apply(m, Zero(s[j].at, len), len), lo, Drop(s, j))
  {
    hide Neat;
    var n := Apply(m, Zero(s[j].at, len), len);
    var t := Drop(s, j);
    forall i | 0 <= i < |t| ensures NeatAt(g, n, lo, t, i) {
      KillAt(g, m, lo, s, j, len, i);
    }
    TidyAt(g, m, lo, s, j);
    ActiveKept(g, m, n, lo);
    hide NeatAt;
    BlankKept(g, m, n, lo, s);
    assert Bound(t, First(lo), |t|) == Bound(s, First(lo), |s|);
  }

  lemma BlankKept(g: Geometry, m: seq<byte>, n: seq<byte>, lo: nat, s: seq<Entry>)
    requires IsFlash(g, m) && Tidy(g, m, lo, s) && Same(m, n, Bound(s, First(lo), |s|), |m|)
    ensures Blank(n, Bound(s, First(lo), |s|), lo + g.pageLen)
  {
    hide NeatAt;
  }

  /** A record with no dead bytes before it. */
  lemma NeatLast(g: Geometry, n: seq<byte>, e: Entry, hi: nat)
    requires hi + SPILL <= |n| && e.End() <= hi && e.id < USER_IDS && Mild(e.data) && Stored(g.crc, n, e, hi)
    ensures Neat(g, n, e.at, e, hi)
  {
    assert n[e.at..e.at] == [];
  }

  lemma AppendAt(g: Geometry, m: seq<byte>, n: seq<byte>, lo: nat, s: seq<Entry>, e: Entry, i: nat)
    requires IsFlash(g, m) && IsFlash(g, n) && Tidy(g, m, lo, s) && i <= |s|
    requires e.at == Bound(s, First(lo), |s|) && Same(m, n, 0, e.at)
    requires e.id < USER_IDS && Mild(e.data) && e.End() <= lo + g.pageLen && Stored(g.crc, n, e, lo + g.pageLen)
    ensures Neat(g, n, Bound(s + [e], First(lo), i), (s + [e])[i], lo + g.pageLen)
  {
    if i < |s| {
      hide Neat, NeatAt;
      TidyAt(g, m, lo, s, i);
      NeatFrame(g, m, n, Bound(s, First(lo), i), s[i], lo + g.pageLen);
    } else {
      NeatLast(g, n, e, lo + g.pageLen);
    }
  }

  /** A mild user record with room, written after the last one, keeps the page tidy. */
  lemma TidyAppend(g: Geometry, m: seq<byte>, n: seq<byte>, lo: nat, s: seq<Entry>, e: Entry)
    requires IsFlash(g, m) && IsFlash(g, n) && Tidy(g, m, lo, s)
    requires e.at == Bound(s, First(lo), |s|) && Same(m, n, 0, e.at) && Same(m, n, e.End(), |m|)
    requires e.id < USER_IDS && Mild(e.data) && e.End() <= lo + g.pageLen && Stored(g.crc, n, e, lo + g.pageLen)
    ensures Tidy(g, n, lo, s + [e])
  {
    hide Neat, Stored;
    var t := s + [e];
    forall i | 0 <= i < |t| ensures NeatAt(g, n, lo, t, i) {
      AppendAt(g, m, n, lo, s, e, i);
    }
    if s != [] { TidyAt(g, m, lo, s, |s| - 1); }
    ActiveKept(g, m, n, lo);
  }
}
