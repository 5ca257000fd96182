/** Logs with copies removed: what is left after repair and after an update, and what the map makes of it. */
module Copies {
  import opened Bytes
  import opened NorFlash
  import opened Records
  import opened Store

  /** The log without any copy of `id`. */
  function Without(s: seq<Entry>, id: nat): (r: seq<Entry>)
    ensures forall e :: e in r <==> e in s && e.id != id
  {
    if s == [] then []
    else
      var l := s[|s| - 1];
      assert s == s[..|s| - 1] + [l];
      if l.id == id then Without(s[..|s| - 1], id) else Without(s[..|s| - 1], id) + [l]
  }

  /** The log with only the last copy of `id`. */
  function Keep(s: seq<Entry>, id: nat): seq<Entry> {
    if s == [] then []
    else
      var l := s[|s| - 1];
      if l.id == id then Without(s[..|s| - 1], id) + [l] else Keep(s[..|s| - 1], id) + [l]
  }

  lemma MapNext(t: seq<Entry>, l: Entry)
    ensures MapOf(t + [l]) == MapOf(t)[l.id := l.data]
  {
    assert (t + [l])[..|t|] == t;
  }

  lemma MapLast(s: seq<Entry>)
    requires s != []
    ensures MapOf(s) == MapOf(s[..|s| - 1])[s[|s| - 1].id := s[|s| - 1].data]
  {
  }

  lemma WithoutLast(s: seq<Entry>, id: nat)
    requires s != []
    ensures var t := Without(s[..|s| - 1], id);
            Without(s, id) == if s[|s| - 1].id == id then t else t + [s[|s| - 1]]
  {
  }

  lemma {:induction false} WithoutMap(s: seq<Entry>, id: nat)
    ensures MapOf(Without(s, id)) == MapOf(s) - {id}
  {
    hide MapOf, Without;
    if s == [] {
      EmptyMaps(id);
    } else {
      WithoutMap(s[..|s| - 1], id);
      WithoutLast(s, id);
      MapLast(s);
      MapNext(Without(s[..|s| - 1], id), s[|s| - 1]);
    }
  }

  lemma EmptyMaps(id: nat)
    ensures Without([], id) == [] && MapOf([]) == map[] && MapOf([]) - {id} == MapOf([])
  {
  }

  /** Dropping the copies that are shadowed does not change the map. */
  lemma {:induction false} KeepMap(s: seq<Entry>, id: nat)
    ensures MapOf(Keep(s, id)) == MapOf(s)
  {
    if s != [] {
      var init := s[..|s| - 1];
      var l := s[|s| - 1];
      var t := if l.id == id then Without(init, id) else Keep(init, id);
      if l.id == id { WithoutMap(init, id); } else { KeepMap(init, id); }
      assert (t + [l])[..|t|] == t;
    }
  }

  /** An update replaces the mapping of `id`. */
  lemma UpdateMap(s: seq<Entry>, e: Entry)
    ensures MapOf(Without(s, e.id) + [e]) == MapOf(s)[e.id := e.data]
  {
    var t := Without(s, e.id);
    WithoutMap(s, e.id);
    assert (t + [e])[..|t|] == t;
  }

  lemma {:induction false} KeepIn(s: seq<Entry>, id: nat)
    ensures forall e :: e in Keep(s, id) ==> e in s && (e.id == id ==> Last(s, id) == Some(e))
    ensures forall e :: e in s && (e.id == id ==> Last(s, id) == Some(e)) ==> e in Keep(s, id)
    ensures Last(Keep(s, id), id) == Last(s, id)
  {
    if s != [] {
      var init := s[..|s| - 1];
      var l := s[|s| - 1];
      assert s == init + [l];
      var t := if l.id == id then Without(init, id) else Keep(init, id);
      KeepIn(init, id);
      assert (t + [l])[..|t|] == t;
    }
  }

  lemma {:induction false} NoneLeft(s: seq<Entry>, id: nat)
    requires forall e :: e in s ==> e.id != id
    ensures Last(s, id) == None && RepairOps(s, id) == []
  {
    if s != [] {
      NoneLeft(s[..|s| - 1], id);
    }
  }

  /** After a repair there is nothing left to repair. */
  lemma {:induction false} KeepRepaired(s: seq<Entry>, id: nat)
    ensures RepairOps(Keep(s, id), id) == []
  {
    if s != [] {
      var init := s[..|s| - 1];
      var l := s[|s| - 1];
      var t := if l.id == id then Without(init, id) else Keep(init, id);
      if l.id == id { NoneLeft(t, id); } else { KeepRepaired(init, id); }
      assert (t + [l])[..|t|] == t;
    }
  }

  lemma OrderSnoc(t: seq<Entry>, o: nat, l: Entry)
    requires InOrder(t, o) && o <= l.at
    requires forall e :: e in t ==> e.End() <= l.at
    ensures InOrder(t + [l], o)
  {
    var s := t + [l];
    forall i | 0 <= i < |s| ensures Bound(s, o, i) <= s[i].at {
      if i < |t| {
        assert Bound(t, o, i) == Bound(s, o, i);
      }
    }
  }

  lemma OrderPrefix(s: seq<Entry>, o: nat, j: nat)
    requires InOrder(s, o) && j <= |s|
    ensures InOrder(s[..j], o)
  {
    var t := s[..j];
    forall i | 0 <= i < |t| ensures Bound(t, o, i) <= t[i].at {
      assert Bound(s, o, i) <= s[i].at;
    }
  }

  lemma OrderInit(s: seq<Entry>, o: nat)
    requires InOrder(s, o) && s != []
    ensures var l := s[|s| - 1];
            && InOrder(s[..|s| - 1], o)
            && o <= l.at && forall e :: e in s[..|s| - 1] ==> e.End() <= l.at
  {
    OrderPrefix(s, o, |s| - 1);
    AtLeast(s, o, |s| - 1);
    forall e | e in s[..|s| - 1] ensures e.End() <= s[|s| - 1].at {
      var i :| 0 <= i < |s| - 1 && s[i] == e;
      Ordered(s, o, i, |s| - 1);
    }
  }

  lemma {:induction false} AtLeast(s: seq<Entry>, o: nat, i: nat)
    requires InOrder(s, o) && i < |s|
    ensures o <= s[i].at
  {
    assert Bound(s, o, i) <= s[i].at;
    if i > 0 {
      AtLeast(s, o, i - 1);
    }
  }

  /** Dropping copies keeps the order. */
  lemma {:induction false} DropOrder(s: seq<Entry>, o: nat, id: nat)
    requires InOrder(s, o)
    ensures InOrder(Without(s, id), o) && InOrder(Keep(s, id), o)
  {
    if s != [] {
      var init := s[..|s| - 1];
      OrderInit(s, o);
      DropOrder(init, o, id);
      KeepIn(init, id);
      OrderSnoc(Without(init, id), o, s[|s| - 1]);
      OrderSnoc(Keep(init, id), o, s[|s| - 1]);
    }
  }

  /** Two entries of a log are the same one or do not overlap. */
  lemma Disjoint(s: seq<Entry>, o: nat, a: Entry, b: Entry)
    requires InOrder(s, o) && a in s && b in s
    ensures a == b || a.End() <= b.at || b.End() <= a.at
  {
    var i :| 0 <= i < |s| && s[i] == a;
    var j :| 0 <= j < |s| && s[j] == b;
    if i < j { Ordered(s, o, i, j); } else if j < i { Ordered(s, o, j, i); }
  }

  lemma {:induction false} LastNone(s: seq<Entry>, id: nat)
    ensures Last(s, id).None? <==> forall e :: e in s ==> e.id != id
  {
    if s != [] {
      var l := s[|s| - 1];
      assert s == s[..|s| - 1] + [l];
      LastNone(s[..|s| - 1], id);
      assert l in s;
    }
  }

  /** The last copy is the copy at the highest offset. */
  lemma {:induction false} LastHighest(s: seq<Entry>, o: nat, e: Entry)
    requires InOrder(s, o) && e in s
    ensures Last(s, e.id).Some? && e.at <= Last(s, e.id).value.at
  {
    var l := s[|s| - 1];
    assert s == s[..|s| - 1] + [l];
    OrderInit(s, o);
    if e != l {
      assert e in s[..|s| - 1] && e.End() <= l.at;
      LastHighest(s[..|s| - 1], o, e);
    }
  }

  lemma LastUnique(s: seq<Entry>, o: nat, e: Entry)
    requires InOrder(s, o) && e in s
    requires forall x :: x in s && x.id == e.id ==> x.at <= e.at
    ensures Last(s, e.id) == Some(e)
  {
    LastHighest(s, o, e);
    Disjoint(s, o, e, Last(s, e.id).value);
  }

  /** Every repair zeroes exactly one copy that is not the last. */
  lemma {:induction false} RepairKills(s: seq<Entry>, o: nat, id: nat, op: Op)
    requires InOrder(s, o) && op in RepairOps(s, id)
    ensures op.Zero? && Last(s, id).Some?
    ensures exists e :: e in s && e.id == id && op.addr == e.at && Cost(op) == HEADER_LEN + |e.data|
                        && e.End() <= Last(s, id).value.at
  {
    var init := s[..|s| - 1];
    OrderInit(s, o);
    assert s == init + [s[|s| - 1]];
    if op in RepairOps(init, id) {
      RepairKills(init, o, id, op);
      var e :| e in init && e.id == id && op.addr == e.at && Cost(op) == HEADER_LEN + |e.data|
               && e.End() <= Last(init, id).value.at;
      assert e in s;
    } else {
      var e := Last(init, id).value;
      assert e in s;
    }
  }

  /** So repairs never touch an entry that is kept. */
  lemma RepairMisses(s: seq<Entry>, o: nat, id: nat, op: Op, e: Entry)
    requires InOrder(s, o) && op in RepairOps(s, id) && e in Keep(s, id)
    ensures op.addr + Cost(op) <= e.at || e.End() <= op.addr
  {
    KeepIn(s, id);
    RepairKills(s, o, id, op);
    var x :| x in s && x.id == id && op.addr == x.at && Cost(op) == HEADER_LEN + |x.data|
             && x.End() <= Last(s, id).value.at;
    Disjoint(s, o, x, e);
  }

  function Drop(s: seq<Entry>, j: nat): seq<Entry>
    requires j < |s|
  {
    s[..j] + s[j + 1..]
  }

  lemma DropSnoc(s: seq<Entry>, j: nat)
    requires j < |s|
    ensures Drop(s, j) == if j == |s| - 1 then s[..j] else Drop(s[..|s| - 1], j) + [s[|s| - 1]]
  {
  }

  lemma {:induction false} WithoutAbsent(s: seq<Entry>, id: nat)
    requires forall e :: e in s ==> e.id != id
    ensures Without(s, id) == s
  {
    if s != [] {
      assert s == s[..|s| - 1] + [s[|s| - 1]];
      WithoutAbsent(s[..|s| - 1], id);
    }
  }

  /** Where the last copy is in a log that keeps no other. */
  lemma {:induction false} KeepDrop(s: seq<Entry>, id: nat) returns (j: nat)
    requires Last(s, id).Some?
    ensures j < |Keep(s, id)| && Keep(s, id)[j] == Last(s, id).value && Drop(Keep(s, id), j) == Without(s, id)
  {
    var init := s[..|s| - 1];
    var l := s[|s| - 1];
    if l.id == id {
      j := |Without(init, id)|;
    } else {
      j := KeepDrop(init, id);
      DropSnoc(Keep(s, id), j);
      assert Keep(s, id)[..|Keep(init, id)|] == Keep(init, id);
    }
  }

  lemma {:induction false} KeepAbsent(s: seq<Entry>, id: nat)
    requires Last(s, id).None?
    ensures Keep(s, id) == s && Without(s, id) == s
  {
    LastNone(s, id);
    WithoutAbsent(s, id);
    if s != [] {
      KeepAbsent(s[..|s| - 1], id);
      assert s == s[..|s| - 1] + [s[|s| - 1]];
    }
  }

  lemma KeepNext(s: seq<Entry>, id: nat, i: nat)
    requires i < |s|
    ensures Keep(s[..i + 1], id) == (if s[i].id == id then Without(s[..i], id) else Keep(s[..i], id)) + [s[i]]
    ensures s[i..] == [s[i]] + s[i + 1..]
  {
    hide Keep, Without;
    var t := s[..i + 1];
    assert t[..i] == s[..i] && t[i] == s[i];
    KeepLastStep(t, id);
  }

  lemma KeepLastStep(t: seq<Entry>, id: nat)
    requires t != []
    ensures var init := t[..|t| - 1];
            Keep(t, id) == (if t[|t| - 1].id == id then Without(init, id) else Keep(init, id)) + [t[|t| - 1]]
  {
  }

  lemma DropFront(a: seq<Entry>, b: seq<Entry>, j: nat)
    requires j < |a|
    ensures Drop(a + b, j) == Drop(a, j) + b && (a + b)[j] == a[j]
  {
  }
}
