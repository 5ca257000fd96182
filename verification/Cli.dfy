/** The in-place command-line tokenizer: words are cut out of the line by writing terminators into it. */
module Cli {
  import opened Bytes

  const NUL: byte := 0
  const MAX_ARGS := 12

  predicate IsSpace(c: byte) { c == 32 || 9 <= c <= 13 }

  /** The six bytes of white space: tab, line feed, vertical tab, form feed, carriage return and blank. */
  lemma SpacesAre(c: byte)
    ensures IsSpace(c) <==> c in {9, 10, 11, 12, 13, 32}
  {
  }

  /** A word: the bytes from `start` up to `end`. */
  datatype Span = Span(start: nat, end: nat)

  function SkipSpace(t: seq<byte>, o: nat): (r: nat)
    requires o <= |t|
    ensures o <= r <= |t| && (r < |t| ==> !IsSpace(t[r]))
    ensures forall i :: o <= i < r ==> IsSpace(t[i])
    decreases |t| - o
  {
    if o < |t| && IsSpace(t[o]) then SkipSpace(t, o + 1) else o
  }

  function SkipWord(t: seq<byte>, o: nat): (r: nat)
    requires o <= |t|
    ensures o <= r <= |t| && (r < |t| ==> IsSpace(t[r]))
    ensures forall i :: o <= i < r ==> !IsSpace(t[i])
    decreases |t| - o
  {
    if o < |t| && !IsSpace(t[o]) then SkipWord(t, o + 1) else o
  }

  /** The whitespace-separated words of `t` from `o` on. */
  function Spans(t: seq<byte>, o: nat): seq<Span>
    requires o <= |t|
    decreases |t| - o
  {
    var s := SkipSpace(t, o);
    if s == |t| then []
    else
      var e := SkipWord(t, s);
      [Span(s, e)] + Spans(t, e)
  }

  /** `i` is inside one of the words. */
  ghost predicate Inside(w: seq<Span>, i: nat) {
    exists k :: 0 <= k < |w| && w[k].start <= i < w[k].end
  }

  /** A maximal run of bytes that are not white space. */
  ghost predicate IsWord(t: seq<byte>, o: nat, w: Span) {
    && o <= w.start < w.end <= |t|
    && (forall i :: w.start <= i < w.end ==> !IsSpace(t[i]))
    && (w.end < |t| ==> IsSpace(t[w.end]))
    && (w.start > o ==> IsSpace(t[w.start - 1]))
  }

  /** Word `k` is a maximal run, and lies behind the word before it. */
  ghost predicate WordAt(t: seq<byte>, o: nat, w: seq<Span>, k: nat)
    requires k < |w|
  {
    IsWord(t, o, w[k]) && (k > 0 ==> w[k - 1].end < w[k].start)
  }

  /** Every byte from `o` on that is not white space is in a word. */
  ghost predicate Covered(t: seq<byte>, o: nat, w: seq<Span>) {
    forall i :: o <= i < |t| && !IsSpace(t[i]) ==> Inside(w, i)
  }

  lemma WordBehind(t: seq<byte>, o: nat, head: Span, rest: seq<Span>, k: nat)
    requires IsWord(t, o, head) && 0 < k <= |rest| && WordAt(t, head.end, rest, k - 1)
    ensures WordAt(t, o, [head] + rest, k)
  {
    var w := [head] + rest;
    assert w[k] == rest[k - 1];
    if k > 1 {
      assert w[k - 1] == rest[k - 2];
    }
  }

  lemma WordFirst(t: seq<byte>, o: nat, head: Span, rest: seq<Span>)
    requires IsWord(t, o, head)
    ensures WordAt(t, o, [head] + rest, 0)
    ensures forall i :: head.start <= i < head.end ==> Inside([head] + rest, i)
  {
    assert ([head] + rest)[0] == head;
  }

  lemma InsideBehind(head: Span, rest: seq<Span>, i: nat)
    requires Inside(rest, i)
    ensures Inside([head] + rest, i)
  {
    var k :| 0 <= k < |rest| && rest[k].start <= i < rest[k].end;
    assert ([head] + rest)[k + 1] == rest[k];
  }

  /** The words are exactly the maximal runs of bytes that are not white space, in order. */
  lemma {:induction false} SpansAreWords(t: seq<byte>, o: nat)
    requires o <= |t|
    ensures forall k :: 0 <= k < |Spans(t, o)| ==> WordAt(t, o, Spans(t, o), k)
    ensures Covered(t, o, Spans(t, o))
    decreases |t| - o
  {
    hide WordAt, Inside;
    var s := SkipSpace(t, o);
    if s < |t| {
      var e := SkipWord(t, s);
      var head, rest := Span(s, e), Spans(t, e);
      assert Spans(t, o) == [head] + rest;
      SpansAreWords(t, e);
      hide Spans, SkipSpace, SkipWord;
      assert IsWord(t, o, head);
      WordFirst(t, o, head, rest);
      forall k | 0 <= k < 1 + |rest| ensures WordAt(t, o, [head] + rest, k) {
        if k > 0 {
          WordBehind(t, o, head, rest, k);
        }
      }
      forall i | o <= i < |t| && !IsSpace(t[i]) ensures Inside([head] + rest, i) {
        if i >= e {
          InsideBehind(head, rest, i);
        }
      }
    }
  }

  /** The first terminator of a line. */
  ghost predicate EndsAt(line: seq<byte>, n: nat) {
    n < |line| && line[n] == NUL && forall i :: 0 <= i < n ==> line[i] != NUL
  }

  /** `i` is the byte directly after one of the first `k` words. */
  ghost predicate After(w: seq<Span>, k: nat, i: nat)
    requires k <= |w|
  {
    exists j :: 0 <= j < k && w[j].end == i
  }

  /** The line after the first `k` words have been terminated: nothing else has changed. */
  ghost predicate CutUp(was: seq<byte>, now: seq<byte>, w: seq<Span>, k: nat)
    requires k <= |w|
  {
    && |now| == |was|
    && forall i :: 0 <= i < |was| ==> now[i] == if After(w, k, i) then NUL else was[i]
  }

  lemma CutNone(was: seq<byte>, w: seq<Span>)
    ensures CutUp(was, was, w, 0)
  {
  }

  lemma CutMore(was: seq<byte>, before: seq<byte>, now: seq<byte>, w: seq<Span>, k: nat)
    requires k < |w| && CutUp(was, before, w, k)
    requires w[k].end < |was| && now == before[w[k].end := NUL]
    ensures CutUp(was, now, w, k + 1)
  {
    forall i | 0 <= i < |was| ensures now[i] == if After(w, k + 1, i) then NUL else was[i] {
      AfterMore(w, k, i);
    }
  }

  lemma AfterMore(w: seq<Span>, k: nat, i: nat)
    requires k < |w|
    ensures After(w, k + 1, i) <==> After(w, k, i) || w[k].end == i
  {
    if After(w, k, i) {
      var j :| 0 <= j < k && w[j].end == i;
    }
  }

  lemma SpansHere(t: seq<byte>, o: nat, p: nat)
    requires o <= |t| && p <= |t| && SkipSpace(t, o) == SkipSpace(t, p)
    ensures Spans(t, o) == Spans(t, p)
  {
  }

  lemma SpansNext(t: seq<byte>, p: nat)
    requires p < |t| && IsSpace(t[p])
    ensures Spans(t, p) == Spans(t, p + 1)
  {
    SpansHere(t, p, p + 1);
  }

  /** The byte after one word is never inside another. */
  lemma EndsOutside(t: seq<byte>, j: nat, k: nat)
    requires j < |Spans(t, 0)| && k < |Spans(t, 0)|
    ensures var w := Spans(t, 0); !(w[k].start <= w[j].end < w[k].end)
  {
    hide Spans;
    SpansAreWords(t, 0);
    var w := Spans(t, 0);
    assert WordAt(t, 0, w, j) && WordAt(t, 0, w, k);
  }

  /** What a command sees: argument `k` is the `k`th word of the original line, terminated. */
  lemma ArgumentsAreWords(was: seq<byte>, now: seq<byte>, n: nat, argc: nat, k: nat)
    requires EndsAt(was, n) && k < argc <= |Spans(was[..n], 0)|
    requires CutUp(was, now, Spans(was[..n], 0), argc)
    ensures var w := Spans(was[..n], 0)[k];
            && w.start < w.end <= n
            && EndsAt(now[w.start..], w.end - w.start)
            && now[w.start..w.end] == was[w.start..w.end]
  {
    hide Spans;
    var t := was[..n];
    var w := Spans(t, 0);
    SpansAreWords(t, 0);
    assert WordAt(t, 0, w, k);
    assert After(w, argc, w[k].end);
    forall i | w[k].start <= i < w[k].end ensures now[i] == was[i] {
      if After(w, argc, i) {
        var j :| 0 <= j < argc && w[j].end == i;
        EndsOutside(t, j, k);
      }
    }
  }

  /** The loop over the white space in front of a word. */
  method PassSpace(line: array<byte>, p0: nat, ghost t: seq<byte>) returns (p: nat)
    requires p0 <= |t| < line.Length && line[|t|] == NUL
    requires forall i :: p0 <= i < |t| ==> line[i] == t[i]
    ensures p == SkipSpace(t, p0)
  {
    p := p0;
    while IsSpace(line[p])
      invariant p0 <= p <= |t| && SkipSpace(t, p0) == SkipSpace(t, p)
      decreases |t| - p
    {
      p := p + 1;
    }
  }

  /** The loop over the bytes of a word. */
  method PassWord(line: array<byte>, p0: nat, ghost t: seq<byte>) returns (p: nat)
    requires p0 <= |t| < line.Length && line[|t|] == NUL
    requires forall i :: p0 <= i < |t| ==> line[i] == t[i] != NUL
    ensures p == SkipWord(t, p0)
  {
    p := p0;
    while line[p] != NUL && !IsSpace(line[p])
      invariant p0 <= p <= |t| && SkipWord(t, p0) == SkipWord(t, p)
      decreases |t| - p
    {
      p := p + 1;
    }
  }

  /** The next word is the first of those still to come. */
  lemma NextWord(t: seq<byte>, w: seq<Span>, k: nat, o: nat)
    requires o <= |t| && k <= |w| && w[k..] == Spans(t, o)
    ensures SkipSpace(t, o) == |t| ==> k == |w| && w[k..] == Spans(t, |t|)
    ensures SkipSpace(t, o) < |t| ==>
              var s := SkipSpace(t, o); var e := SkipWord(t, s);
              && k < |w| && w[k] == Span(s, e)
              && w[k + 1..] == Spans(t, e)
              && (e < |t| ==> w[k + 1..] == Spans(t, e + 1))
  {
    var s := SkipSpace(t, o);
    if s < |t| {
      var e := SkipWord(t, s);
      assert w[k..][0] == w[k] && w[k + 1..] == w[k..][1..];
      if e < |t| {
        SpansNext(t, e);
      }
    }
  }

  function Lesser(a: nat, b: nat): nat { if a < b then a else b }

  /** `argv` is modelled by offsets into the line. */
  method ParseArgs(line: array<byte>, ghost n: nat) returns (res: bool, argv: seq<nat>)
    requires EndsAt(line[..], n)
    modifies line
    ensures var w := Spans(old(line[..n]), 0);
            && |argv| == Lesser(MAX_ARGS, |w|) && |argv| <= 12 && (|argv| < 12 ==> |argv| == |w|) && res == (|argv| > 0)
            && (forall k :: 0 <= k < |argv| ==> argv[k] == w[k].start)
            && CutUp(old(line[..]), line[..], w, |argv|)
  {
    hide Spans, CutUp, SkipSpace, SkipWord;
    ghost var was := line[..];
    ghost var t := line[..n];
    ghost var w := Spans(t, 0);
    res, argv := false, [];
    var p := 0;
    CutNone(was, w);
    while |argv| < MAX_ARGS && line[p] != NUL
      invariant p <= n < line.Length && |argv| <= MAX_ARGS && |argv| <= |w|
      invariant w[|argv|..] == Spans(t, p)
      invariant res == (|argv| > 0)
      invariant forall k :: 0 <= k < |argv| ==> argv[k] == w[k].start
      invariant CutUp(was, line[..], w, |argv|)
      invariant forall i :: p <= i < line.Length ==> line[i] == was[i]
      decreases n - p
    {
      ghost var k := |argv|;
      NextWord(t, w, k, p);
      p := PassSpace(line, p, t);
      if line[p] != NUL {
        argv := argv + [p];
        res := true;
        p := PassWord(line, p, t);
        ghost var before := line[..];
        if line[p] != NUL {
          line[p] := NUL;
          p := p + 1;
        }
        assert line[..] == before[w[k].end := NUL];
        CutMore(was, before, line[..], w, k);
      }
    }
    if |argv| < MAX_ARGS {
      NextWord(t, w, |argv|, p);
    }
  }
}
