/** Sending a byte string over CAN: cut into frames of at most eight bytes, packed into words, nothing lost. */
module CanSend {
  import opened Bytes
  import opened Frames

  const FRAME_ID: bv29 := 0xD3

  /** The smallest length code whose frame holds `len` bytes. */
  function BytesToDlc(len: nat): bv4 {
    if len == 0 then 0
    else if len == 1 then 1
    else if len == 2 then 2
    else if len == 3 then 3
    else if len == 4 then 4
    else if len == 5 then 5
    else if len == 6 then 6
    else if len == 7 then 7
    else if len == 8 then 8
    else if len <= 12 then 9
    else if len <= 16 then 10
    else if len <= 20 then 11
    else if len <= 24 then 12
    else if len <= 32 then 13
    else if len <= 48 then 14
    else 15
  }

  /** The code chosen holds the bytes, and every code that does announces at least as many. */
  lemma DlcIsLeast(len: nat, other: bv4)
    requires len <= 64
    ensures len <= DlcBytes(BytesToDlc(len))
    ensures len <= DlcBytes(other) ==> DlcBytes(BytesToDlc(len)) <= DlcBytes(other)
    ensures len <= 8 ==> DlcBytes(BytesToDlc(len)) == len
  {
  }

  function Limiter(n: nat, max: nat): nat { if n > max then max else n }

  /** A frame handed to the controller: two header words, the payload words, and whether it was asked to send them. */
  datatype Frame = Frame(head: bv32, control: bv32, words: seq<bv32>, requested: bool) {
    /** What a receiver decodes. */
    function Header(): RxHeader { Decode(head, control) }

    function Len(): nat { DlcBytes(Header().dlc) }
  }

  /** Whether a transmit buffer is found for a frame, and what its transfers report. */
  datatype Report = Report(buffer: bool, written: bool, requested: bool)

  /** The header of a standard frame. */
  function StdHeader(id: bv29, dlc: bv4): TxHeader { TxHeader(id, 0, 0, 0, dlc, 0, 0, 0, 0) }

  /**
   The header words are those of a classic standard data frame with this id and length: no other field of either word
   is set, so it is no remote request, has no flexible data rate and asks for no event.
   */
  ghost predicate IsData(f: Frame, id: bv29, len: nat) {
    && Value(f.head) == 0x4_0000 * IdValue(id) && Value(f.control) == 0x1_0000 * len
    && f.Header() == RxHeader(id, 0, 0, 0, 0, f.Header().dlc, 0, 0, 0, 0) && f.Len() == len
  }

  lemma IdBelow(id: bv29)
    requires id < 0x800
    ensures IdValue(id) < 0x800
  {
  }

  lemma ShortDlc(len: nat)
    requires 1 <= len <= 8
    ensures DlcValue(BytesToDlc(Limiter(len, 8))) == len && DlcBytes(BytesToDlc(Limiter(len, 8))) == len
  {
  }

  /** The header built for a standard frame. */
  lemma StdIsData(id: bv29, len: nat, words: seq<bv32>, requested: bool)
    requires id < 0x800 && 1 <= len <= 8
    ensures var h := StdHeader(id, BytesToDlc(Limiter(len, 8)));
            IsData(Frame(HeadWord(h), ControlWord(h), words, requested), id, len)
  {
    hide Decode, HeadWord, ControlWord, Value, IdValue, DlcValue, DlcBytes, BytesToDlc;
    var h := StdHeader(id, BytesToDlc(Limiter(len, 8)));
    HeaderValues(h);
    HeaderRoundTrip(h);
    StdId(id);
    IdBelow(id);
    ShortDlc(len);
  }

  /** The payload a receiver unpacks. */
  function Payload(f: Frame): seq<bv8>
    requires (f.Len() + 3) / 4 <= |f.words|
  {
    Unpack(f.words, f.Len())
  }

  /** The bytes of the `k`th frame. */
  function Chunk(data: seq<bv8>, k: nat): seq<bv8>
    requires 8 * k <= |data|
  {
    if |data| - 8 * k <= 8 then data[8 * k..] else data[8 * k..8 * k + 8]
  }

  function FrameCount(n: nat): nat { (n + 7) / 8 }

  /** A frame that carries `chunk` in the words of an eight-byte buffer. */
  ghost predicate Carries(f: Frame, chunk: seq<bv8>) {
    && 1 <= |chunk| <= 8 && f.Len() == |chunk| && IsData(f, 0xD3, |chunk|)
    && |f.words| == (|chunk| + 3) / 4 && Payload(f) == chunk
  }

  /** Frames, from the first on, carry the chunks of `data`. */
  ghost predicate CarriesAll(fs: seq<Frame>, data: seq<bv8>) {
    8 * |fs| <= |data| + 7 &&
    forall k :: 0 <= k < |fs| ==> 8 * k < |data| && Carries(fs[k], Chunk(data, k))
  }

  /** The frames that were handed to the controller, of those tried, carry their chunks of `data`. */
  ghost predicate Offers(fs: seq<Option<Frame>>, data: seq<bv8>) {
    8 * |fs| <= |data| + 7 &&
    forall k :: 0 <= k < |fs| ==> 8 * k < |data| && (fs[k].Some? ==> Carries(fs[k].value, Chunk(data, k)))
  }

  class Port {
    /** What happens to the frames, one after the other. */
    const reports: nat -> Report
    /** Frames tried; none where there was no transmit buffer, and nothing was handed to the controller. */
    var sent: seq<Option<Frame>>

    constructor (reports: nat -> Report)
      ensures this.reports == reports && sent == []
    {
      this.reports := reports;
      sent := [];
    }

    /** Frame `k` has a buffer, and its transfers report success. */
    predicate Good(k: nat) { reports(k).buffer && reports(k).written && reports(k).requested }

    /** From frame `n` on, exactly the frames that had a buffer were handed over. */
    predicate Buffered(n: nat)
      reads this
    {
      forall k :: n <= k < |sent| ==> (sent[k].Some? <==> reports(k).buffer)
    }

    /** The word loop of the transmit-buffer write: four bytes at a time from the eight-byte buffer. */
    method BufferWords(data64: seq<bv8>, n: nat) returns (words: seq<bv32>)
      requires |data64| == 8 && n <= 8
      ensures |words| == (n + 3) / 4 && Unpack(words, n) == data64[..n]
      ensures forall k :: 0 <= k < |words| ==>
                Value(words[k]) == ByteAt(data64, 4 * k, 8) + 0x100 * ByteAt(data64, 4 * k + 1, 8) +
                                   0x1_0000 * ByteAt(data64, 4 * k + 2, 8) + 0x100_0000 * ByteAt(data64, 4 * k + 3, 8)
    {
      words := [];
      var i := 0;
      while i < n
        invariant i % 4 == 0 && i <= n + 3 && |words| == i / 4
        invariant forall k :: 0 <= k < |words| ==> words[k] == PackWord(data64, 4 * k, 8)
      {
        var word := PackFour(data64[i], data64[i + 1], data64[i + 2], data64[i + 3]);
        PackFourIs(data64, i);
        words := words + [word];
        i := i + 4;
      }
      BufferRoundTrip(data64, words, n);
      hide Value, ByteAt, PackWord, Unpack;
      forall k | 0 <= k < |words|
        ensures Value(words[k]) == ByteAt(data64, 4 * k, 8) + 0x100 * ByteAt(data64, 4 * k + 1, 8) +
                                   0x1_0000 * ByteAt(data64, 4 * k + 2, 8) + 0x100_0000 * ByteAt(data64, 4 * k + 3, 8)
      {
        PackedValue(data64, 4 * k, 8);
      }
    }

    /**
     Builds a standard frame, writes it to transmit buffer 0 if that exists and, if the write reports success,
     requests its transmission.
     */
    method SendStd(id: bv29, data64: seq<bv8>, len: nat) returns (res: bool)
      requires |data64| == 8 && 1 <= len <= 8 && id < 0x800
      modifies `sent
      ensures |sent| == |old(sent)| + 1 && sent[..|old(sent)|] == old(sent)
      ensures var r := reports(|old(sent)|);
              res == Good(|old(sent)|) && (res <==> r.buffer && r.written && r.requested)
      ensures var f := sent[|old(sent)|];
              && (f.Some? <==> reports(|old(sent)|).buffer)
              && (f.Some? ==>
                    && IsData(f.value, id, len)
                    && f.value.requested == reports(|old(sent)|).written
                    && |f.value.words| == (len + 3) / 4 && Payload(f.value) == data64[..len])
    {
      hide DlcBytes, Decode, HeadWord, ControlWord, Unpack, IsData, StdHeader, BytesToDlc, ByteAt, Value;
      ShortDlc(len);
      var h := StdHeader(id, BytesToDlc(Limiter(len, 8)));
      StdDlc(id, BytesToDlc(Limiter(len, 8)));
      var report := reports(|sent|);
      if !report.buffer {
        sent := sent + [None];
        return false;
      }
      var words := BufferWords(data64, DlcBytes(h.dlc));
      res := report.written;
      sent := sent + [Some(Frame(HeadWord(h), ControlWord(h), words, res))];
      StdIsData(id, len, words, res);
      DataLength(Frame(HeadWord(h), ControlWord(h), words, res), id, len);
      if res {
        res := report.requested;
      }
    }

    /** Copies `n` bytes from `at` into an eight-byte buffer and sends them as the next frame. */
    method SendPart(data: seq<bv8>, at: nat, n: nat, ghost before: seq<Option<Frame>>) returns (res: bool)
      requires at % 8 == 0 && 1 <= n <= 8 && at + n <= |data| && (n == 8 || at + n == |data|)
      requires before <= sent && |sent| == |before| + at / 8 && Offers(sent[|before|..], data)
      modifies `sent
      ensures before <= sent && |sent| == |before| + at / 8 + 1 && Offers(sent[|before|..], data)
      ensures res == Good(|sent| - 1) && (sent[|sent| - 1].Some? <==> reports(|sent| - 1).buffer)
      ensures sent[..|sent| - 1] == old(sent)
    {
      hide DlcBytes, Unpack, Chunk, Decode;
      ghost var now := sent;
      var data64 := data[at..at + n] + seq(8 - n, _ => 0);
      assert data64[..n] == data[at..at + n];
      res := SendStd(FRAME_ID, data64, n);
      ChunkIs(data, at, n);
      OffersMore(now[|before|..], sent[|now|], data);
      assert sent == now + [sent[|now|]];
      assert sent[|before|..] == now[|before|..] + [sent[|now|]];
    }

    /** The segmentation loop, with its 16-bit counters; success if every frame reports it. */
    method CanSend(data: seq<bv8>) returns (outRes: bool)
      requires |data| <= 0xFFFF
      modifies `sent
      ensures old(sent) <= sent && |sent| == |old(sent)| + FrameCount(|data|)
      ensures Offers(sent[|old(sent)|..], data)
      ensures outRes <==> forall k :: |old(sent)| <= k < |sent| ==> Good(k)
      ensures Buffered(|old(sent)|)
    {
      hide Offers, Good;
      ghost var before := sent;
      OffersNone(data);
      assert sent[|before|..] == [];
      outRes := true;
      var res;
      var len := |data|;
      var i, txLen := 0, 0;
      if 8 < len {
        while i < len - 8
          invariant i == txLen && i % 8 == 0 && i <= len
          invariant before <= sent && |sent| == |before| + i / 8
          invariant Offers(sent[|before|..], data)
          invariant outRes <==> forall k :: |before| <= k < |sent| ==> Good(k)
          invariant Buffered(|before|)
        {
          res := SendPart(data, i, 8, before);
          if !res {
            outRes := false;
          }
          i := (i + 8) % 0x1_0000;
          txLen := (txLen + 8) % 0x1_0000;
        }
      }
      var rem := len - txLen;
      if 0 < rem {
        res := SendPart(data, txLen, rem, before);
        if !res {
          outRes := false;
        }
        txLen := (txLen + rem) % 0x1_0000;
      }
    }
  }

  lemma StdDlc(id: bv29, dlc: bv4)
    ensures StdHeader(id, dlc).dlc == dlc
  {
  }

  lemma DataLength(f: Frame, id: bv29, len: nat)
    requires IsData(f, id, len)
    ensures f.Len() == len
  {
  }

  lemma StdId(id: bv29)
    requires id < 0x800
    ensures id & 0x7FF == id
  {
  }

  lemma OffersNone(data: seq<bv8>)
    ensures Offers([], data)
  {
  }

  lemma OffersMore(fs: seq<Option<Frame>>, f: Option<Frame>, data: seq<bv8>)
    requires Offers(fs, data) && 8 * |fs| < |data| && (f.Some? ==> Carries(f.value, Chunk(data, |fs|)))
    ensures Offers(fs + [f], data)
  {
    hide Carries, Chunk;
  }

  lemma PackFourIs(data64: seq<bv8>, i: nat)
    requires |data64| == 8 && i + 4 <= 8
    ensures PackFour(data64[i], data64[i + 1], data64[i + 2], data64[i + 3]) == PackWord(data64, i, 8)
  {
    hide Place, PackWord;
    FillFour(data64, i, 8);
  }

  lemma BufferRoundTrip(data64: seq<bv8>, words: seq<bv32>, n: nat)
    requires |data64| == 8 && n <= 8 && |words| == (n + 3) / 4
    requires forall k :: 0 <= k < |words| ==> words[k] == PackWord(data64, 4 * k, 8)
    ensures Unpack(words, n) == data64[..n]
  {
    hide Lane, PackWord;
    forall i | 0 <= i < n ensures Unpack(words, n)[i] == data64[i] {
      PackedLane(data64, 4 * (i / 4), 8, i % 4);
    }
  }

  lemma ChunkIs(data: seq<bv8>, i: nat, n: nat)
    requires i % 8 == 0 && 1 <= n <= 8 && i + n <= |data| && (n == 8 || i + n == |data|)
    ensures Chunk(data, i / 8) == data[i..i + n]
  {
  }

  /** Every frame has the words its length code announces. */
  predicate HaveWords(fs: seq<Frame>) {
    forall k :: 0 <= k < |fs| ==> (fs[k].Len() + 3) / 4 <= |fs[k].words|
  }

  /** The payloads one after the other. */
  function Join(fs: seq<Frame>): seq<bv8>
    requires HaveWords(fs)
  {
    if fs == [] then [] else Join(fs[..|fs| - 1]) + Payload(fs[|fs| - 1])
  }

  lemma CarriesInit(fs: seq<Frame>, data: seq<bv8>)
    requires CarriesAll(fs, data) && fs != []
    ensures CarriesAll(fs[..|fs| - 1], data) && 8 * (|fs| - 1) < |data|
    ensures Carries(fs[|fs| - 1], Chunk(data, |fs| - 1))
  {
    hide Carries, Chunk;
  }

  lemma ChunkNext(data: seq<bv8>, k: nat)
    requires 8 * k < |data|
    ensures data[..8 * k] + Chunk(data, k) == data[..if 8 * (k + 1) <= |data| then 8 * (k + 1) else |data|]
  {
  }

  lemma CarriesWords(fs: seq<Frame>, data: seq<bv8>)
    requires CarriesAll(fs, data)
    ensures HaveWords(fs)
  {
    hide DlcBytes, Chunk, Payload, Decode;
    forall k | 0 <= k < |fs| ensures (fs[k].Len() + 3) / 4 <= |fs[k].words| {
      assert Carries(fs[k], Chunk(data, k));
    }
  }

  lemma JoinLast(fs: seq<Frame>)
    requires HaveWords(fs) && fs != []
    ensures Join(fs) == Join(fs[..|fs| - 1]) + Payload(fs[|fs| - 1])
  {
  }

  /** The first frames carry the first bytes. */
  lemma {:induction false} JoinPrefix(fs: seq<Frame>, data: seq<bv8>)
    requires CarriesAll(fs, data)
    ensures HaveWords(fs)
    ensures Join(fs) == data[..if 8 * |fs| <= |data| then 8 * |fs| else |data|]
  {
    CarriesWords(fs, data);
    if fs != [] {
      hide DlcBytes, Unpack, Decode, CarriesAll, Payload, Join, Chunk, HaveWords;
      var n := |fs| - 1;
      CarriesInit(fs, data);
      JoinPrefix(fs[..n], data);
      JoinLast(fs);
      ChunkNext(data, n);
    }
  }

  /** Every frame was handed to the controller. */
  predicate AllSome(fs: seq<Option<Frame>>) {
    forall k :: 0 <= k < |fs| ==> fs[k].Some?
  }

  function Values(fs: seq<Option<Frame>>): (r: seq<Frame>)
    requires AllSome(fs)
    ensures |r| == |fs| && forall k :: 0 <= k < |fs| ==> r[k] == fs[k].value
  {
    seq(|fs|, k requires 0 <= k < |fs| => fs[k].value)
  }

  /**
   Lossless: if every frame had a buffer, as when the call reports success, the payloads of all frames, in order, are
   the bytes that were to be sent.
   */
  lemma SendIsLossless(tried: seq<Option<Frame>>, data: seq<bv8>)
    requires Offers(tried, data) && |tried| == FrameCount(|data|) && AllSome(tried)
    ensures var fs := Values(tried);
            && HaveWords(fs) && Join(fs) == data
            && forall k :: 0 <= k < |fs| ==> 1 <= fs[k].Len() <= 8 && (k < |fs| - 1 ==> fs[k].Len() == 8)
  {
    hide DlcBytes, Unpack, Decode, Join, Payload;
    var fs := Values(tried);
    ValuesCarry(tried, data);
    JoinPrefix(fs, data);
    hide HaveWords, Offers, CarriesAll;
    forall k | 0 <= k < |fs| ensures 1 <= fs[k].Len() <= 8 && (k < |fs| - 1 ==> fs[k].Len() == 8) {
      FrameLength(fs, data, k);
    }
  }

  lemma ValuesCarry(tried: seq<Option<Frame>>, data: seq<bv8>)
    requires Offers(tried, data) && AllSome(tried)
    ensures CarriesAll(Values(tried), data)
  {
    hide Carries, Chunk;
  }

  lemma FrameLength(fs: seq<Frame>, data: seq<bv8>, k: nat)
    requires CarriesAll(fs, data) && |fs| == FrameCount(|data|) && k < |fs|
    ensures 1 <= fs[k].Len() <= 8 && (k < |fs| - 1 ==> fs[k].Len() == 8)
  {
    hide DlcBytes, Unpack, Decode, Payload;
    assert Carries(fs[k], Chunk(data, k));
  }
}
