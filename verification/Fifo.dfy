/** Programmed transfers through the controller's FIFO, in order or with the bytes reversed. */
module Fifo {

  const GENERIC_TIMEOUT := 1_000_000
  const WORD32 := 0x1_0000_0000

  datatype Status = Success | DeviceError | Timeout | Unfinished

  type Byte = b: nat | b < 0x100

  // One 32-bit word, lowest byte first.
  datatype Word = Word(b0: Byte, b1: Byte, b2: Byte, b3: Byte)

  function SwapBytes32(w: Word): Word {
    Word(w.b3, w.b2, w.b1, w.b0)
  }

  function WordBytes(w: Word): (s: seq<Byte>)
    ensures |s| == 4
  {
    [w.b0, w.b1, w.b2, w.b3]
  }

  function Bytes(words: seq<Word>): (s: seq<Byte>)
    ensures |s| == 4 * |words|
  {
    if words == [] then [] else Bytes(words[..|words| - 1]) + WordBytes(words[|words| - 1])
  }

  function Reverse(s: seq<Byte>): (r: seq<Byte>)
    ensures |r| == |s|
  {
    seq(|s|, i requires 0 <= i < |s| => s[|s| - 1 - i])
  }

  lemma ReverseTwice(s: seq<Byte>)
    ensures Reverse(Reverse(s)) == s
  {
  }

  lemma BytesNext(words: seq<Word>, k: nat)
    requires k < |words|
    ensures Bytes(words[..k + 1]) == Bytes(words[..k]) + WordBytes(words[k])
    ensures Reverse(Bytes(words[..k + 1])) == WordBytes(SwapBytes32(words[k])) + Reverse(Bytes(words[..k]))
  {
    assert words[..k + 1][..k] == words[..k];
  }

  // How the bytes of a transfer lie in memory.
  function Layout(bytes: seq<Byte>, useBE: bool): seq<Byte> {
    if useBE then Reverse(bytes) else bytes
  }

  /** Byte by byte: in order, the words follow each other, lowest byte first; reversed, the first byte of
      the stream lies last. */
  lemma {:induction false} ByteAt(words: seq<Word>, i: nat)
    requires i < |words|
    ensures Bytes(words)[4 * i] == words[i].b0 && Bytes(words)[4 * i + 1] == words[i].b1
    ensures Bytes(words)[4 * i + 2] == words[i].b2 && Bytes(words)[4 * i + 3] == words[i].b3
    decreases |words|
  {
    if i < |words| - 1 {
      ByteAt(words[..|words| - 1], i);
    }
  }

  lemma LayoutAt(bytes: seq<Byte>, useBE: bool, k: nat)
    requires k < |bytes|
    ensures |Layout(bytes, useBE)| == |bytes|
    ensures Layout(bytes, useBE)[k] == if useBE then bytes[|bytes| - 1 - k] else bytes[k]
  {
  }

  // ----- reading

  // One look at the controller while reading: its interrupt bits and how many words its FIFO is
  // ready to deliver.
  datatype ReadPoll = ReadPoll(rxdr: bool, dto: bool, dataError: bool, filled: nat)

  function Min(a: nat, b: nat): nat {
    if a < b then a else b
  }

  method StoreWord(data: array<Byte>, at: nat, w: Word)
    requires at + 4 <= data.Length
    modifies data
    ensures data[..] == old(data[..at]) + WordBytes(w) + old(data[at + 4..])
  {
    data[at] := w.b0;
    data[at + 1] := w.b1;
    data[at + 2] := w.b2;
    data[at + 3] := w.b3;
  }

  // The words received so far are in place.
  ghost predicate Received(data: seq<Byte>, words: seq<Word>, k: nat, useBE: bool)
    requires k <= |words| && |data| == 4 * |words|
  {
    if useBE then data[|data| - 4 * k..] == Reverse(Bytes(words[..k]))
    else data[..4 * k] == Bytes(words[..k])
  }

  lemma StoreNext(before: seq<Byte>, after: seq<Byte>, words: seq<Word>, k: nat, useBE: bool)
    requires k < |words| && |before| == |after| == 4 * |words| && Received(before, words, k, useBE)
    requires !useBE ==> after == before[..4 * k] + WordBytes(words[k]) + before[4 * k + 4..]
    requires useBE ==>
      var at := |before| - 4 * k - 4;
      after == before[..at] + WordBytes(SwapBytes32(words[k])) + before[at + 4..]
    ensures Received(after, words, k + 1, useBE)
  {
    BytesNext(words, k);
  }

  // Subtraction on 32-bit words.
  function Minus4(x: nat): nat {
    (x - 4) % WORD32
  }

  // (x + 3) & ~3
  function RoundUp(x: nat): nat {
    (x + 3) / 4 * 4
  }

  // The offset that runs down from the last word of the buffer, after some words.
  function Down(length: nat, words: nat): nat {
    (length - 4 - 4 * words) % WORD32
  }

  lemma DownNext(length: nat, words: nat)
    requires length < WORD32
    ensures 4 * words + 4 <= length ==> Down(length, words) == length - 4 - 4 * words
    ensures Minus4(Down(length, words)) == Down(length, words + 1)
  {
  }

  lemma DownFirst(words: nat)
    ensures RoundUp(4 * words) == 4 * words && Minus4(4 * words) == Down(4 * words, 0)
  {
  }

  // The offsets after k words: one of the two has moved.
  ghost predicate Offsets(ascending: nat, descending: nat, length: nat, k: nat, useBE: bool) {
    && ascending == (if useBE then 0 else 4 * k)
    && descending == Down(length, if useBE then k else 0)
  }

  // The FIFO has words for the driver to take.
  predicate Brings(p: ReadPoll) {
    (p.rxdr || p.dto) && p.filled > 0
  }

  // From the n-th poll on, the FIFO stays empty for as long as the driver waits.
  ghost predicate Starved(polls: nat -> ReadPoll, n: nat) {
    forall m: nat :: n <= m < n + GENERIC_TIMEOUT - 1 ==> !Brings(polls(m))
  }

  /** Receives a stream of words, the FIFO being polled as often as it takes. A successful read has
      stored the stream, or its exact byte reversal. A read fails only when the controller reports an
      error, or the FIFO stays empty for too long. */
  method ReadFifo(data: array<Byte>, useBE: bool, stream: seq<Word>, polls: nat -> ReadPoll)
    returns (status: Status)
    requires data.Length == 4 * |stream| < WORD32
    modifies data
    ensures status == Success || status == DeviceError || status == Timeout
    ensures status == Success ==> data[..] == Layout(Bytes(stream), useBE)
    ensures status == DeviceError ==> exists n: nat :: polls(n).dataError
    ensures status == Timeout ==> exists n: nat :: Starved(polls, n)
  {
    hide Received, Down, Minus4, RoundUp, Layout, Bytes, Offsets;
    NoOffsets(|stream|, useBE);
    NothingReceived(data[..], stream, useBE);
    DownFirst(|stream|);
    var received, timeout := 0, GENERIC_TIMEOUT;
    var ascending, descending: nat := 0, Minus4(RoundUp(data.Length));
    var poll: nat, delivered := 0, 0;
    ghost var last: nat := 0;
    while true
      invariant last <= poll && forall m: nat :: last <= m < poll ==> !Brings(polls(m))
      invariant timeout >= GENERIC_TIMEOUT - 1 - (poll - last)
      invariant received == 4 * delivered && 0 <= delivered <= |stream|
      invariant Received(data[..], stream, delivered, useBE)
      invariant Offsets(ascending, descending, data.Length, delivered, useBE)
      invariant 1 <= timeout <= GENERIC_TIMEOUT
      decreases data.Length - received, timeout
    {
      var p := polls(poll);
      poll := poll + 1;
      if p.rxdr || p.dto {
        // The card sends no more than the transfer is long.
        var fifoWords := Min(p.filled, |stream| - delivered);
        if fifoWords * 4 != 0 || received >= data.Length {
          ascending, descending := DrainFifo(data, useBE, stream, fifoWords, delivered, ascending, descending);
          received, delivered := received + fifoWords * 4, delivered + fifoWords;
          timeout, last := GENERIC_TIMEOUT, poll;
        }
      }
      if p.dataError {
        assert polls(poll - 1).dataError;
        return DeviceError;
      }
      timeout := timeout - 1;
      if timeout == 0 {
        assert Starved(polls, last);
        return Timeout;
      }
      if received >= data.Length {
        break;
      }
    }
    AllReceived(data[..], stream, useBE);
    return Success;
  }

  lemma NoOffsets(words: nat, useBE: bool)
    ensures Offsets(0, Down(4 * words, 0), 4 * words, 0, useBE)
  {
  }

  lemma NothingReceived(data: seq<Byte>, words: seq<Word>, useBE: bool)
    requires |data| == 4 * |words|
    ensures Received(data, words, 0, useBE)
  {
  }

  lemma AllReceived(data: seq<Byte>, words: seq<Word>, useBE: bool)
    requires |data| == 4 * |words| && Received(data, words, |words|, useBE)
    ensures data == Layout(Bytes(words), useBE)
  {
    assert words[..|words|] == words;
  }

  // Takes the words that the FIFO holds; start words were taken before.
  method DrainFifo(data: array<Byte>, useBE: bool, stream: seq<Word>, fifoWords: nat, start: nat,
                   ascending0: nat, descending0: nat)
    returns (ascending: nat, descending: nat)
    requires data.Length == 4 * |stream| < WORD32 && start + fifoWords <= |stream|
    requires Received(data[..], stream, start, useBE)
    requires Offsets(ascending0, descending0, data.Length, start, useBE)
    modifies data
    ensures Received(data[..], stream, start + fifoWords, useBE)
    ensures Offsets(ascending, descending, data.Length, start + fifoWords, useBE)
  {
    hide Received, Down, RoundUp, Minus4;
    ascending, descending := ascending0, descending0;
    var index, taken := 0, 0;
    var count := RoundUp(Min(fifoWords * 4, data.Length));
    DownFirst(fifoWords);
    while index < count
      invariant index == 4 * taken && 0 <= taken <= fifoWords
      invariant Received(data[..], stream, start + taken, useBE)
      invariant Offsets(ascending, descending, data.Length, start + taken, useBE)
    {
      ascending, descending := TakeWord(data, useBE, stream, start + taken, ascending, descending);
      index := index + 4;
      taken := taken + 1;
    }
  }

  method TakeWord(data: array<Byte>, useBE: bool, stream: seq<Word>, k: nat, ascending: nat, descending: nat)
    returns (newAscending: nat, newDescending: nat)
    requires data.Length == 4 * |stream| < WORD32 && k < |stream|
    requires Received(data[..], stream, k, useBE)
    requires Offsets(ascending, descending, data.Length, k, useBE)
    modifies data
    ensures Received(data[..], stream, k + 1, useBE)
    ensures Offsets(newAscending, newDescending, data.Length, k + 1, useBE)
  {
    hide Received, Down, Minus4;
    DownNext(data.Length, k);
    newAscending, newDescending := ascending, descending;
    ghost var before := data[..];
    if useBE {
      StoreWord(data, descending, SwapBytes32(stream[k]));
      newDescending := Minus4(descending);
    } else {
      StoreWord(data, ascending, stream[k]);
      newAscending := ascending + 4;
    }
    StoreNext(before, data[..], stream, k, useBE);
  }

  // ----- writing

  // One look at the controller while writing.
  datatype WritePoll = WritePoll(txdr: bool, full: bool, dataError: bool)

  function LoadWord(data: seq<Byte>, at: nat): Word
    requires at + 4 <= |data|
  {
    Word(data[at], data[at + 1], data[at + 2], data[at + 3])
  }

  // The words sent so far are the beginning of the transfer.
  ghost predicate Sent(data: seq<Byte>, words: seq<Word>, useBE: bool) {
    && 4 * |words| <= |data|
    && Bytes(words) == Layout(data, useBE)[..4 * |words|]
  }

  lemma SendNext(data: seq<Byte>, words: seq<Word>, useBE: bool, w: Word)
    requires Sent(data, words, useBE) && 4 * |words| + 4 <= |data|
    requires !useBE ==> w == LoadWord(data, 4 * |words|)
    requires useBE ==> w == SwapBytes32(LoadWord(data, |data| - 4 * |words| - 4))
    ensures Sent(data, words + [w], useBE)
  {
    var n, out := 4 * |words|, Layout(data, useBE);
    NextWord(data, useBE, n, w);
    BytesAppend(words, w);
    hide Bytes, Layout;
    assert out[..n + 4] == out[..n] + out[n..n + 4];
  }

  lemma NextWord(data: seq<Byte>, useBE: bool, n: nat, w: Word)
    requires n + 4 <= |data|
    requires w == if useBE then SwapBytes32(LoadWord(data, |data| - n - 4)) else LoadWord(data, n)
    ensures |Layout(data, useBE)| == |data| && Layout(data, useBE)[n..n + 4] == WordBytes(w)
  {
    var out := Layout(data, useBE);
    assert out[n] == w.b0;
    assert out[n + 1] == w.b1;
    assert out[n + 2] == w.b2;
    assert out[n + 3] == w.b3;
  }

  lemma BytesAppend(words: seq<Word>, w: Word)
    ensures Bytes(words + [w]) == Bytes(words) + WordBytes(w)
  {
    assert (words + [w])[..|words|] == words;
  }

  // From the n-th poll on, the controller asks for nothing for as long as the driver waits.
  ghost predicate Unasked(polls: seq<WritePoll>, n: int) {
    && 0 <= n <= |polls| - (GENERIC_TIMEOUT - 1)
    && forall m :: n <= m < n + GENERIC_TIMEOUT - 1 ==> !polls[m].txdr
  }

  /** Sends a buffer, as far as the polls go. A successful write has sent the buffer, or its exact
      byte reversal. A write fails only when the controller reports an error, or asks for nothing for
      too long. */
  method WriteFifo(data: array<Byte>, useBE: bool, polls: seq<WritePoll>)
    returns (status: Status, sent: seq<Word>)
    requires data.Length % 4 == 0 && data.Length < WORD32
    ensures Sent(data[..], sent, useBE)
    ensures status == Success ==> Bytes(sent) == Layout(data[..], useBE)
    ensures status == DeviceError ==> exists n :: 0 <= n < |polls| && polls[n].dataError
    ensures status == Timeout ==> exists n :: Unasked(polls, n)
  {
    hide Down, Minus4, RoundUp, Sent, Layout, Bytes;
    NothingSent(data[..], useBE);
    DownFirst(data.Length / 4);
    sent := [];
    var received, timeout := 0, GENERIC_TIMEOUT;
    var ascending, descending: nat := 0, Minus4(RoundUp(data.Length));
    var k := 0;
    ghost var last := 0;
    while true
      invariant 0 <= last <= k <= |polls| && 1 <= timeout <= GENERIC_TIMEOUT
      invariant forall m :: last <= m < k ==> !polls[m].txdr
      invariant timeout >= GENERIC_TIMEOUT - 1 - (k - last)
      invariant Sent(data[..], sent, useBE) && received == 4 * |sent| <= data.Length
      invariant Offsets(ascending, descending, data.Length, |sent|, useBE)
      decreases |polls| - k
    {
      if k == |polls| {
        return Unfinished, sent;
      }
      var p := polls[k];
      k := k + 1;
      if p.txdr {
        while !p.full && received < data.Length && p.txdr
          invariant 0 < k <= |polls| && p == polls[k - 1]
          invariant Sent(data[..], sent, useBE) && received == 4 * |sent| <= data.Length
          invariant Offsets(ascending, descending, data.Length, |sent|, useBE)
          decreases |polls| - k
        {
          ascending, descending, sent := SendWord(data, useBE, sent, ascending, descending);
          received := received + 4;
          if k == |polls| {
            return Unfinished, sent;
          }
          p := polls[k];
          k := k + 1;
        }
        timeout, last := GENERIC_TIMEOUT, k;
      }
      if p.dataError {
        assert polls[k - 1].dataError;
        return DeviceError, sent;
      }
      timeout := timeout - 1;
      if timeout == 0 {
        assert Unasked(polls, last);
        return Timeout, sent;
      }
      if received >= data.Length {
        break;
      }
    }
    AllSent(data[..], sent, useBE);
    return Success, sent;
  }

  lemma NothingSent(data: seq<Byte>, useBE: bool)
    ensures Sent(data, [], useBE)
  {
  }

  lemma AllSent(data: seq<Byte>, words: seq<Word>, useBE: bool)
    requires Sent(data, words, useBE) && 4 * |words| == |data|
    ensures Bytes(words) == Layout(data, useBE)
  {
  }

  method SendWord(data: array<Byte>, useBE: bool, sent: seq<Word>, ascending: nat, descending: nat)
    returns (newAscending: nat, newDescending: nat, newSent: seq<Word>)
    requires data.Length < WORD32 && 4 * |sent| + 4 <= data.Length
    requires Sent(data[..], sent, useBE) && Offsets(ascending, descending, data.Length, |sent|, useBE)
    ensures |newSent| == |sent| + 1 && Sent(data[..], newSent, useBE)
    ensures Offsets(newAscending, newDescending, data.Length, |sent| + 1, useBE)
  {
    hide Down, Minus4, Sent;
    DownNext(data.Length, |sent|);
    newAscending, newDescending := ascending, descending;
    var w;
    if useBE {
      w := SwapBytes32(LoadWord(data[..], descending));
      newDescending := Minus4(descending);
    } else {
      w := LoadWord(data[..], ascending);
      newAscending := ascending + 4;
    }
    SendNext(data[..], sent, useBE, w);
    newSent := sent + [w];
  }

  /** What was written reversed and is read reversed comes back as it was. */
  method WriteThenRead(data: array<Byte>, back: array<Byte>, useBE: bool,
                       writePolls: seq<WritePoll>, readPolls: nat -> ReadPoll) returns (status: Status)
    requires data != back && data.Length == back.Length && data.Length % 4 == 0 && data.Length < WORD32
    modifies back
    ensures status == Success ==> back[..] == data[..]
  {
    var sent;
    status, sent := WriteFifo(data, useBE, writePolls);
    if status == Success {
      status := ReadFifo(back, useBE, sent, readPolls);
      ReverseTwice(data[..]);
    }
  }
}
