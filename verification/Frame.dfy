/**
 Messages framed by a four byte little-endian length: encoding, parsing a buffer, and a growing buffer that is
 fed with pieces of a stream and compacted from time to time.
 */
module Frame {
  import opened Bits

  type Bytes = seq<nat>

  ghost predicate AreBytes(s: Bytes) {
    forall i :: 0 <= i < |s| ==> s[i] < 256
  }

  const LENGTH_LIMIT: nat := 0x1_0000_0000

  /** `put_length` */
  function PutLength(len: nat): (b: Bytes)
    ensures |b| == 4
  {
    [BitAnd(len, 0xff), BitAnd(Shr(len, 8), 0xff), BitAnd(Shr(len, 16), 0xff), BitAnd(Shr(len, 24), 0xff)]
  }

  /** `get_length` */
  function GetLength(b: Bytes): nat
    requires |b| >= 4
  {
    BitOr(BitOr(BitOr(Shl(BitAnd(b[3], 0xff), 24), Shl(BitAnd(b[2], 0xff), 16)), Shl(BitAnd(b[1], 0xff), 8)), BitAnd(b[0], 0xff))
  }

  lemma AndByte(x: nat)
    ensures BitAnd(x, 0xff) == x % 256
  {
    hide BitAnd;
    assert Pow2(8) == 256;
    AndMask(x, 8);
  }

  /** A word shifted up by `k` bits has nothing in common with a word of `k` bits. */
  lemma {:induction false} OrIsSum(a: nat, k: nat, b: nat)
    requires b < Pow2(k)
    ensures BitOr(Shl(a, k), b) == Shl(a, k) + b
    decreases k
  {
    if k == 0 {
      OrZero(a);
    } else {
      assert Pow2(k) == 2 * Pow2(k - 1);
      assert a * (2 * Pow2(k - 1)) == 2 * Shl(a, k - 1);
      OrIsSum(a, k - 1, b / 2);
    }
  }

  lemma {:induction false} OrZero(a: nat)
    ensures BitOr(a, 0) == a
  {
    if a > 0 {
      OrZero(a / 2);
    }
  }

  lemma Powers()
    ensures Pow2(8) == 0x100 && Pow2(16) == 0x1_0000 && Pow2(24) == 0x100_0000
  {
    assert Pow2(8) == 256;
    Pow2Add(8, 8);
    Pow2Add(8, 16);
  }

  /** The length read is the sum of its bytes, each in its place. */
  lemma GetLengthIs(b: Bytes)
    requires |b| >= 4 && AreBytes(b[..4])
    ensures GetLength(b) == b[0] + 0x100 * b[1] + 0x1_0000 * b[2] + 0x100_0000 * b[3] < LENGTH_LIMIT
  {
    hide BitAnd, BitOr;
    Powers();
    assert b[..4][0] == b[0] && b[..4][1] == b[1] && b[..4][2] == b[2] && b[..4][3] == b[3];
    AndByte(b[0]);
    AndByte(b[1]);
    AndByte(b[2]);
    AndByte(b[3]);
    OrIsSum(b[3], 24, Shl(b[2], 16));
    OrIsSum(0x100 * b[3] + b[2], 16, Shl(b[1], 8));
    OrIsSum(0x1_0000 * b[3] + 0x100 * b[2] + b[1], 8, b[0]);
  }

  lemma PutLengthIs(len: nat)
    requires len < LENGTH_LIMIT
    ensures var b := PutLength(len);
            AreBytes(b) && len == b[0] + 0x100 * b[1] + 0x1_0000 * b[2] + 0x100_0000 * b[3]
  {
    hide BitAnd;
    Powers();
    AndByte(len);
    AndByte(len / 0x100);
    AndByte(len / 0x1_0000);
    AndByte(len / 0x100_0000);
    BytesOf(len);
  }

  lemma BytesOf(len: nat)
    requires len < LENGTH_LIMIT
    ensures len == len % 256 + 0x100 * (len / 0x100 % 256) + 0x1_0000 * (len / 0x1_0000 % 256) + 0x100_0000 * (len / 0x100_0000 % 256)
  {
    var a, b, c := len / 256, len / 0x1_0000, len / 0x100_0000;
    assert b == a / 256 && c == b / 256 && c < 256;
  }

  /** A length put is the length got. */
  lemma LengthRoundTrip(len: nat, more: Bytes)
    requires len < LENGTH_LIMIT
    ensures GetLength(PutLength(len) + more) == len
  {
    hide PutLength, GetLength;
    PutLengthIs(len);
    var b := PutLength(len) + more;
    assert b[..4] == PutLength(len);
    GetLengthIs(b);
  }

  // ---------------------------------------------------------------- framing

  function Encode(messages: seq<Bytes>): Bytes {
    if messages == [] then [] else PutLength(|messages[0]|) + messages[0] + Encode(messages[1..])
  }

  /** The first frame is there in full. */
  predicate HasFrame(b: Bytes) {
    |b| >= 4 && |b| >= 4 + GetLength(b)
  }

  /** The messages of all the frames that are there in full. */
  function Messages(b: Bytes): seq<Bytes>
    decreases |b|
  {
    if !HasFrame(b) then [] else [b[4..4 + GetLength(b)]] + Messages(b[4 + GetLength(b)..])
  }

  /** What is left behind them. */
  function Rest(b: Bytes): Bytes
    decreases |b|
  {
    if !HasFrame(b) then b else Rest(b[4 + GetLength(b)..])
  }

  /** The length of a frame is in its first four bytes. */
  lemma GetLengthPrefix(a: Bytes, b: Bytes)
    requires |a| >= 4
    ensures GetLength(a + b) == GetLength(a)
  {
  }

  /** Framing a stream piece by piece gives what framing it all at once does. */
  lemma {:induction false} FramingIsIncremental(a: Bytes, b: Bytes)
    ensures Messages(a + b) == Messages(a) + Messages(Rest(a) + b)
    ensures Rest(a + b) == Rest(Rest(a) + b)
    decreases |a|
  {
    hide GetLength;
    if HasFrame(a) {
      GetLengthPrefix(a, b);
      var n := 4 + GetLength(a);
      FramingIsIncremental(a[n..], b);
      assert (a + b)[n..] == a[n..] + b;
      assert (a + b)[4..n] == a[4..n];
    }
  }

  /** Only an incomplete frame is left. */
  lemma {:induction false} RestIsIncomplete(b: Bytes)
    ensures !HasFrame(Rest(b)) && Messages(Rest(b)) == [] && |Rest(b)| <= |b|
    decreases |b|
  {
    hide GetLength;
    if HasFrame(b) {
      RestIsIncomplete(b[4 + GetLength(b)..]);
    }
  }

  /** Parsing inverts encoding, whatever incomplete frame follows. */
  lemma {:induction false} ParseInvertsEncode(messages: seq<Bytes>, tail: Bytes)
    requires (forall i :: 0 <= i < |messages| ==> |messages[i]| < LENGTH_LIMIT) && !HasFrame(tail)
    ensures Messages(Encode(messages) + tail) == messages && Rest(Encode(messages) + tail) == tail
    decreases |messages|
  {
    hide Messages, Rest, PutLength, HasFrame;
    if messages == [] {
      assert [] + tail == tail;
      NoFrame(tail);
    } else {
      var m, rest := messages[0], Encode(messages[1..]);
      ParseInvertsEncode(messages[1..], tail);
      OneFrame(m, rest + tail);
      assert PutLength(|m|) + m + rest + tail == PutLength(|m|) + (m + (rest + tail));
    }
  }

  lemma NoFrame(tail: Bytes)
    requires !HasFrame(tail)
    ensures Messages(tail) == [] && Rest(tail) == tail
  {
  }

  lemma OneFrame(m: Bytes, more: Bytes)
    requires |m| < LENGTH_LIMIT
    ensures Messages(PutLength(|m|) + (m + more)) == [m] + Messages(more)
    ensures Rest(PutLength(|m|) + (m + more)) == Rest(more)
  {
    hide GetLength, PutLength;
    var b := PutLength(|m|) + (m + more);
    LengthRoundTrip(|m|, m + more);
    assert b[4..4 + |m|] == m && b[4 + |m|..] == more;
  }

  /** `parse_frame`: the messages, and the number of bytes taken. */
  method ParseFrame(buf: Bytes) returns (messages: seq<Bytes>, consumed: nat)
    ensures messages == Messages(buf)
    ensures consumed <= |buf| && buf[consumed..] == Rest(buf)
  {
    hide GetLength;
    messages, consumed := [], 0;
    var b := buf;
    while true
      invariant consumed <= |buf| && b == buf[consumed..]
      invariant Messages(buf) == messages + Messages(b) && Rest(buf) == Rest(b)
      decreases |b|
    {
      if |b| < 4 {
        break;
      }
      var total := 4 + GetLength(b);
      if |b| < total {
        break;
      }
      messages := messages + [b[4..total]];
      b := b[total..];
      consumed := consumed + total;
    }
  }

  // ---------------------------------------------------------------- the buffer

  const SHRINK_THRESHOLD: nat := 1024

  class Buffer {
    var buf: Bytes
    var rpos: nat
    var wpos: nat
    /** Bytes consumed, bytes moved by compaction, and compactions, so far. */
    ghost var consumed: nat
    ghost var moved: nat
    ghost var compactions: nat

    /** Moving bytes is paid for by those consumed since the last time. */
    ghost predicate Valid()
      reads this
    {
      rpos <= wpos <= |buf| && moved + rpos <= consumed + compactions
    }

    /** The bytes to be read. */
    function Content(): Bytes
      requires rpos <= wpos <= |buf|
      reads this
    {
      buf[rpos..wpos]
    }

    constructor ()
      ensures Valid() && Content() == [] && consumed == 0 && moved == 0 && compactions == 0
    {
      buf, rpos, wpos := [], 0, 0;
      consumed, moved, compactions := 0, 0, 0;
    }

    /** Make room for `size` more bytes; what is written there is committed later. */
    method Prepare(size: nat) returns (available: nat)
      requires Valid()
      modifies `buf
      ensures Valid() && Content() == old(Content()) && available == |buf| - wpos >= size
      ensures |buf| == if old(|buf|) < wpos + size then wpos + size else old(|buf|)
    {
      available := |buf| - wpos;
      if size > available {
        var diff := size - available;
        buf := buf + seq(diff, _ => 0);
        available := size;
      }
    }

    /** The user writes into the room prepared. */
    method Fill(data: Bytes)
      requires Valid() && wpos + |data| <= |buf|
      modifies `buf
      ensures Valid() && Content() == old(Content()) && wpos + |data| <= |buf| && buf[wpos..wpos + |data|] == data
    {
      buf := buf[..wpos] + data + buf[wpos + |data|..];
    }

    /** Written bytes become readable. */
    method Commit(count: nat)
      requires Valid() && wpos + count <= |buf|
      modifies `wpos
      ensures Valid() && wpos == old(wpos) + count && Content() == old(Content()) + buf[old(wpos)..wpos]
    {
      wpos := wpos + count;
    }

    /**
     Take bytes from the front. When at least half of the buffer, and a kilobyte, lies unused there, the rest is
     moved to the front.
     */
    method Consume(count: nat)
      requires Valid() && count <= wpos - rpos
      modifies this
      ensures Valid() && Content() == old(Content())[count..] && consumed == old(consumed) + count
      ensures |buf| == old(|buf|)
      ensures if count > 0 && old(rpos) + count >= SHRINK_THRESHOLD && old(rpos) + count >= |buf| / 2
              then rpos == 0 && compactions == old(compactions) + 1 && moved == old(moved) + wpos
              else rpos == old(rpos) + count && wpos == old(wpos) && buf == old(buf)
                   && compactions == old(compactions) && moved == old(moved)
    {
      if count == 0 {
        return;
      }
      rpos := rpos + count;
      consumed := consumed + count;
      if rpos >= SHRINK_THRESHOLD && rpos >= |buf| / 2 {
        var n := wpos - rpos;
        if n > 0 {
          buf := buf[rpos..wpos] + buf[n..];
        }
        moved, compactions := moved + n, compactions + 1;
        rpos := 0;
        wpos := n;
      }
    }

    /** Bytes arrive behind those to be read. */
    method Store(piece: Bytes)
      requires Valid()
      modifies `buf, `wpos
      ensures Valid() && Content() == old(Content()) + piece
    {
      var available := Prepare(|piece|);
      Fill(piece);
      Commit(|piece|);
    }

    /** One piece of the stream: store it, parse what is there, and consume that. */
    method Receive(piece: Bytes) returns (messages: seq<Bytes>)
      requires Valid()
      modifies this
      ensures Valid() && messages == Messages(old(Content()) + piece) && Content() == Rest(old(Content()) + piece)
    {
      hide Messages, Rest;
      Store(piece);
      var n;
      messages, n := ParseFrame(Content());
      Consume(n);
    }

    /** A whole stream, however it is cut: the messages are those of the stream, and an incomplete frame stays. */
    method ReceiveAll(pieces: seq<Bytes>) returns (messages: seq<Bytes>)
      requires Valid() && Content() == []
      modifies this
      ensures Valid() && messages == Messages(Concat(pieces)) && Content() == Rest(Concat(pieces))
      ensures moved <= consumed + compactions
    {
      messages := [];
      for i := 0 to |pieces|
        invariant Valid() && messages == Messages(Concat(pieces[..i])) && Content() == Rest(Concat(pieces[..i]))
      {
        var more := Receive(pieces[i]);
        FramingIsIncremental(Concat(pieces[..i]), pieces[i]);
        assert pieces[..i + 1][..i] == pieces[..i];
        messages := messages + more;
      }
      assert pieces[..|pieces|] == pieces;
    }
  }

  function Concat(pieces: seq<Bytes>): Bytes {
    if pieces == [] then [] else Concat(pieces[..|pieces| - 1]) + pieces[|pieces| - 1]
  }
}
