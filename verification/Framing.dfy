/**
 * Length-prefixed messages on a byte stream: FramedBuffer and ProtobufProtocol
 * (decibel-cpp/include/decibel/messaging). A length takes `w` bytes, low byte first.
 */
module Framing {
  import opened Sequences
  import opened Arithmetic

  type Byte = b: int | 0 <= b < 256

  // ----- Lengths as bytes -----

  /** One more than the largest value of the length type. */
  function Limit(w: nat): (m: nat)
    ensures m >= 1
  {
    if w == 0 then 1 else 256 * Limit(w - 1)
  }

  function Encode(n: nat, w: nat): (s: seq<Byte>)
    ensures |s| == w
  {
    if w == 0 then [] else [n % 256] + Encode(n / 256, w - 1)
  }

  function Decode(s: seq<Byte>): nat {
    if s == [] then 0 else s[0] + 256 * Decode(s[1..])
  }

  lemma {:induction false} DecodeEncode(n: nat, w: nat)
    requires n < Limit(w)
    ensures Decode(Encode(n, w)) == n
  {
    if w > 0 {
      DecodeEncode(n / 256, w - 1);
      assert Encode(n, w)[1..] == Encode(n / 256, w - 1);
    }
  }

  lemma {:induction false} EncodeDecode(s: seq<Byte>)
    ensures Decode(s) < Limit(|s|)
    ensures Encode(Decode(s), |s|) == s
  {
    if s != [] {
      var n := Decode(s[1..]);
      EncodeDecode(s[1..]);
      assert (s[0] + 256 * n) % 256 == s[0] && (s[0] + 256 * n) / 256 == n;
      assert s == [s[0]] + s[1..];
    }
  }

  /** The bytes of a length, low byte first. */
  lemma {:induction false} EncodeBytes(n: nat, w: nat, i: nat)
    requires i < w
    ensures Encode(n, w)[i] == (n / Limit(i)) % 256
  {
    if i > 0 {
      EncodeBytes(n / 256, w - 1, i - 1);
      DividedTwice(n, Limit(i - 1));
    }
  }

  /** And read so. */
  lemma {:induction false} DecodeBytes(s: seq<Byte>, n: nat)
    ensures Decode(s) == n <==> n < Limit(|s|) && forall i | 0 <= i < |s| :: s[i] == (n / Limit(i)) % 256
  {
    EncodeDecode(s);
    forall i | 0 <= i < |s|
      ensures Encode(n, |s|)[i] == (n / Limit(i)) % 256 && s[i] == (Decode(s) / Limit(i)) % 256
    {
      EncodeBytes(n, |s|, i);
      EncodeBytes(Decode(s), |s|, i);
    }
    if n < Limit(|s|) && forall i | 0 <= i < |s| :: s[i] == (n / Limit(i)) % 256 {
      assert Encode(n, |s|) == s;
      DecodeEncode(n, |s|);
    }
  }

  // ----- Frames -----

  function Frame(w: nat, payload: seq<Byte>): seq<Byte> {
    Encode(|payload|, w) + payload
  }

  predicate IsFrame(w: nat, s: seq<Byte>) {
    |s| >= w && |s| == w + Decode(s[..w])
  }

  /** Less than one frame. */
  predicate Partial(w: nat, s: seq<Byte>) {
    |s| < w || |s| < w + Decode(s[..w])
  }

  /** The complete messages at the front of a stream, and what is left after them. */
  datatype Unframed = Unframed(msgs: seq<seq<Byte>>, rest: seq<Byte>)

  function Unframe(w: nat, s: seq<Byte>): Unframed
    requires w >= 1
    decreases |s|
  {
    if |s| < w || |s| - w < Decode(s[..w]) then Unframed([], s)
    else
      var n := Decode(s[..w]);
      var u := Unframe(w, s[w + n..]);
      Unframed([s[w..w + n]] + u.msgs, u.rest)
  }

  lemma Slices(a: seq<Byte>, b: seq<Byte>, w: nat, end: nat)
    requires w <= end <= |a|
    ensures (a + b)[..w] == a[..w] && (a + b)[w..end] == a[w..end] && (a + b)[end..] == a[end..] + b
  {
  }

  lemma Associate(first: seq<seq<Byte>>, u: seq<seq<Byte>>, v: seq<seq<Byte>>)
    ensures first + (u + v) == (first + u) + v && [] + v == v
  {
  }

  /** A stream can be read up to any byte, and the rest of it later: chunking does not matter. */
  lemma {:induction false} UnframeConcat(w: nat, a: seq<Byte>, b: seq<Byte>)
    requires w >= 1
    ensures var u := Unframe(w, a);
            var v := Unframe(w, u.rest + b);
            Unframe(w, a + b) == Unframed(u.msgs + v.msgs, v.rest)
    decreases |a|
  {
    if |a| < w || |a| - w < Decode(a[..w]) {
      Associate([], [], Unframe(w, a + b).msgs);
    } else {
      var end := w + Decode(a[..w]);
      Slices(a, b, w, end);
      UnframeConcat(w, a[end..], b);
      var u := Unframe(w, a[end..]);
      Associate([a[w..end]], u.msgs, Unframe(w, u.rest + b).msgs);
    }
  }

  function Sent(w: nat, payloads: seq<seq<Byte>>): seq<Byte> {
    if payloads == [] then [] else Frame(w, payloads[0]) + Sent(w, payloads[1..])
  }

  lemma FrameFirst(w: nat, payload: seq<Byte>, more: seq<Byte>)
    requires w >= 1 && |payload| < Limit(w)
    ensures var u := Unframe(w, more);
            Unframe(w, Frame(w, payload) + more) == Unframed([payload] + u.msgs, u.rest)
  {
    var s, n := Frame(w, payload) + more, |payload|;
    DecodeEncode(n, w);
    assert s[..w] == Encode(n, w);
    assert s[w..w + n] == payload;
    assert s[w + n..] == more;
  }

  lemma SentFirst(w: nat, first: seq<Byte>, msgs: seq<seq<Byte>>, rest: seq<Byte>)
    ensures Sent(w, [first] + msgs) + rest == Frame(w, first) + (Sent(w, msgs) + rest)
  {
    assert ([first] + msgs)[1..] == msgs;
  }

  lemma {:induction false} UnframeOf(w: nat, payloads: seq<seq<Byte>>, rest: seq<Byte>)
    requires w >= 1 && Partial(w, rest) && forall p | p in payloads :: |p| < Limit(w)
    ensures Unframe(w, Sent(w, payloads) + rest) == Unframed(payloads, rest)
  {
    if payloads == [] {
      assert Sent(w, payloads) + rest == rest;
    } else {
      UnframeOf(w, payloads[1..], rest);
      FrameFirst(w, payloads[0], Sent(w, payloads[1..]) + rest);
      assert [payloads[0]] + payloads[1..] == payloads;
      SentFirst(w, payloads[0], payloads[1..], rest);
    }
  }

  lemma FrameAhead(w: nat, s: seq<Byte>)
    requires |s| >= w && |s| - w >= Decode(s[..w])
    ensures var n := Decode(s[..w]);
            n < Limit(w) && s == Frame(w, s[w..w + n]) + s[w + n..]
  {
    EncodeDecode(s[..w]);
  }

  lemma {:induction false} Reframed(w: nat, s: seq<Byte>)
    requires w >= 1
    ensures var u := Unframe(w, s);
            && s == Sent(w, u.msgs) + u.rest && Partial(w, u.rest)
            && forall p | p in u.msgs :: |p| < Limit(w)
    decreases |s|
  {
    if |s| < w || |s| - w < Decode(s[..w]) {
      assert Sent(w, []) + s == s;
    } else {
      var n := Decode(s[..w]);
      var u := Unframe(w, s[w + n..]);
      Reframed(w, s[w + n..]);
      FrameAhead(w, s);
      SentFirst(w, s[w..w + n], u.msgs, u.rest);
    }
  }

  /** What is read from a stream is all that it is made of: the frames of the messages, and less than one more. */
  lemma {:induction false} UnframeIff(w: nat, s: seq<Byte>, msgs: seq<seq<Byte>>, rest: seq<Byte>)
    requires w >= 1
    ensures Unframe(w, s) == Unframed(msgs, rest) <==>
            s == Sent(w, msgs) + rest && Partial(w, rest) && forall p | p in msgs :: |p| < Limit(w)
  {
    Reframed(w, s);
    if s == Sent(w, msgs) + rest && Partial(w, rest) && forall p | p in msgs :: |p| < Limit(w) {
      UnframeOf(w, msgs, rest);
    }
  }

  /** What a receiver holds after these chunks, one at a time, each read with what is pending. */
  function Received(w: nat, chunks: seq<seq<Byte>>): Unframed
    requires w >= 1
  {
    if chunks == [] then Unframed([], [])
    else
      var before := Received(w, chunks[..|chunks| - 1]);
      var now := Unframe(w, before.rest + chunks[|chunks| - 1]);
      Unframed(before.msgs + now.msgs, now.rest)
  }

  lemma ReceivedLast(w: nat, chunks: seq<seq<Byte>>, before: Unframed) returns (now: Unframed)
    requires w >= 1 && chunks != [] && before == Received(w, chunks[..|chunks| - 1])
    ensures now == Unframe(w, before.rest + chunks[|chunks| - 1])
    ensures Received(w, chunks) == Unframed(before.msgs + now.msgs, now.rest)
  {
    now := Unframe(w, before.rest + chunks[|chunks| - 1]);
  }

  lemma {:induction false} ReceivedIsUnframed(w: nat, chunks: seq<seq<Byte>>)
    requires w >= 1
    ensures Received(w, chunks) == Unframe(w, Flatten(chunks))
  {
    if chunks != [] {
      var n := |chunks| - 1;
      ReceivedIsUnframed(w, chunks[..n]);
      UnframeConcat(w, Flatten(chunks[..n]), chunks[n]);
    }
  }

  /**
   * However the bytes of sendable messages are cut into chunks that the receiving loop ends on
   * (FinishesIff), exactly those messages arrive, in order.
   */
  lemma RoundTrip(w: nat, payloads: seq<seq<Byte>>, chunks: seq<seq<Byte>>)
    requires w >= 1 && forall p | p in payloads :: |p| < Limit(w)
    requires forall c | c in chunks :: |c| < Limit(w)
    requires Flatten(chunks) == Sent(w, payloads)
    ensures Received(w, chunks) == Unframed(payloads, [])
  {
    ReceivedIsUnframed(w, chunks);
    UnframeOf(w, payloads, []);
    assert Sent(w, payloads) + [] == Sent(w, payloads);
  }

  // ----- AddData -----

  /** How many of the bytes AddData takes: up to the end of the first frame, or all of them. */
  function Taken(w: nat, pending: seq<Byte>, bytes: seq<Byte>): (n: nat)
    requires |pending| < w || |pending| <= w + Decode(pending[..w])
    ensures n <= |bytes|
    ensures n < |bytes| ==> IsFrame(w, pending + bytes[..n])
    ensures IsFrame(w, pending + bytes[..n]) || Partial(w, pending + bytes[..n])
  {
    TakenEnds(w, pending, bytes);
    var header := if |pending| < w then Min(|bytes|, w - |pending|) else 0;
    if |pending| + header < w then header
    else header + Min(|bytes| - header, w + Decode((pending + bytes)[..w]) - |pending| - header)
  }

  /** AddData stops at the first point where it holds a whole frame. */
  lemma TakenFirst(w: nat, pending: seq<Byte>, bytes: seq<Byte>, k: nat)
    requires Partial(w, pending) && k < Taken(w, pending, bytes)
    ensures Partial(w, pending + bytes[..k])
  {
    TakenEnds(w, pending, bytes);
  }

  lemma TakesSome(w: nat, pending: seq<Byte>, bytes: seq<Byte>)
    requires Partial(w, pending) && bytes != []
    ensures Taken(w, pending, bytes) > 0
  {
    assert pending + bytes[..0] == pending;
  }

  function Min(a: nat, b: nat): nat {
    if a < b then a else b
  }

  lemma TakenEnds(w: nat, pending: seq<Byte>, bytes: seq<Byte>)
    requires |pending| < w || |pending| <= w + Decode(pending[..w])
    ensures |pending| >= w ==> (pending + bytes)[..w] == pending[..w]
    ensures |pending| + |bytes| >= w ==>
              forall k | 0 <= k <= |bytes| && |pending| + k >= w ::
                (pending + bytes[..k])[..w] == (pending + bytes)[..w]
  {
  }

  // ----- The receiving loop, round by round -----

  lemma PartialUnframes(w: nat, s: seq<Byte>)
    requires w >= 1 && Partial(w, s)
    ensures Unframe(w, s) == Unframed([], s)
  {
  }

  datatype Reading = Reading(pending: seq<Byte>, used: nat)

  /** Conversion to the length type, which wraps around at its limit. */
  function Cast(n: nat, w: nat): (r: nat)
    ensures r < Limit(w) && r <= n && (n < Limit(w) ==> r == n)
  {
    CastWraps(n, w);
    n % Limit(w)
  }

  lemma {:induction false} CastWraps(n: nat, w: nat)
    ensures 0 <= n % Limit(w) <= n && (n < Limit(w) ==> n % Limit(w) == n)
  {
    Divided(n, Limit(w));
    if n < Limit(w) {
      QuotientIs(n, 0, Limit(w));
    }
  }

  /** It keeps the remainder. */
  lemma CastIs(n: nat, w: nat, q: nat)
    requires Times(q, Limit(w)) <= n < Times(q, Limit(w)) + Limit(w)
    ensures Cast(n, w) == n - Times(q, Limit(w))
  {
    QuotientIs(n, q, Limit(w));
  }

  /** The bytes that one round takes: AddData is told how many are left as far as the length type can say. */
  function Fed(w: nat, data: seq<Byte>, r: Reading): seq<Byte>
    requires Partial(w, r.pending) && r.used <= |data|
  {
    var left := data[r.used..];
    var told := left[..Cast(|left|, w)];
    told[..Taken(w, r.pending, told)]
  }

  /** One round of the loop: the number of bytes left is cut to the length type, and so is the count. */
  function Round(w: nat, data: seq<Byte>, r: Reading): (after: Reading)
    requires w >= 1 && Partial(w, r.pending) && r.used <= |data|
    ensures Partial(w, after.pending) && after.used <= |data|
  {
    var fed := Fed(w, data, r);
    FedEnds(w, data, r);
    var now := r.pending + fed;
    Reading(if IsFrame(w, now) then [] else now, Cast(r.used + |fed|, w))
  }

  lemma FedEnds(w: nat, data: seq<Byte>, r: Reading)
    requires Partial(w, r.pending) && r.used <= |data|
    ensures r.used + |Fed(w, data, r)| <= |data|
    ensures var now := r.pending + Fed(w, data, r); IsFrame(w, now) || Partial(w, now)
  {
  }

  function Rounds(w: nat, data: seq<Byte>, pending: seq<Byte>, n: nat): (r: Reading)
    requires w >= 1 && Partial(w, pending)
    ensures Partial(w, r.pending) && r.used <= |data|
  {
    if n == 0 then Reading(pending, 0)
    else
      var r := Rounds(w, data, pending, n - 1);
      if r.used < |data| then Round(w, data, r) else r
  }

  lemma {:induction false} CastMinus(a: nat, u: nat, w: nat)
    requires u <= Cast(a, w)
    ensures Cast(a - u, w) == Cast(a, w) - u
  {
    Divided(a, Limit(w));
    QuotientIs(a - u, a / Limit(w), Limit(w));
  }

  /** Where a round on a short enough chunk gets to. */
  function UpTo(w: nat, data: seq<Byte>, r: Reading): (to: nat)
    requires Partial(w, r.pending) && r.used <= |data|
    ensures r.used <= to <= |data|
  {
    r.used + Taken(w, r.pending, data[r.used..])
  }

  /** What a round completes. */
  function Completed(w: nat, now: seq<Byte>): (msgs: seq<seq<Byte>>) {
    if IsFrame(w, now) then [now[w..]] else []
  }

  lemma RoundAdvances(w: nat, data: seq<Byte>, r: Reading)
    requires w >= 1 && Partial(w, r.pending) && r.used < |data| < Limit(w)
    ensures var to := UpTo(w, data, r);
            var now := r.pending + data[r.used..to];
            && r.used < to && (IsFrame(w, now) || Partial(w, now))
            && Fed(w, data, r) == data[r.used..to]
            && Round(w, data, r) == Reading(if IsFrame(w, now) then [] else now, to)
  {
    var left := data[r.used..];
    assert left[..|left|] == left;
    TakesSome(w, r.pending, left);
    var taken := Taken(w, r.pending, left);
    assert left[..taken] == data[r.used..r.used + taken];
  }

  lemma {:induction false} RoundStuck(w: nat, data: seq<Byte>, r: Reading)
    requires w >= 1 && Partial(w, r.pending) && r.used <= Cast(|data|, w)
    ensures r.used <= |data|
    ensures Round(w, data, r).used <= Cast(|data|, w)
  {
    CastMinus(|data|, r.used, w);
    assert |data[r.used..]| == |data| - r.used;
    FedEnds(w, data, r);
  }

  lemma RoundGrows(w: nat, data: seq<Byte>, r: Reading)
    requires w >= 1 && Partial(w, r.pending) && r.used < |data| < Limit(w)
    ensures Round(w, data, r).used > r.used
  {
    RoundAdvances(w, data, r);
  }

  lemma {:induction false} RoundsAdvance(w: nat, data: seq<Byte>, pending: seq<Byte>, n: nat)
    requires w >= 1 && Partial(w, pending) && |data| < Limit(w)
    ensures Rounds(w, data, pending, n).used >= Min(n, |data|)
  {
    if n > 0 {
      RoundsAdvance(w, data, pending, n - 1);
      var r := Rounds(w, data, pending, n - 1);
      if r.used < |data| {
        RoundGrows(w, data, r);
      }
    }
  }

  lemma {:induction false} RoundsStuck(w: nat, data: seq<Byte>, pending: seq<Byte>, n: nat)
    requires w >= 1 && Partial(w, pending)
    ensures Rounds(w, data, pending, n).used <= Cast(|data|, w)
  {
    if n > 0 {
      RoundsStuck(w, data, pending, n - 1);
      var r := Rounds(w, data, pending, n - 1);
      if r.used < |data| {
        RoundStuck(w, data, r);
      }
    }
  }

  /** The loop ends exactly for chunks shorter than the limit; a longer chunk is never used up. */
  lemma FinishesIff(w: nat, data: seq<Byte>, pending: seq<Byte>)
    requires w >= 1 && Partial(w, pending)
    ensures (exists n :: Rounds(w, data, pending, n).used == |data|) <==> |data| < Limit(w)
  {
    if |data| < Limit(w) {
      RoundsAdvance(w, data, pending, |data|);
      assert Rounds(w, data, pending, |data|).used == |data|;
    } else {
      forall n
        ensures Rounds(w, data, pending, n).used < |data|
      {
        RoundsStuck(w, data, pending, n);
      }
    }
  }

  /** What a round does to the stream read so far. */
  lemma RoundUnframes(w: nat, sofar: seq<Byte>, msgs: seq<seq<Byte>>, pending: seq<Byte>, more: seq<Byte>)
    requires w >= 1 && Unframe(w, sofar) == Unframed(msgs, pending)
    requires IsFrame(w, pending + more) || Partial(w, pending + more)
    ensures Unframe(w, sofar + more) ==
            if IsFrame(w, pending + more) then Unframed(msgs + [(pending + more)[w..]], [])
            else Unframed(msgs, pending + more)
  {
    UnframeConcat(w, sofar, more);
    var now := pending + more;
    if IsFrame(w, now) {
      assert Unframe(w, now[|now|..]) == Unframed([], []);
      assert now[w..|now|] == now[w..];
    }
  }

  lemma ReadsMore(w: nat, sofar: seq<Byte>, data: seq<Byte>, from: nat, to: nat,
                  msgs: seq<seq<Byte>>, pending: seq<Byte>)
    requires w >= 1 && from <= to <= |data|
    requires Unframe(w, sofar + data[..from]) == Unframed(msgs, pending)
    requires IsFrame(w, pending + data[from..to]) || Partial(w, pending + data[from..to])
    ensures var now := pending + data[from..to];
            Unframe(w, sofar + data[..to]) ==
              if IsFrame(w, now) then Unframed(msgs + [now[w..]], []) else Unframed(msgs, now)
  {
    RoundUnframes(w, sofar + data[..from], msgs, pending, data[from..to]);
    assert sofar + data[..from] + data[from..to] == sofar + data[..to];
  }

  lemma RoundReads(w: nat, data: seq<Byte>, sofar: seq<Byte>, r: Reading, msgs: seq<seq<Byte>>)
    requires w >= 1 && Partial(w, r.pending) && r.used < |data| < Limit(w)
    requires Unframe(w, sofar + data[..r.used]) == Unframed(msgs, r.pending)
    ensures var after := Round(w, data, r);
            && r.used < after.used
            && Unframe(w, sofar + data[..after.used]) ==
               Unframed(msgs + Completed(w, r.pending + data[r.used..after.used]), after.pending)
  {
    RoundAdvances(w, data, r);
    ReadsMore(w, sofar, data, r.used, UpTo(w, data, r), msgs, r.pending);
    assert msgs + [] == msgs;
  }

  // ----- The classes -----

  class FramedBuffer {
    const width: nat
    var mFullSize: nat
    var mSizeBuffer: seq<Byte>
    var mBytes: seq<Byte>

    ghost predicate Valid()
      reads this
    {
      && width >= 1 && |mSizeBuffer| <= width
      && (|mSizeBuffer| < width ==> mBytes == [])
      && (|mSizeBuffer| == width ==> mFullSize == Decode(mSizeBuffer) && |mBytes| <= mFullSize)
    }

    ghost function Pending(): seq<Byte>
      reads this
    {
      mSizeBuffer + mBytes
    }

    constructor (w: nat)
      requires w >= 1
      ensures Valid() && width == w && Pending() == []
    {
      width, mFullSize, mSizeBuffer, mBytes := w, 0, [], [];
    }

    /** Takes bytes up to the end of the frame it holds a part of, and no further. */
    method AddData(bytes: seq<Byte>, size: nat) returns (bytesUsed: nat)
      requires Valid() && size < Limit(width) && size <= |bytes|
      modifies this
      ensures Valid()
      ensures bytesUsed == Taken(width, old(Pending()), bytes[..size])
      ensures Pending() == old(Pending()) + bytes[..bytesUsed]
    {
      ghost var before := Pending();
      TakenEnds(width, before, bytes[..size]);
      bytesUsed := 0;
      if |mSizeBuffer| < width {
        var sizeByteCount := Min(size, width - |mSizeBuffer|);
        mSizeBuffer := mSizeBuffer + bytes[..sizeByteCount];
        bytesUsed := bytesUsed + sizeByteCount;
        if |mSizeBuffer| == width {
          assert (before + bytes[..size])[..width] == mSizeBuffer;
          mFullSize := Decode(mSizeBuffer);
        } else {
          return bytesUsed;
        }
      }
      var byteCount := Min(size - bytesUsed, mFullSize - |mBytes|);
      mBytes := mBytes + bytes[bytesUsed..bytesUsed + byteCount];
      bytesUsed := bytesUsed + byteCount;
    }

    predicate Ready()
      requires Valid()
      reads this
      ensures Ready() <==> IsFrame(width, Pending())
    {
      assert |mSizeBuffer| == width ==> Pending()[..width] == mSizeBuffer;
      |mSizeBuffer| == width && mFullSize == |mBytes|
    }
  }

  datatype SendResult = SENT | MESSAGE_SIZE_ERROR

  class ProtobufProtocol {
    const width: nat
    var mBuffer: FramedBuffer
    /** The serialized messages given to HandleMessage, and the bytes given to the transport. */
    var handled: seq<seq<Byte>>
    var written: seq<Byte>

    ghost predicate Valid()
      reads this, mBuffer
    {
      mBuffer.Valid() && mBuffer.width == width && Partial(width, mBuffer.Pending())
    }

    constructor (w: nat)
      requires w >= 1
      ensures Valid() && width == w && fresh(mBuffer) && mBuffer.Pending() == [] && handled == [] && written == []
    {
      width, handled, written := w, [], [];
      mBuffer := new FramedBuffer(w);
    }

    /** The body of the receiving loop, on any chunk. */
    method ReadOnce(data: seq<Byte>, bytesUsed: nat) returns (used: nat)
      requires Valid() && bytesUsed < |data|
      modifies this`mBuffer, this`handled, mBuffer
      ensures Valid() && (mBuffer == old(mBuffer) || fresh(mBuffer))
      ensures Reading(mBuffer.Pending(), used) == Round(width, data, Reading(old(mBuffer.Pending()), bytesUsed))
      ensures handled == old(handled) + Completed(width,
                old(mBuffer.Pending()) + Fed(width, data, Reading(old(mBuffer.Pending()), bytesUsed)))
    {
      FedEnds(width, data, Reading(mBuffer.Pending(), bytesUsed));
      var left := data[bytesUsed..];
      var told := Cast(|left|, width);
      var taken := mBuffer.AddData(left, told);
      assert left[..told][..taken] == left[..taken];
      used := Cast(bytesUsed + taken, width);
      var ready := mBuffer.Ready();
      if ready {
        assert mBuffer.Pending()[width..] == mBuffer.mBytes;
        handled := handled + [mBuffer.mBytes];
        mBuffer := new FramedBuffer(width);
      }
    }

    /** The same on the whole stream: `sofar` came before this chunk, and held `msgs` so far. */
    method ReadOn(data: seq<Byte>, bytesUsed: nat, ghost sofar: seq<Byte>, ghost msgs: seq<seq<Byte>>)
      returns (used: nat, ghost done: seq<seq<Byte>>)
      requires Valid() && bytesUsed < |data| < Limit(width)
      requires Unframe(width, sofar + data[..bytesUsed]) == Unframed(msgs, mBuffer.Pending())
      modifies this`mBuffer, this`handled, mBuffer
      ensures Valid() && (mBuffer == old(mBuffer) || fresh(mBuffer))
      ensures bytesUsed < used <= |data|
      ensures Unframe(width, sofar + data[..used]) == Unframed(msgs + done, mBuffer.Pending())
      ensures handled == old(handled) + done
    {
      ghost var r := Reading(mBuffer.Pending(), bytesUsed);
      RoundReads(width, data, sofar, r, msgs);
      RoundAdvances(width, data, r);
      used := ReadOnce(data, bytesUsed);
      done := Completed(width, r.pending + data[bytesUsed..used]);
    }

    /** Handles the messages that the stream so far completes, and keeps the rest of it. */
    method OnDataReceived(data: seq<Byte>)
      requires Valid() && |data| < Limit(width)
      modifies this`mBuffer, this`handled, mBuffer
      ensures Valid() && (mBuffer == old(mBuffer) || fresh(mBuffer))
      ensures var u := Unframe(width, old(mBuffer.Pending()) + data);
              handled == old(handled) + u.msgs && mBuffer.Pending() == u.rest
      ensures old(handled) <= handled
      ensures old(mBuffer.Pending()) + data == Sent(width, handled[|old(handled)|..]) + mBuffer.Pending()
      ensures |mBuffer.Pending()| < width || |mBuffer.Pending()| < width + Decode(mBuffer.Pending()[..width])
    {
      ghost var before, msgs := mBuffer.Pending(), [];
      var bytesUsed := 0;
      assert before + data[..0] == before;
      PartialUnframes(width, before);
      while bytesUsed < |data|
        invariant Valid() && (mBuffer == old(mBuffer) || fresh(mBuffer)) && bytesUsed <= |data|
        invariant Unframe(width, before + data[..bytesUsed]) == Unframed(msgs, mBuffer.Pending())
        invariant handled == old(handled) + msgs
        decreases |data| - bytesUsed
      {
        ghost var done;
        bytesUsed, done := ReadOn(data, bytesUsed, before, msgs);
        msgs := msgs + done;
      }
      assert data[..bytesUsed] == data;
      Reframed(width, before + data);
    }

    /** Chunk after chunk of a stream. */
    method ReceiveAll(chunks: seq<seq<Byte>>)
      requires Valid() && mBuffer.Pending() == []
      requires forall c | c in chunks :: |c| < Limit(width)
      modifies this`mBuffer, this`handled, mBuffer
      ensures Valid() && (mBuffer == old(mBuffer) || fresh(mBuffer))
      ensures handled == old(handled) + Received(width, chunks).msgs
      ensures mBuffer.Pending() == Received(width, chunks).rest
      decreases |chunks|
    {
      if chunks != [] {
        var n := |chunks| - 1;
        ghost var start := handled;
        ReceiveAll(chunks[..n]);
        ghost var before := Received(width, chunks[..n]);
        ghost var now := ReceivedLast(width, chunks, before);
        OnDataReceived(chunks[n]);
        Associate(start, before.msgs, now.msgs);
      }
    }

    /** The chunks of sendable messages: exactly these are handled, in order, and nothing is left. */
    method Receive(chunks: seq<seq<Byte>>, ghost payloads: seq<seq<Byte>>)
      requires Valid() && mBuffer.Pending() == []
      requires forall c | c in chunks :: |c| < Limit(width)
      requires forall p | p in payloads :: |p| < Limit(width)
      requires Flatten(chunks) == Sent(width, payloads)
      modifies this`mBuffer, this`handled, mBuffer
      ensures Valid() && (mBuffer == old(mBuffer) || fresh(mBuffer))
      ensures handled == old(handled) + payloads && mBuffer.Pending() == []
    {
      RoundTrip(width, payloads, chunks);
      ReceiveAll(chunks);
    }

    /** Writes the frame of a message whose length fits, and nothing otherwise. */
    method Send(output: seq<Byte>) returns (r: SendResult)
      modifies this`written
      ensures r.SENT? <==> |output| < Limit(width)
      ensures written == if r.SENT? then old(written) + Frame(width, output) else old(written)
      ensures r.SENT? ==>
                && |written| == |old(written)| + width + |output|
                && (forall i | 0 <= i < width :: written[|old(written)| + i] == (|output| / Limit(i)) % 256)
                && written[|old(written)| + width..] == output
    {
      forall i | 0 <= i < width
        ensures Encode(|output|, width)[i] == (|output| / Limit(i)) % 256
      {
        EncodeBytes(|output|, width, i);
      }
      if |output| > Limit(width) - 1 {
        return MESSAGE_SIZE_ERROR;
      }
      written := written + Encode(|output|, width);
      written := written + output;
      assert old(written) + Encode(|output|, width) + output == old(written) + Frame(width, output);
      r := SENT;
    }
  }
}
