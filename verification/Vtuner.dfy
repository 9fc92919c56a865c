/**
 The two ends of the vTuner data stream, over sockets that take and give a few bytes at a
 time or fail: the writer thread of vtuner/vtuner_server.c and the read call of
 vtuner/vtuner_client.c.
 */
module Vtuner {
  import opened Framing

  method Fill(a: array<Byte>, at: nat, s: seq<Byte>)
    requires at + |s| <= a.Length
    modifies a
    ensures a[at..at + |s|] == s
    ensures forall i :: 0 <= i < a.Length && (i < at || at + |s| <= i) ==> a[i] == old(a[i])
  {
    for i := 0 to |s|
      invariant forall j :: 0 <= j < a.Length ==> a[j] == if at <= j < at + i then s[j - at] else old(a[j])
    {
      a[at + i] := s[i];
    }
  }

  // The reads that yielded something.
  ghost function NonEmpty(chunks: seq<seq<Byte>>): seq<seq<Byte>> {
    if chunks == [] then []
    else NonEmpty(chunks[..|chunks| - 1]) + if chunks[|chunks| - 1] == [] then [] else [chunks[|chunks| - 1]]
  }

  lemma {:induction false} NonEmptySendable(chunks: seq<seq<Byte>>)
    requires forall p :: p in chunks ==> |p| <= VTUNER_BUFFER_MAX
    ensures Sendable(NonEmpty(chunks))
  {
    if chunks != [] {
      var rest := chunks[..|chunks| - 1];
      assert forall p :: p in rest ==> p in chunks;
      assert chunks[|chunks| - 1] in chunks;
      NonEmptySendable(rest);
    }
  }

  // Reads that yielded nothing lose nothing.
  lemma {:induction false} ConcatNonEmpty(chunks: seq<seq<Byte>>)
    ensures Concat(NonEmpty(chunks)) == Concat(chunks)
  {
    if chunks != [] {
      var n := |chunks| - 1;
      ConcatNonEmpty(chunks[..n]);
      assert chunks == chunks[..n] + [chunks[n]];
      ConcatAppend(chunks[..n], chunks[n]);
      if chunks[n] != [] {
        ConcatAppend(NonEmpty(chunks[..n]), chunks[n]);
      } else {
        assert NonEmpty(chunks) == NonEmpty(chunks[..n]) && chunks[n] == [];
        assert Concat(chunks) == Concat(chunks[..n]) + [];
      }
    }
  }

  // What writing some bytes to a socket comes to: how many are taken, and how many calls of
  // write(2) have been made by then.
  datatype Pushed = Pushed(ok: bool, sent: nat, calls: nat)

  // Lines 412-429: calls of write(2) from number `k` on, until `len` bytes have been taken or a
  // call takes none. A call takes no more than it is given.
  ghost function Push(writes: nat -> int, k: nat, len: nat): Pushed
    decreases len
  {
    if len == 0 then Pushed(true, 0, k)
    else if writes(k) < 1 then Pushed(false, 0, k + 1)
    else
      var n := if writes(k) < len then writes(k) else len;
      var p := Push(writes, k + 1, len - n);
      p.(sent := n + p.sent)
  }

  ghost predicate AllTake(writes: nat -> int, from: nat, to: nat) {
    forall k: nat :: from <= k < to ==> writes(k) >= 1
  }

  // How the calls between two numbers have come out: well if all have taken something, and
  // else the last one is the only one that has not.
  ghost predicate CameOut(ok: bool, writes: nat -> int, from: nat, to: nat) {
    if ok then from <= to && AllTake(writes, from, to)
    else from < to && AllTake(writes, from, to - 1) && writes(to - 1) < 1
  }

  // All bytes are taken exactly if no call on the way has taken none.
  lemma {:induction false} PushBytes(writes: nat -> int, k: nat, len: nat)
    ensures var p := Push(writes, k, len);
      && p.sent <= len && (p.ok <==> p.sent == len) && CameOut(p.ok, writes, k, p.calls)
    decreases len
  {
    if len > 0 && writes(k) >= 1 {
      PushBytes(writes, k + 1, len - if writes(k) < len then writes(k) else len);
    }
  }

  class Server {
    const order: Order
    const buffer: array<Byte>
    const writes: nat -> int   // what the calls of write(2) return, by number
    var calls: nat             // how many have been made
    var wire: seq<Byte>        // what has been written to the socket

    constructor (order: Order, writes: nat -> int)
      ensures this.order == order && this.writes == writes && calls == 0 && wire == []
      ensures buffer.Length == 8 + VTUNER_BUFFER_MAX && fresh(buffer)
    {
      this.order, this.writes := order, writes;
      buffer := new Byte[8 + VTUNER_BUFFER_MAX](_ => 0);
      calls, wire := 0, [];
    }

    // Lines 412-429.
    method Write(len: nat) returns (ok: bool)
      requires len <= buffer.Length
      modifies this`wire, this`calls
      ensures var p := Push(writes, old(calls), len);
        && ok == p.ok && calls == p.calls && p.sent <= len && wire == old(wire) + buffer[..p.sent]
    {
      var off := 0;
      while off < len
        invariant 0 <= off <= len && wire == old(wire) + buffer[..off]
        invariant var p := Push(writes, calls, len - off); Push(writes, old(calls), len) == p.(sent := off + p.sent)
        decreases len - off
      {
        var n := writes(calls);
        if n < 1 {
          calls := calls + 1;
          return false;
        }
        if n > len - off {
          n := len - off;
        }
        calls := calls + 1;
        wire := wire + buffer[off..off + n];
        assert buffer[..off] + buffer[off..off + n] == buffer[..off + n];
        off := off + n;
      }
      ok := true;
    }

    // Lines 501-507: one frame.
    method Send(payload: seq<Byte>) returns (ok: bool)
      requires buffer.Length == 8 + VTUNER_BUFFER_MAX && |payload| <= VTUNER_BUFFER_MAX
      modifies this`wire, this`calls, buffer
      ensures CameOut(ok, writes, old(calls), calls)
      ensures ok ==> wire == old(wire) + Frame(order, payload)
      ensures !ok ==> old(wire) <= wire < old(wire) + Frame(order, payload)
    {
      hide Frame, Word, Push, CameOut;
      Fill(buffer, 8, payload);
      Fill(buffer, 0, Word(order, VTUNER_MAGIC));
      Fill(buffer, 4, Word(order, |payload|));
      FrameIn(buffer[..], payload);
      PushBytes(writes, calls, 8 + |payload|);
      ok := Write(8 + |payload|);
      ghost var f := Frame(order, payload);
      assert buffer[..8 + |payload|] == buffer[..][..8 + |payload|] == f && |f| == 8 + |payload|;
      ghost var sent := Push(writes, old(calls), 8 + |payload|).sent;
      assert buffer[..sent] == f[..sent] <= f;
    }

    // Lines 489-510, for the results of reading from the device until the connection ends:
    // all of them are written as frames unless a call of write(2) fails, and then the thread
    // ends with that call and the stream is cut off there.
    method WriterThread(chunks: seq<seq<Byte>>) returns (ok: bool)
      requires buffer.Length == 8 + VTUNER_BUFFER_MAX && wire == []
      requires forall p :: p in chunks ==> |p| <= VTUNER_BUFFER_MAX
      modifies this`wire, this`calls, buffer
      ensures Sendable(NonEmpty(chunks)) && wire <= Stream(order, NonEmpty(chunks))
      ensures ok <==> wire == Stream(order, NonEmpty(chunks))
      ensures ok ==> forall k: nat :: old(calls) <= k < calls ==> writes(k) >= 1
      ensures !ok ==> old(calls) < calls && writes(calls - 1) < 1
      ensures !ok ==> forall k: nat :: old(calls) <= k < calls - 1 ==> writes(k) >= 1
    {
      hide Frame, Stream, Sendable, NonEmpty;
      StreamNone(order);
      NonEmptySendable(chunks);
      for i := 0 to |chunks|
        invariant Sendable(NonEmpty(chunks[..i])) && wire == Stream(order, NonEmpty(chunks[..i]))
        invariant CameOut(true, writes, old(calls), calls)
      {
        assert chunks[i] in chunks;
        NextChunk(chunks, i);
        if chunks[i] != [] {
          var sent := Send(chunks[i]);
          if !sent {
            SentPrefix(chunks, i + 1);
            return false;
          }
        }
      }
      assert chunks[..|chunks|] == chunks;
      ok := true;
    }

    // What has been written decodes, on either kind of machine, to reads from the device, in
    // order and whole.
    lemma WireDecodes(chunks: seq<seq<Byte>>, o: Order)
      requires Sendable(NonEmpty(chunks)) && wire <= Stream(order, NonEmpty(chunks))
      ensures Decode(o, wire) <= NonEmpty(chunks)
    {
      Truncated(o, order, NonEmpty(chunks), wire);
    }

    lemma StreamNone(o: Order)
      ensures NonEmpty([]) == [] && Sendable([]) && Stream(o, []) == []
    {
    }

    lemma NextChunk(chunks: seq<seq<Byte>>, i: nat)
      requires i < |chunks| && forall p :: p in chunks ==> |p| <= VTUNER_BUFFER_MAX
      ensures Sendable(NonEmpty(chunks[..i])) && Sendable(NonEmpty(chunks[..i + 1])) && |chunks[i]| <= VTUNER_BUFFER_MAX
      ensures Stream(order, NonEmpty(chunks[..i + 1])) ==
        Stream(order, NonEmpty(chunks[..i])) + if chunks[i] == [] then [] else Frame(order, chunks[i])
    {
      hide Frame;
      var some := chunks[..i + 1];
      assert some[..i] == chunks[..i];
      assert chunks[i] in chunks;
      assert forall p :: p in some ==> p in chunks;
      NonEmptySendable(some);
      NonEmptySendable(some[..i]);
      if chunks[i] != [] {
        StreamAppend(order, NonEmpty(some[..i]), chunks[i]);
      } else {
        assert NonEmpty(some) == NonEmpty(some[..i]);
      }
    }

    lemma FrameIn(s: seq<Byte>, payload: seq<Byte>)
      requires 8 + |payload| <= |s| && |payload| <= VTUNER_BUFFER_MAX
      requires s[..4] == Word(order, VTUNER_MAGIC) && s[4..8] == Word(order, |payload|)
        && s[8..8 + |payload|] == payload
      ensures s[..8 + |payload|] == Frame(order, payload)
    {
      assert s[..8 + |payload|] == s[..4] + s[4..8] + s[8..8 + |payload|];
    }

    // The stream of some of the reads begins the stream of all.
    lemma {:induction false} SentPrefix(chunks: seq<seq<Byte>>, i: nat)
      requires i <= |chunks| && forall p :: p in chunks ==> |p| <= VTUNER_BUFFER_MAX
      ensures Sendable(NonEmpty(chunks[..i])) && Sendable(NonEmpty(chunks))
      ensures Stream(order, NonEmpty(chunks[..i])) <= Stream(order, NonEmpty(chunks))
      decreases |chunks| - i
    {
      hide Frame, Stream, Sendable, NonEmpty;
      NonEmptySendable(chunks);
      if i == |chunks| {
        assert chunks[..i] == chunks;
      } else {
        NextChunk(chunks, i);
        SentPrefix(chunks, i + 1);
      }
    }
  }

  // What reading some bytes from a socket comes to: those got, those the socket has yet to
  // give, and the results that calls of read(2) have yet to return.
  datatype Pulled = Pulled(ok: bool, got: seq<Byte>, incoming: seq<Byte>, script: seq<int>)

  // How many of `avail` bytes a call of read(2) for `len` of them gives that would give `n`.
  function Given(n: int, len: nat, avail: nat): (r: nat)
    ensures r <= len && r <= avail && (r > 0 <==> n >= 1 && len > 0 && avail > 0)
  {
    if n < 1 then 0 else if n <= len && n <= avail then n else if len <= avail then len else avail
  }

  // Lines 148-165: calls of read(2) until `len` bytes have come or a call gives none.
  function Pull(incoming: seq<Byte>, script: seq<int>, len: nat): Pulled {
    if len == 0 then Pulled(true, [], incoming, script)
    else if script == [] then Pulled(false, [], incoming, [])
    else
      var n := Given(script[0], len, |incoming|);
      if n > 0 then
        var p := Pull(incoming[n..], script[1..], len - n);
        p.(got := incoming[..n] + p.got)
      else Pulled(false, [], incoming, script[1..])
  }

  lemma {:induction false} PullBytes(incoming: seq<Byte>, script: seq<int>, len: nat)
    ensures var p := Pull(incoming, script, len);
      && p.got + p.incoming == incoming && |p.got| <= len && (p.ok <==> |p.got| == len)
    decreases len
  {
    if len > 0 && script != [] {
      var n := Given(script[0], len, |incoming|);
      if n > 0 {
        PullBytes(incoming[n..], script[1..], len - n);
        var p := Pull(incoming[n..], script[1..], len - n);
        assert incoming[..n] + p.got + p.incoming == incoming[..n] + (p.got + p.incoming);
      }
    }
  }

  // A call that gives all that is wanted.
  lemma PullWhole(incoming: seq<Byte>, script: seq<int>, n: nat)
    requires script != [] && script[0] == n && 1 <= n <= |incoming|
    ensures Pull(incoming, script, n) == Pulled(true, incoming[..n], incoming[n..], script[1..])
  {
    assert Pull(incoming[n..], script[1..], 0) == Pulled(true, [], incoming[n..], script[1..]);
    assert incoming[..n] + [] == incoming[..n];
  }

  // A call that gives nothing.
  lemma PullNone(incoming: seq<Byte>, script: seq<int>, len: nat)
    requires len > 0 && script != [] && script[0] == 0
    ensures Pull(incoming, script, len) == Pulled(false, [], incoming, script[1..])
  {
  }

  // Calls that give something as long as there is something, and enough of them.
  ghost predicate Generous(incoming: seq<Byte>, script: seq<int>) {
    |script| >= |incoming| && forall n :: n in script ==> n >= 1
  }

  // Then reading fails only when the bytes have run out.
  lemma {:induction false} PullAll(incoming: seq<Byte>, script: seq<int>, len: nat)
    requires Generous(incoming, script)
    ensures var p := Pull(incoming, script, len); Generous(p.incoming, p.script) && (!p.ok ==> p.incoming == [])
    decreases len
  {
    if len > 0 && script != [] {
      var n := Given(script[0], len, |incoming|);
      assert script[0] in script && forall m :: m in script[1..] ==> m in script;
      if n > 0 {
        PullAll(incoming[n..], script[1..], len - n);
      }
    }
  }

  // Reading `len0` bytes from one state of the socket comes down to reading `len` from
  // another, having got some.
  ghost predicate Pulling(incoming0: seq<Byte>, script0: seq<int>, len0: nat, got: seq<Byte>, incoming: seq<Byte>,
      script: seq<int>, len: nat) {
    var p := Pull(incoming, script, len);
    Pull(incoming0, script0, len0) == p.(got := got + p.got)
  }

  lemma PullStart(incoming: seq<Byte>, script: seq<int>, len: nat)
    ensures Pulling(incoming, script, len, [], incoming, script, len)
  {
    var p := Pull(incoming, script, len);
    assert [] + p.got == p.got;
  }

  lemma PullOn(incoming0: seq<Byte>, script0: seq<int>, len0: nat, got: seq<Byte>, incoming: seq<Byte>,
      script: seq<int>, len: nat)
    requires Pulling(incoming0, script0, len0, got, incoming, script, len) && len > 0 && script != []
    requires Given(script[0], len, |incoming|) > 0
    ensures var n := Given(script[0], len, |incoming|);
      Pulling(incoming0, script0, len0, got + incoming[..n], incoming[n..], script[1..], len - n)
  {
    var n := Given(script[0], len, |incoming|);
    var p := Pull(incoming[n..], script[1..], len - n);
    assert got + (incoming[..n] + p.got) == got + incoming[..n] + p.got;
  }

  lemma PullEnd(incoming0: seq<Byte>, script0: seq<int>, len0: nat, got: seq<Byte>, incoming: seq<Byte>,
      script: seq<int>, len: nat)
    requires Pulling(incoming0, script0, len0, got, incoming, script, len)
    ensures len == 0 ==> Pull(incoming0, script0, len0) == Pulled(true, got, incoming, script)
    ensures len > 0 && script == [] ==> Pull(incoming0, script0, len0) == Pulled(false, got, incoming, [])
    ensures len > 0 && script != [] && Given(script[0], len, |incoming|) == 0 ==>
              Pull(incoming0, script0, len0) == Pulled(false, got, incoming, script[1..])
  {
    assert got + [] == got;
  }

  // Lines 252-279: the outcome of reading one frame.
  function PullFrame(o: Order, incoming: seq<Byte>, script: seq<int>): Pulled {
    var h := Pull(incoming, script, 8);
    PullBytes(incoming, script, 8);
    if !h.ok then h
    else
      var magic, length := Load(o, h.got[..4]), Load(o, h.got[4..8]);
      ParseBound(o, magic, length);
      match ParseHeader(o, magic, length)
      case Bad => h.(ok := false)
      case Length(n) => Pull(h.incoming, h.script, n)
  }

  lemma ParseBound(o: Order, m: int, l: int)
    requires 0 <= m < 0x1_0000_0000 && 0 <= l < 0x1_0000_0000
    ensures ParseHeader(o, m, l).Length? ==> 0 <= ParseHeader(o, m, l).len <= VTUNER_BUFFER_MAX
  {
  }

  // A frame read puts nothing back.
  lemma FrameBytes(o: Order, s: seq<Byte>, w: seq<int>)
    ensures |PullFrame(o, s, w).incoming| <= |s|
  {
    hide Load, ParseHeader;
    var h := Pull(s, w, 8);
    PullBytes(s, w, 8);
    if h.ok {
      ParseBound(o, Load(o, h.got[..4]), Load(o, h.got[4..8]));
      match ParseHeader(o, Load(o, h.got[..4]), Load(o, h.got[4..8]))
      case Bad =>
      case Length(n) => PullBytes(h.incoming, h.script, n);
    }
  }

  // In a stream of frames the first header announces the first payload.
  lemma HeaderAhead(o: Order, peer: Order, todo: seq<seq<Byte>>, s: seq<Byte>, w: seq<int>)
    requires todo != [] && |todo[0]| <= VTUNER_BUFFER_MAX && |s| >= 8 && s[..8] == Frame(peer, todo[0])[..8]
    ensures var h := Pull(s, w, 8); h.ok ==> PullFrame(o, s, w) == Pull(h.incoming, h.script, |todo[0]|)
  {
    hide Load, ParseHeader, Frame, Pull;
    var h := Pull(s, w, 8);
    var f := Frame(peer, todo[0]);
    PullBytes(s, w, 8);
    HeaderRoundTrip(o, peer, todo[0]);
    if h.ok {
      assert s[..8] == h.got;
      assert h.got[..4] == f[..8][..4] == f[..4] && h.got[4..8] == f[..8][4..8] == f[4..8];
    }
  }

  // From a stream of frames it takes the whole first frame, or less.
  lemma FrameOrLess(o: Order, peer: Order, todo: seq<seq<Byte>>, s: seq<Byte>, w: seq<int>)
    requires Sendable(todo) && s <= Stream(peer, todo)
    ensures var p := PullFrame(o, s, w);
      && (p.ok ==>
            && todo != [] && p.got == todo[0] && p.got != [] && Sendable(todo[1..])
            && p.incoming <= Stream(peer, todo[1..])
            && |s| - |p.incoming| == 8 + |todo[0]|)
      && (!p.ok && p.incoming != s ==> todo != [] && 0 < |s| - |p.incoming| < 8 + |todo[0]|)
  {
    hide Load, ParseHeader, Frame, Pull;
    var h := Pull(s, w, 8);
    PullBytes(s, w, 8);
    if s != [] {
      var f := Frame(peer, todo[0]);
      var n := |todo[0]|;
      assert todo[0] in todo && forall q :: q in todo[1..] ==> q in todo;
      HeaderRoundTrip(o, peer, todo[0]);
      if h.ok {
        assert s[..8] == f[..8];
        HeaderAhead(o, peer, todo, s, w);
        PullBytes(h.incoming, h.script, n);
        Split(s, f, Stream(peer, todo[1..]), h.got, Pull(h.incoming, h.script, n).got,
            Pull(h.incoming, h.script, n).incoming);
      }
    }
  }

  // From a stream that is all there, such calls take the first frame, if there is one.
  lemma FrameWhole(o: Order, peer: Order, todo: seq<seq<Byte>>, s: seq<Byte>, w: seq<int>)
    requires Generous(s, w) && Sendable(todo) && s == Stream(peer, todo)
    ensures var p := PullFrame(o, s, w);
      && Generous(p.incoming, p.script) && (p.ok <==> todo != [])
      && (p.ok ==> p.got == todo[0] && p.got != [] && Sendable(todo[1..]) && p.incoming == Stream(peer, todo[1..]))
      && (!p.ok ==> p.incoming == s)
  {
    hide Generous, PullFrame;
    FrameAll(o, peer, todo, s, w);
    FrameOrLess(o, peer, todo, s, w);
    if todo != [] {
      assert todo[0] in todo && |Frame(peer, todo[0])| == 8 + |todo[0]|;
    }
  }

  // In step, or with nothing left to come, a frame read by such calls fails only when the
  // bytes have run out; and with nothing left to come it does fail.
  lemma FrameAll(o: Order, peer: Order, todo: seq<seq<Byte>>, s: seq<Byte>, w: seq<int>)
    requires Generous(s, w) && (s == [] || (Sendable(todo) && s <= Stream(peer, todo)))
    ensures var p := PullFrame(o, s, w);
      && Generous(p.incoming, p.script) && (!p.ok ==> p.incoming == []) && (s == [] ==> !p.ok)
  {
    hide Load, ParseHeader, Frame, Pull, Generous;
    var h := Pull(s, w, 8);
    PullBytes(s, w, 8);
    PullAll(s, w, 8);
    if h.ok {
      var f := Frame(peer, todo[0]);
      HeaderRoundTrip(o, peer, todo[0]);
      assert todo[0] in todo && s[..8] == f[..8];
      HeaderAhead(o, peer, todo, s, w);
      PullAll(h.incoming, h.script, |todo[0]|);
    }
  }

  lemma Split(s: seq<Byte>, f: seq<Byte>, rest: seq<Byte>, a: seq<Byte>, b: seq<Byte>, c: seq<Byte>)
    requires s <= f + rest && s == a + (b + c) && |a| == 8 && 8 + |b| <= |f|
    ensures 8 + |b| == |f| ==> b == f[8..] && c <= rest
  {
    if 8 + |b| == |f| {
      assert s[8..|f|] == b && s[|f|..] == c;
      assert (f + rest)[8..|f|] == f[8..] && (f + rest)[|f|..] == rest;
    }
  }

  lemma {:induction false} StreamLength(o: Order, a: seq<seq<Byte>>, b: seq<seq<Byte>>)
    requires Sendable(a + b)
    ensures Sendable(a) && Sendable(b) && |Stream(o, a + b)| == |Stream(o, a)| + |Stream(o, b)|
  {
    assert forall q :: q in a ==> q in a + b;
    assert forall q :: q in b ==> q in a + b;
    if a == [] {
      assert a + b == b;
    } else {
      assert (a + b)[1..] == a[1..] + b;
      StreamLength(o, a[1..], b);
    }
  }

  // The result of a read call.
  datatype Reply = Bytes(data: seq<Byte>) | WouldBlock | Signal | Fault | Other

  class Client {
    const order: Order
    const buffer: array<Byte>
    var off: nat
    var rem: nat
    var incoming: seq<Byte>          // what the socket has yet to give
    var script: seq<int>             // what the calls of read(2) are going to return
    ghost const arriving: seq<Byte>  // all that arrives
    ghost const peer: Order
    ghost const plan: seq<seq<Byte>> // the payloads the server sends
    ghost var todo: seq<seq<Byte>>   // those not received yet
    ghost var done: seq<seq<Byte>>
    ghost var delivered: seq<Byte>   // what read calls have returned
    ghost var sync: bool             // no frame has been left half read
    ghost var astray: bool           // something that is no frame of the server has been taken for one

    // In step the socket is at the start of a frame, and what was returned, with what is left
    // in the buffer, are the payloads received. It is the start of all payloads as long as
    // nothing else has been taken for one.
    ghost predicate Valid()
      reads this, buffer
    {
      Sound(off, rem, delivered)
    }

    // Bytes in the buffer.
    ghost function Part(at: nat, left: nat): seq<Byte>
      reads buffer
    {
      if at + left <= buffer.Length then buffer[at..at + left] else []
    }

    // The same for any part of the buffer.
    ghost predicate Sound(at: nat, left: nat, out: seq<Byte>)
      reads this`incoming, this`todo, this`done, this`sync, this`astray, buffer
    {
      && buffer.Length >= VTUNER_BUFFER_MAX && at + left <= buffer.Length && Sendable(plan)
      && |incoming| <= |arriving|
      && (sync ==> done + todo == plan && Sendable(done) && Sendable(todo) && incoming <= Stream(peer, todo))
      && (sync ==> |arriving| - |incoming| == |Stream(peer, done)|)
      && (sync ==> !astray && out + buffer[at..at + left] == Concat(done))
      && (!astray ==> out + buffer[at..at + left] <= Concat(plan))
    }

    // Nothing has gone wrong, and the socket will give what it has.
    ghost predicate Steady()
      reads this`astray, this`sync, this`incoming, this`script
    {
      !astray && Generous(incoming, script) && (!sync ==> incoming == [])
    }

    // In step, with the whole of what is to come in the socket, which will give it.
    ghost predicate Whole()
      reads this`sync, this`todo, this`incoming, this`script
    {
      sync && WholeWith(incoming, script, todo)
    }

    ghost predicate WholeWith(s: seq<Byte>, w: seq<int>, payloads: seq<seq<Byte>>) {
      Generous(s, w) && Sendable(payloads) && s == Stream(peer, payloads)
    }

    // Then there is something for a read call as long as not all has been delivered.
    lemma Pending()
      requires Valid() && Whole() && |delivered| < |Concat(plan)|
      ensures rem == 0 ==> var p := PullFrame(order, incoming, script); p.ok && p.got != []
    {
      hide Generous, PullFrame, Stream, Sendable;
      if rem == 0 {
        assert delivered + buffer[off..off + rem] == delivered;
        assert todo == [] ==> done + todo == done;
        FrameWhole(order, peer, todo, incoming, script);
      }
    }

    constructor (order: Order, ghost peer: Order, ghost plan: seq<seq<Byte>>, arriving: seq<Byte>, script: seq<int>)
      requires Sendable(plan) && arriving <= Stream(peer, plan)
      ensures Valid() && sync && !astray && delivered == [] && rem == 0 && fresh(buffer) && todo == plan
      ensures this.order == order && this.peer == peer && this.plan == plan && incoming == arriving
        && this.script == script
      ensures arriving == Stream(peer, plan) && Generous(arriving, script) ==> Whole()
    {
      this.order, this.peer, this.plan, this.arriving := order, peer, plan, arriving;
      buffer := new Byte[4 * VTUNER_BUFFER_MAX](_ => 0);
      off, rem, incoming, this.script := 0, 0, arriving, script;
      todo, done, delivered, sync, astray := plan, [], [], true, false;
    }

    // The socket is between two frames of the stream.
    ghost predicate AtBoundary()
      reads this`incoming
    {
      exists k: nat {:trigger plan[..k]} :: k <= |plan| && Sendable(plan[..k])
        && |arriving| - |incoming| == |Stream(peer, plan[..k])|
    }

    // Whatever the bytes are cut into and wherever they end, the calls return the start of
    // what the server was given, unless something else has been taken for a frame.
    lemma InOrder()
      requires Valid() && !astray
      ensures delivered <= Concat(plan)
    {
      assert delivered <= delivered + buffer[off..off + rem];
    }

    // Lines 148-165: `len` bytes into the buffer, or not all of them.
    method FdRead(len: nat) returns (ok: bool)
      requires len <= buffer.Length
      modifies this`incoming, this`script, buffer
      ensures var p := Pull(old(incoming), old(script), len);
        && ok == p.ok && incoming == p.incoming && script == p.script && |p.got| <= len && buffer[..|p.got|] == p.got
    {
      hide Pull, Pulling;
      var at := 0;
      ghost var s, w := incoming, script;
      PullStart(s, w, len);
      assert buffer[..0] == [];
      while at < len
        invariant 0 <= at <= len && Pulling(s, w, len, buffer[..at], incoming, script, len - at)
        decreases len - at
      {
        ghost var got := buffer[..at];
        PullEnd(s, w, len, got, incoming, script, len - at);
        if script == [] {
          return false;
        }
        var n := Given(script[0], len - at, |incoming|);
        if n == 0 {
          script := script[1..];
          return false;
        }
        PullOn(s, w, len, got, incoming, script, len - at);
        Fill(buffer, at, incoming[..n]);
        assert buffer[..at + n] == got + incoming[..n];
        incoming, script := incoming[n..], script[1..];
        at := at + n;
      }
      PullEnd(s, w, len, buffer[..at], incoming, script, 0);
      ok := true;
    }

    // Lines 252-279.
    method ReadFrame() returns (ok: bool, len: nat)
      requires buffer.Length >= VTUNER_BUFFER_MAX
      modifies this`incoming, this`script, buffer
      ensures var p := PullFrame(order, old(incoming), old(script));
        && ok == p.ok && incoming == p.incoming && script == p.script
        && (ok ==> len == |p.got| <= buffer.Length && Part(0, len) == p.got)
    {
      hide Load, ParseHeader;
      len := 0;
      ghost var h := Pull(incoming, script, 8);
      PullBytes(incoming, script, 8);
      ok := FdRead(8);
      if !ok {
        return;
      }
      assert buffer[..4] == buffer[..8][..4] && buffer[4..8] == buffer[..8][4..];
      assert buffer[..8][..4] == h.got[..4] && buffer[..8][4..] == h.got[4..8];
      ParseBound(order, Load(order, buffer[..4]), Load(order, buffer[4..8]));
      match ParseHeader(order, Load(order, buffer[..4]), Load(order, buffer[4..8]))
      case Bad => ok := false;
      case Length(n) =>
        PullBytes(incoming, script, n);
        ok := FdRead(n);
        len := n;
        assert buffer[0..n] == buffer[..n];
    }

    // Lines 242-286: a frame, when the buffer has been used up. The socket stays in step with
    // the frames exactly when a read that fails has taken nothing from it.
    method DoPeerRead() returns (ok: bool)
      requires Valid()
      modifies this`off, this`rem, this`incoming, this`script, this`todo, this`done, this`sync, this`astray, buffer
      ensures Valid() && sync == (old(sync) && (ok || incoming == old(incoming)))
      ensures astray == (old(astray) || (ok && old(rem) == 0 && !old(sync))) && (old(Steady()) ==> Steady())
      ensures old(sync) ==> (sync <==> AtBoundary())
      ensures old(Whole()) ==> Whole()
      ensures old(rem) > 0 ==> ok && off == old(off) && rem == old(rem) && Part(off, rem) == old(Part(off, rem))
      ensures old(rem) > 0 ==> incoming == old(incoming) && script == old(script)
      ensures old(rem) == 0 ==>
        var p := PullFrame(order, old(incoming), old(script));
        && ok == p.ok && incoming == p.incoming && script == p.script
        && if ok then off == 0 && rem == |p.got| && Part(0, rem) == p.got else rem == 0
    {
      hide Valid, Stood, Stream, Sendable, PullFrame, AtBoundary, Generous, Whole, WholeWith, Part;
      InStepAtBoundary();
      if rem != 0 {
        return true;
      }
      ghost var s, w := incoming, script;
      StoodBefore();
      Ahead(s, w);
      ghost var whole := Whole();
      var len;
      ok, len := ReadFrame();
      Settle(s, ok, len);
      if whole {
        WholeAgain();
      }
    }

    // A frame has come, or has been left half read, or nothing has been taken.
    method Settle(ghost s: seq<Byte>, ok: bool, len: nat)
      requires Stood(s) && |incoming| <= |s| && (ok ==> len <= buffer.Length)
      requires ok && sync ==>
        && todo != [] && len == |todo[0]| && Part(0, len) == todo[0] && Sendable(todo[1..])
        && incoming <= Stream(peer, todo[1..]) && |s| - |incoming| == 8 + len
      requires !ok && sync && incoming != s ==> todo != [] && 0 < |s| - |incoming| < 8 + |todo[0]|
      modifies this`off, this`rem, this`todo, this`done, this`sync, this`astray
      ensures Valid() && sync == (old(sync) && (ok || incoming == s)) && astray == (old(astray) || (ok && !old(sync)))
      ensures old(sync) ==> (sync <==> AtBoundary())
      ensures if ok then off == 0 && rem == len else rem == old(rem)
      ensures todo == if ok && sync then old(todo)[1..] else old(todo)
    {
      hide Valid, Stood, AtBoundary, Stream, Sendable, Part;
      if ok {
        Accept(s, len);
      } else if sync && incoming != s {
        Lose(s);
      } else {
        Unread(s);
      }
      InStepAtBoundary();
    }

    // What the next frame read will do.
    lemma Ahead(s: seq<Byte>, w: seq<int>)
      requires Stood(s) && s == incoming && w == script
      ensures var p := PullFrame(order, s, w);
        && |p.incoming| <= |s|
        && (p.ok && sync ==>
              && todo != [] && p.got == todo[0] && Sendable(todo[1..])
              && p.incoming <= Stream(peer, todo[1..]) && |s| - |p.incoming| == 8 + |p.got|)
        && (!p.ok && sync && p.incoming != s ==> todo != [] && 0 < |s| - |p.incoming| < 8 + |todo[0]|)
        && (Steady() ==> Generous(p.incoming, p.script) && (!p.ok ==> p.incoming == []) && (p.ok ==> sync))
        && (Whole() ==> sync && (!p.ok ==> p.incoming == s)
                        && WholeWith(p.incoming, p.script, if p.ok then todo[1..] else todo))
    {
      hide Stood, Stream, Sendable, PullFrame, Generous;
      FrameBytes(order, s, w);
      if sync {
        FrameAhead(s, w);
      }
      if Steady() {
        FrameSteady(s, w);
      }
      if Whole() {
        FrameWhole(order, peer, todo, s, w);
      }
    }

    lemma WholeAgain()
      requires sync && WholeWith(incoming, script, todo)
      ensures Whole()
    {
    }

    // The state before a frame is read, with `s` in the socket.
    ghost predicate Stood(s: seq<Byte>)
      reads this`off, this`rem, this`todo, this`done, this`delivered, this`sync, this`astray
    {
      && buffer.Length >= VTUNER_BUFFER_MAX && rem == 0 && off <= buffer.Length && Sendable(plan) && |s| <= |arriving|
      && (sync ==> done + todo == plan && Sendable(done) && Sendable(todo) && s <= Stream(peer, todo))
      && (sync ==> |arriving| - |s| == |Stream(peer, done)| && !astray && delivered == Concat(done))
      && (!astray ==> delivered <= Concat(plan))
    }

    lemma StoodBefore()
      requires Valid() && rem == 0
      ensures Stood(incoming) && buffer.Length >= VTUNER_BUFFER_MAX
    {
    }

    lemma FrameAhead(s: seq<Byte>, w: seq<int>)
      requires Stood(s) && sync
      ensures var p := PullFrame(order, s, w);
        && (p.ok ==>
              && todo != [] && p.got == todo[0] && p.got != [] && Sendable(todo[1..])
              && p.incoming <= Stream(peer, todo[1..])
              && |s| - |p.incoming| == 8 + |todo[0]|)
        && (!p.ok && p.incoming != s ==> todo != [] && 0 < |s| - |p.incoming| < 8 + |todo[0]|)
    {
      FrameOrLess(order, peer, todo, s, w);
    }

    lemma FrameSteady(s: seq<Byte>, w: seq<int>)
      requires Stood(s) && Generous(s, w) && (!sync ==> s == [])
      ensures var p := PullFrame(order, s, w);
        && Generous(p.incoming, p.script) && (!p.ok ==> p.incoming == []) && (p.ok ==> sync)
    {
      FrameAll(order, peer, todo, s, w);
    }

    // A whole frame has come.
    method Accept(ghost s: seq<Byte>, len: nat)
      requires Stood(s) && |incoming| <= |s| && len <= buffer.Length
      requires sync ==>
        && todo != [] && len == |todo[0]| && Part(0, len) == todo[0] && Sendable(todo[1..])
        && incoming <= Stream(peer, todo[1..]) && |s| - |incoming| == 8 + len
      modifies this`off, this`rem, this`todo, this`done, this`astray
      ensures Valid() && off == 0 && rem == len && astray == (old(astray) || !sync)
      ensures todo == if sync then old(todo)[1..] else old(todo)
    {
      hide Stream, Sendable, Concat;
      if sync {
        WholeRead();
        done, todo := done + [todo[0]], todo[1..];
        ConcatPrefix(done, todo);
      } else {
        astray := true;
      }
      rem, off := len, 0;
    }

    // A frame has been left half read.
    ghost method Lose(s: seq<Byte>)
      requires Stood(s) && sync && |incoming| <= |s| && todo != [] && 0 < |s| - |incoming| < 8 + |todo[0]|
      modifies this`sync
      ensures Valid() && !sync && !AtBoundary() && rem == old(rem)
    {
      hide Stream, Sendable, Concat, AtBoundary;
      assert plan[..|done|] == done && plan[|done|] == todo[0];
      NotAtBoundary();
      sync := false;
    }

    // Nothing has been taken, or it does not matter any more.
    lemma Unread(s: seq<Byte>)
      requires Stood(s) && |incoming| <= |s| && (sync ==> incoming == s)
      ensures Valid()
    {
    }

    lemma NotAtBoundary()
      requires Sendable(plan) && |done| < |plan| && plan[..|done|] == done && Sendable(done)
      requires |Stream(peer, done)| < |arriving| - |incoming| < |Stream(peer, done)| + 8 + |plan[|done|]|
      ensures !AtBoundary()
    {
      forall k: nat {:trigger plan[..k]} | k <= |plan| && Sendable(plan[..k])
        ensures |arriving| - |incoming| != |Stream(peer, plan[..k])|
      {
        HalfRead(k);
      }
    }

    // A frame has been left half read.
    lemma HalfRead(k: nat)
      requires Sendable(plan) && |done| < |plan| && plan[..|done|] == done && k <= |plan|
      requires Sendable(done) && Sendable(plan[..k])
      requires |Stream(peer, done)| < |arriving| - |incoming| < |Stream(peer, done)| + 8 + |plan[|done|]|
      ensures |arriving| - |incoming| != |Stream(peer, plan[..k])|
    {
      var n := |done|;
      if k <= n {
        assert done[..k] == plan[..k] && done == done[..k] + done[k..];
        StreamLength(peer, done[..k], done[k..]);
      } else {
        assert plan[..k] == plan[..n + 1] + plan[n + 1..k];
        assert plan[..n + 1] == done + [plan[n]];
        StreamLength(peer, plan[..n + 1], plan[n + 1..k]);
        StreamAppend(peer, done, plan[n]);
      }
    }

    // A whole frame has been read.
    lemma WholeRead()
      requires done + todo == plan && todo != [] && Sendable(plan) && Sendable(done)
      ensures Sendable(done + [todo[0]]) && done + [todo[0]] + todo[1..] == plan
      ensures |Stream(peer, done + [todo[0]])| == |Stream(peer, done)| + 8 + |todo[0]|
      ensures Concat(done + [todo[0]]) == Concat(done) + todo[0]
    {
      assert forall q :: q in done + [todo[0]] ==> q in plan;
      ConcatAppend(done, todo[0]);
      StreamAppend(peer, done, todo[0]);
    }

    lemma InBuffer()
      requires Valid()
      ensures off + rem <= buffer.Length && Part(off, rem) == buffer[off..off + rem] && |Part(off, rem)| == rem
    {
    }

    lemma Sliced(n: nat)
      requires Valid() && n <= rem
      ensures off + n <= buffer.Length && |Part(off, rem)| == rem && Part(off, rem)[..n] == buffer[off..off + n]
    {
    }

    lemma InStepAtBoundary()
      requires Valid()
      ensures sync ==> AtBoundary() && !astray
    {
      if sync {
        assert plan[..|done|] == done;
      }
    }

    // Lines 787-839. `patience` is how often the call goes round before a signal arrives,
    // `ready` that a waiting message has been announced, and `fault` that the user's memory
    // cannot be written. A call that does not wait, or finds something to copy, is over after
    // its first round.
    method Read(nonblock: bool, ready: bool, fault: bool, len: nat, patience: nat) returns (r: Reply)
      requires Valid()
      modifies this`off, this`rem, this`incoming, this`script, this`todo, this`done, this`delivered, this`sync,
          this`astray,
        buffer
      ensures Valid() && (sync ==> old(sync)) && (old(sync) ==> (sync <==> AtBoundary()))
      ensures delivered == old(delivered) + if r.Bytes? then r.data else []
      ensures r.Bytes? ==> 0 < |r.data| <= len && !fault
      ensures r != Other ==> sync == old(sync)
      ensures (old(astray) ==> astray) && (old(sync) ==> !astray)
      ensures (old(Steady()) ==> Steady()) && (old(Whole()) ==> Whole())
      // something is in the buffer
      ensures patience > 0 && old(rem) > 0 && len > 0 && !fault ==>
        var n := if len < old(rem) then len else old(rem);
        && r == Bytes(old(buffer[off..off + n])) && Part(off, rem) == old(Part(off, rem))[n..]
        && off == old(off) + n && rem == old(rem) - n && incoming == old(incoming) && script == old(script)
      // nothing is in the buffer: a frame is read
      ensures patience > 0 && old(rem) == 0 && (!nonblock || ready) ==>
        var p := PullFrame(order, old(incoming), old(script));
        && (!p.ok ==> r == Other && incoming == p.incoming && script == p.script && rem == 0)
        && (p.ok && p.got != [] && len > 0 && !fault ==>
              var n := if len < |p.got| then len else |p.got|;
              && r == Bytes(p.got[..n]) && Part(off, rem) == p.got[n..]
              && incoming == p.incoming && script == p.script)
        && (p.ok && p.got != [] && len > 0 && fault ==> r == Fault)
        && (p.ok && (p.got == [] || len == 0) && nonblock ==> r == WouldBlock)
      // nothing is in the buffer, and nothing is looked for
      ensures patience > 0 && old(rem) == 0 && nonblock && !ready ==>
        r == WouldBlock && rem == 0 && incoming == old(incoming) && script == old(script)
      ensures patience > 0 && old(rem) > 0 && len > 0 && fault ==> r == Fault && rem == old(rem)
      ensures patience > 0 && old(rem) > 0 && len == 0 && nonblock ==> r == WouldBlock && rem == old(rem)
      ensures (patience == 0 ==> r == Signal) && (r == Fault ==> fault) && (r == WouldBlock ==> nonblock)
      ensures r == Signal && patience > 0 ==> !nonblock && (len == 0 || old(rem) == 0)
    {
      hide PullFrame, AtBoundary, Valid, Generous, Steady, Whole, Part;
      InStepAtBoundary();
      ghost var p := PullFrame(order, incoming, script);
      Sliced(if len > rem then rem else len);
      var left := patience;
      while true
        invariant Valid() && sync == old(sync) && delivered == old(delivered) && (sync ==> AtBoundary())
        invariant 0 <= left <= patience && (old(astray) ==> astray) && (old(sync) ==> !astray)
        invariant (old(Steady()) ==> Steady()) && (old(Whole()) ==> Whole())
        invariant left == patience ==> off == old(off) && rem == old(rem)
        invariant left == patience ==> Part(off, rem) == old(Part(off, rem))
        invariant left == patience ==> incoming == old(incoming) && script == old(script)
        invariant left < patience ==>
            !nonblock && (old(rem) > 0 || p.ok) && (len == 0 || (old(rem) == 0 && p.got == []))
        decreases left
      {
        if left == 0 {
          return Signal;
        }
        left := left - 1;
        var again;
        r, again := Round(nonblock, ready, fault, len);
        if !again {
          return;
        }
      }
    }

    // Lines 800-836: one round. `again` tells that the call has found nothing and waits on.
    method Round(nonblock: bool, ready: bool, fault: bool, len: nat) returns (r: Reply, again: bool)
      requires Valid()
      modifies this`off, this`rem, this`incoming, this`script, this`todo, this`done, this`delivered, this`sync,
          this`astray,
        buffer
      ensures Valid() && (sync ==> old(sync)) && (old(sync) ==> (sync <==> AtBoundary()))
      ensures delivered == old(delivered) + if r.Bytes? then r.data else []
      ensures r.Bytes? ==> 0 < |r.data| <= len && !fault && !again
      ensures r != Other ==> sync == old(sync)
      ensures r != Signal && (again ==> r == WouldBlock && !nonblock)
      ensures (r == Fault ==> fault) && (r == WouldBlock ==> nonblock || again)
      ensures (old(astray) ==> astray) && (old(sync) ==> !astray)
      ensures (old(Steady()) ==> Steady()) && (old(Whole()) ==> Whole())
      ensures old(rem) > 0 || (nonblock && !ready) ==>
        && Handed(old(Part(off, rem)), nonblock, fault, len, r, again, Part(off, rem))
        && off + rem == old(off + rem) && rem == |Part(off, rem)|
        && incoming == old(incoming) && script == old(script)
      ensures old(rem) == 0 && (!nonblock || ready) ==>
        var p := PullFrame(order, old(incoming), old(script));
        && incoming == p.incoming && script == p.script
        && (!p.ok ==> r == Other && !again && rem == 0)
        && (p.ok ==> Handed(p.got, nonblock, fault, len, r, again, Part(off, rem)))
    {
      hide PullFrame, AtBoundary, Valid, Generous, Steady, Whole, Part, Handed;
      InStepAtBoundary();
      if !nonblock || ready {
        var ok := DoPeerRead();
        if !ok {
          return Other, false;
        }
      }
      r, again := Hand(nonblock, fault, len);
    }

    // The answer of a round that has `have` in the buffer, and what it leaves there.
    static ghost predicate Handed(have: seq<Byte>, nonblock: bool, fault: bool, len: nat, r: Reply, again: bool,
        left: seq<Byte>) {
      var n := if len < |have| then len else |have|;
      && left == (if fault then have else have[n..])
      && r == (if n == 0 then WouldBlock else if fault then Fault else Bytes(have[..n]))
      && (again <==> n == 0 && !nonblock)
    }

    // Lines 808-836: what is in the buffer is copied, as far as there is room for it.
    method Hand(nonblock: bool, fault: bool, len: nat) returns (r: Reply, again: bool)
      requires Valid()
      modifies this`off, this`rem, this`delivered
      ensures Valid() && delivered == old(delivered) + if r.Bytes? then r.data else []
      ensures r.Bytes? ==> 0 < |r.data| <= len && !fault && !again
      ensures r != Signal && r != Other && (again ==> r == WouldBlock && !nonblock)
      ensures (r == Fault ==> fault) && (r == WouldBlock ==> nonblock || again)
      ensures Handed(old(Part(off, rem)), nonblock, fault, len, r, again, Part(off, rem))
      ensures off + rem == old(off + rem) && rem == |Part(off, rem)|
    {
      InBuffer();
      hide Valid, Part;
      var delta := if len > rem then rem else len;
      if delta != 0 {
        if fault {
          return Fault, false;
        }
        var copied := Copy(delta);
        return Bytes(copied), false;
      }
      return WouldBlock, !nonblock;
    }

    // Lines 812-821.
    method Copy(delta: nat) returns (data: seq<Byte>)
      requires Valid() && 0 < delta <= rem
      modifies this`off, this`rem, this`delivered
      ensures Valid() && delivered == old(delivered) + data && off == old(off) + delta && rem == old(rem) - delta
      ensures |old(Part(off, rem))| == old(rem)
      ensures data == old(Part(off, rem))[..delta] && Part(off, rem) == old(Part(off, rem))[delta..]
    {
      CopyKeeps(delta);
      hide Sound, Part;
      data := Slice(off, delta);
      delivered := delivered + data;
      off := off + delta;
      rem := rem - delta;
    }

    method Slice(at: nat, n: nat) returns (data: seq<Byte>)
      requires at + n <= buffer.Length
      ensures data == Part(at, n)
    {
      data := buffer[at..at + n];
    }

    lemma CopyKeeps(delta: nat)
      requires Valid() && delta <= rem
      ensures off + rem <= buffer.Length && Sound(off + delta, rem - delta, delivered + Part(off, delta))
      ensures var have := Part(off, rem);
        && |have| == rem && have[..delta] == Part(off, delta) && have[delta..] == Part(off + delta, rem - delta)
    {
      hide Stream, Sendable, Concat;
      var data, rest := buffer[off..off + delta], buffer[off + delta..off + rem];
      assert buffer[off..off + rem] == data + rest;
      assert delivered + (data + rest) == delivered + data + rest;
    }
  }

  // A read call and what it meets with.
  datatype Call = Call(nonblock: bool, ready: bool, fault: bool, len: nat, patience: nat)

  // The calls that look at the socket and have room for what there is.
  ghost function Able(calls: seq<Call>): nat {
    if calls == [] then 0
    else
      var c := calls[|calls| - 1];
      Able(calls[..|calls| - 1])
        + if c.patience > 0 && c.len > 0 && !c.fault && (!c.nonblock || c.ready) then 1 else 0
  }

  // Both ends, whatever the device yields, however the writes and the reads are cut, wherever
  // the connection ends, and for read calls of any kind and length: what the calls return is
  // the start of what was read from the device, unless the client has taken something else
  // for a frame. It never has if reads fail only when no byte is left; and if writes never
  // fail either, enough read calls return all that was read from the device.
  method Relay(order: Order, peer: Order, chunks: seq<seq<Byte>>, writes: nat -> int, script: seq<int>,
      calls: seq<Call>)
    returns (server: Server, client: Client)
    requires forall p :: p in chunks ==> |p| <= VTUNER_BUFFER_MAX
    ensures !client.astray ==> client.delivered <= Concat(chunks)
    ensures Generous(server.wire, script) ==> !client.astray
    ensures Decode(order, server.wire) <= NonEmpty(chunks)
    ensures (forall k: nat :: writes(k) >= 1) && Generous(server.wire, script) && Able(calls) >= |Concat(chunks)| ==>
        client.delivered == Concat(chunks)
  {
    hide Concat, Decode, Generous, NonEmpty, Stream, Sendable, Client.Valid, Client.Whole, PullFrame;
    server := new Server(peer, writes);
    var sent := server.WriterThread(chunks);
    server.WireDecodes(chunks, order);
    ConcatNonEmpty(chunks);
    client := new Client(order, peer, NonEmpty(chunks), server.wire, script);
    ghost var wire := server.wire;
    for i := 0 to |calls|
      invariant server.wire == wire && client.Valid() && client.buffer != server.buffer && fresh(client.buffer)
        && client.plan == NonEmpty(chunks) && client.order == order
      invariant Generous(wire, script) ==> client.Steady()
      invariant sent && Generous(wire, script) ==> client.Whole()
      invariant sent && Generous(wire, script) ==>
        |client.delivered| >= Able(calls[..i]) || |client.delivered| >= |Concat(chunks)|
    {
      assert calls[..i + 1][..i] == calls[..i];
      if client.Whole() && |client.delivered| < |Concat(chunks)| {
        client.Pending();
      }
      var c := calls[i];
      var r := client.Read(c.nonblock, c.ready, c.fault, c.len, c.patience);
    }
    assert calls[..|calls|] == calls;
    if !client.astray {
      client.InOrder();
    }
  }

  // The first read gets a header and no more of its frame; the next takes the payload for a
  // frame of its own. What it returns is not what the server was given.
  method OutOfStep(o: Order) returns (client: Client, r0: Reply, r1: Reply)
    ensures client.plan == [Frame(o, [7])] && r0 == Other && r1 == Bytes([7])
      && !(client.delivered <= Concat(client.plan))
  {
    hide Word, Load, ParseHeader, Concat;
    var payload := Word(o, VTUNER_MAGIC) + Word(o, 1) + [7];
    FrameInFrame(o, payload);
    client := new Client(o, o, [payload], Word(o, VTUNER_MAGIC) + Word(o, 9) + payload, [8, 0, 8, 1]);
    r0 := client.Read(false, false, false, 9, 1);
    r1 := client.Read(false, false, false, 9, 1);
  }

  lemma FrameInFrame(o: Order, payload: seq<Byte>)
    requires payload == Word(o, VTUNER_MAGIC) + Word(o, 1) + [7]
    ensures payload == Frame(o, [7]) && Sendable([payload])
      && Stream(o, [payload]) == Word(o, VTUNER_MAGIC) + Word(o, 9) + payload
    ensures Concat([payload]) == payload && payload[0] != 7
    ensures var p := PullFrame(o, Stream(o, [payload]), [8, 0, 8, 1]);
      !p.ok && p.incoming == payload && p.script == [8, 1]
    ensures var p := PullFrame(o, payload, [8, 1]); p.ok && p.got == [7]
  {
    hide Load, ParseHeader, Pull;
    var one: seq<seq<Byte>> := [payload];
    assert one[1..] == [];
    assert Stream(o, [payload]) == Frame(o, payload) + [];
    HeaderPulled(o, payload, [8, 0, 8, 1]);
    HeaderPulled(o, [7], [8, 1]);
    assert [8, 0, 8, 1][1..] == [0, 8, 1] && [0, 8, 1][1..] == [8, 1] && [8, 1][1..] == [1];
    PullNone(payload, [0, 8, 1], 9);
    PullWhole([7], [1], 1);
  }

  // A header that comes in one piece leaves the payload to be read.
  lemma HeaderPulled(o: Order, payload: seq<Byte>, script: seq<int>)
    requires |payload| <= VTUNER_BUFFER_MAX && script != [] && script[0] == 8
    ensures PullFrame(o, Frame(o, payload), script) == Pull(payload, script[1..], |payload|)
  {
    hide Load, ParseHeader, Pull, Word;
    var f := Frame(o, payload);
    HeaderRoundTrip(o, o, payload);
    PullWhole(f, script, 8);
    assert f[..8][..4] == f[..4] && f[..8][4..8] == f[4..8];
  }
}
