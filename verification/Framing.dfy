/**
 The data stream of the vTuner protocol: what vtuner/vtuner_server.c writes to a socket, and
 how vtuner/vtuner_client.c takes it apart again, whatever the byte order of either side.
 */
module Framing {

  const VTUNER_MAGIC := 0x5654_554E
  const VTUNER_BUFFER_MAX := 2 * 65536

  type Byte = x: int | 0 <= x < 256

  datatype Order = Little | Big

  // A 32-bit word in memory.
  function Word(o: Order, w: int): (r: seq<Byte>)
    requires 0 <= w < 0x1_0000_0000
    ensures |r| == 4
  {
    var a, b, c, d := w % 0x100, w / 0x100 % 0x100, w / 0x1_0000 % 0x100, w / 0x100_0000;
    if o == Little then [a, b, c, d] else [d, c, b, a]
  }

  function Load(o: Order, s: seq<Byte>): (w: int)
    requires |s| == 4
    ensures 0 <= w < 0x1_0000_0000
  {
    if o == Little then Join(s[0], s[1], s[2], s[3]) else Join(s[3], s[2], s[1], s[0])
  }

  function Join(a: int, b: int, c: int, d: int): int {
    a + 0x100 * b + 0x1_0000 * c + 0x100_0000 * d
  }

  // bswap32
  function Swap(w: int): (r: int)
    requires 0 <= w < 0x1_0000_0000
    ensures 0 <= r < 0x1_0000_0000
  {
    Join(w / 0x100_0000, w / 0x1_0000 % 0x100, w / 0x100 % 0x100, w % 0x100)
  }

  lemma WordBytes(w: int)
    requires 0 <= w < 0x1_0000_0000
    ensures w == Join(w % 0x100, w / 0x100 % 0x100, w / 0x1_0000 % 0x100, w / 0x100_0000)
  {
    assert w / 0x1_0000 == w / 0x100 / 0x100 && w / 0x100_0000 == w / 0x1_0000 / 0x100;
  }

  lemma LoadWord(o: Order, p: Order, w: int)
    requires 0 <= w < 0x1_0000_0000
    ensures Load(o, Word(p, w)) == if o == p then w else Swap(w)
  {
    WordBytes(w);
  }

  lemma JoinBytes(a: int, b: int, c: int, d: int)
    requires 0 <= a < 0x100 && 0 <= b < 0x100 && 0 <= c < 0x100 && 0 <= d < 0x100
    ensures var w := Join(a, b, c, d);
      w % 0x100 == a && w / 0x100 % 0x100 == b && w / 0x1_0000 % 0x100 == c && w / 0x100_0000 == d
  {
    var w := Join(a, b, c, d);
    assert w / 0x100 == b + 0x100 * c + 0x1_0000 * d;
    assert w / 0x1_0000 == c + 0x100 * d;
  }

  // Swapping is undone by swapping.
  lemma SwapSwap(w: int)
    requires 0 <= w < 0x1_0000_0000
    ensures Swap(Swap(w)) == w
  {
    JoinBytes(w / 0x100_0000, w / 0x1_0000 % 0x100, w / 0x100 % 0x100, w % 0x100);
    WordBytes(w);
  }

  lemma MagicSwapped()
    ensures Swap(VTUNER_MAGIC) == 0x4E55_5456
  {
  }

  ghost function Frame(o: Order, payload: seq<Byte>): seq<Byte>
    requires |payload| <= VTUNER_BUFFER_MAX
  {
    Word(o, VTUNER_MAGIC) + Word(o, |payload|) + payload
  }

  ghost predicate Sendable(payloads: seq<seq<Byte>>) {
    forall p :: p in payloads ==> 0 < |p| <= VTUNER_BUFFER_MAX
  }

  // What the server writes for a sequence of payloads.
  ghost function Stream(o: Order, payloads: seq<seq<Byte>>): seq<Byte>
    requires Sendable(payloads)
  {
    if payloads == [] then [] else Frame(o, payloads[0]) + Stream(o, payloads[1..])
  }

  ghost function Concat(payloads: seq<seq<Byte>>): seq<Byte> {
    if payloads == [] then [] else payloads[0] + Concat(payloads[1..])
  }

  lemma {:induction false} StreamAppend(o: Order, payloads: seq<seq<Byte>>, p: seq<Byte>)
    requires Sendable(payloads + [p])
    ensures Sendable(payloads) && 0 < |p| <= VTUNER_BUFFER_MAX
    ensures Stream(o, payloads + [p]) == Stream(o, payloads) + Frame(o, p)
  {
    assert forall q :: q in payloads ==> q in payloads + [p];
    assert p in payloads + [p];
    if payloads == [] {
      assert payloads + [p] == [p];
    } else {
      assert (payloads + [p])[1..] == payloads[1..] + [p];
      assert Sendable(payloads[1..] + [p]);
      StreamAppend(o, payloads[1..], p);
    }
  }

  lemma {:induction false} ConcatAppend(payloads: seq<seq<Byte>>, p: seq<Byte>)
    ensures Concat(payloads + [p]) == Concat(payloads) + p
  {
    if payloads == [] {
      assert payloads + [p] == [p];
    } else {
      assert (payloads + [p])[1..] == payloads[1..] + [p];
      ConcatAppend(payloads[1..], p);
    }
  }

  lemma {:induction false} ConcatPrefix(a: seq<seq<Byte>>, b: seq<seq<Byte>>)
    ensures Concat(a) <= Concat(a + b)
  {
    if a == [] {
    } else {
      assert (a + b)[1..] == a[1..] + b;
      ConcatPrefix(a[1..], b);
    }
  }

  datatype Header = Bad | Length(len: int)

  // The header check of the client (lines 256-271 of vtuner_client.c): the magic number tells
  // the byte order; the length may then be too large.
  function ParseHeader(o: Order, magic: int, length: int): Header
    requires 0 <= magic < 0x1_0000_0000 && 0 <= length < 0x1_0000_0000
  {
    var swapped := magic != VTUNER_MAGIC;
    var m := if swapped then Swap(magic) else magic;
    var l := if swapped then Swap(length) else length;
    if m != VTUNER_MAGIC || l > VTUNER_BUFFER_MAX then Bad else Length(l)
  }

  // The header of a frame is understood by a client of either byte order.
  lemma HeaderRoundTrip(o: Order, p: Order, payload: seq<Byte>)
    requires |payload| <= VTUNER_BUFFER_MAX
    ensures var f := Frame(p, payload);
      && |f| == 8 + |payload| && f[8..] == payload
      && ParseHeader(o, Load(o, f[..4]), Load(o, f[4..8])) == Length(|payload|)
  {
    hide Load, Word, Swap;
    var f := Frame(p, payload);
    assert f[..4] == Word(p, VTUNER_MAGIC) && f[4..8] == Word(p, |payload|);
    LoadWord(o, p, VTUNER_MAGIC);
    LoadWord(o, p, |payload|);
    SwapSwap(VTUNER_MAGIC);
    SwapSwap(|payload|);
    MagicSwapped();
  }

  lemma WordLoad(o: Order, p: Order, s: seq<Byte>)
    requires |s| == 4
    ensures Word(p, if o == p then Load(o, s) else Swap(Load(o, s))) == s
  {
    if o == Little {
      JoinBytes(s[0], s[1], s[2], s[3]);
    } else {
      JoinBytes(s[3], s[2], s[1], s[0]);
    }
    var w := Load(o, s);
    JoinBytes(w / 0x100_0000, w / 0x1_0000 % 0x100, w / 0x100 % 0x100, w % 0x100);
  }

  // Eight bytes are taken for the header of a payload of length `n` exactly if some machine
  // would write them for one.
  lemma HeaderIff(o: Order, s: seq<Byte>, n: int)
    requires |s| == 8
    ensures ParseHeader(o, Load(o, s[..4]), Load(o, s[4..])) == Length(n) <==>
      0 <= n <= VTUNER_BUFFER_MAX && exists p: Order :: s == Word(p, VTUNER_MAGIC) + Word(p, n)
  {
    hide Load, Word, Swap;
    var magic, length := Load(o, s[..4]), Load(o, s[4..]);
    var other := if o == Little then Big else Little;
    WordLoad(o, o, s[..4]);
    WordLoad(o, o, s[4..]);
    WordLoad(o, other, s[..4]);
    WordLoad(o, other, s[4..]);
    assert s == s[..4] + s[4..];
    if 0 <= n <= VTUNER_BUFFER_MAX {
      forall p: Order | s == Word(p, VTUNER_MAGIC) + Word(p, n)
        ensures ParseHeader(o, magic, length) == Length(n)
      {
        assert s[..4] == Word(p, VTUNER_MAGIC) && s[4..] == Word(p, n);
        LoadWord(o, p, VTUNER_MAGIC);
        LoadWord(o, p, n);
        SwapSwap(VTUNER_MAGIC);
        SwapSwap(n);
        MagicSwapped();
      }
    }
  }

  // The payloads found in a stream, up to where it ends or makes no sense.
  ghost function Decode(o: Order, s: seq<Byte>): seq<seq<Byte>>
  {
    if |s| < 8 then [] else
      match ParseHeader(o, Load(o, s[..4]), Load(o, s[4..8]))
      case Bad => []
      case Length(n) => if |s| < 8 + n then [] else [s[8..8 + n]] + Decode(o, s[8 + n..])
  }

  lemma {:induction false} RoundTrip(o: Order, p: Order, payloads: seq<seq<Byte>>)
    requires Sendable(payloads)
    ensures Decode(o, Stream(p, payloads)) == payloads
  {
    hide Load, Frame, ParseHeader;
    if payloads != [] {
      var f := Frame(p, payloads[0]);
      var rest := Stream(p, payloads[1..]);
      var s := f + rest;
      HeaderRoundTrip(o, p, payloads[0]);
      assert s[..4] == f[..4] && s[4..8] == f[4..8] && s[8..|f|] == f[8..] && s[|f|..] == rest;
      RoundTrip(o, p, payloads[1..]);
    }
  }

  // A stream that has not arrived in full decodes to payloads from the start of the whole.
  lemma {:induction false} Truncated(o: Order, p: Order, payloads: seq<seq<Byte>>, s: seq<Byte>)
    requires Sendable(payloads) && s <= Stream(p, payloads)
    ensures Decode(o, s) <= payloads
  {
    hide Load, Frame, ParseHeader;
    if payloads != [] && |s| >= 8 {
      var f := Frame(p, payloads[0]);
      HeaderRoundTrip(o, p, payloads[0]);
      assert s[..4] == f[..4] && s[4..8] == f[4..8];
      if |s| >= |f| {
        assert s[8..|f|] == f[8..];
        assert s[|f|..] <= Stream(p, payloads[1..]) by {
          assert Stream(p, payloads)[|f|..] == Stream(p, payloads[1..]);
        }
        Truncated(o, p, payloads[1..], s[|f|..]);
      }
    }
  }
}
