/** Messages over a byte stream (vm/dist.c, vm/io.c): a length in network byte
    order, then that many bytes, however the writes and reads are cut up. */
module Framing {
  import opened MessageQueue

  type Bytes = seq<int>

  ghost predicate AreBytes(b: Bytes) {
    forall i :: 0 <= i < |b| ==> 0 <= b[i] < 256
  }

  const HEADER: nat := 4
  const LIMIT: int := 0x8000_0000

  /** htonl of a length. */
  function Encode(n: int): (r: Bytes)
    requires 0 <= n < LIMIT
    ensures |r| == HEADER && AreBytes(r)
  {
    [n / 0x100_0000, n / 0x1_0000 % 256, n / 256 % 256, n % 256]
  }

  /** ntohl into a signed length. */
  function Decode(b: Bytes): int
    requires |b| == HEADER
  {
    var n := b[0] * 0x100_0000 + b[1] * 0x1_0000 + b[2] * 256 + b[3];
    if n >= LIMIT then n - 2 * LIMIT else n
  }

  lemma DecodeEncode(n: int)
    requires 0 <= n < LIMIT
    ensures Decode(Encode(n)) == n
  {
    Sum(n);
    hide Encode;
    var b := Encode(n);
    EncodeParts(n);
    assert b[0] * 0x100_0000 + b[1] * 0x1_0000 + b[2] * 256 + b[3] == n;
  }

  /** Four bytes are a signed number of 32 bits, the first of them the highest. */
  lemma DecodeMeans(b: Bytes)
    requires |b| == HEADER && AreBytes(b)
    ensures -0x8000_0000 <= Decode(b) < 0x8000_0000 && (Decode(b) < 0 <==> b[0] >= 128)
    ensures b[0] * 0x100_0000 + b[1] * 0x1_0000 + b[2] * 256 + b[3] == Decode(b) + if b[0] >= 128 then 0x1_0000_0000 else 0
  {
    assert 0 <= b[0] < 256 && 0 <= b[1] < 256 && 0 <= b[2] < 256 && 0 <= b[3] < 256;
  }

  lemma EncodeParts(n: int)
    requires 0 <= n < LIMIT
    ensures Encode(n)[0] == n / 0x100_0000 && Encode(n)[1] == n / 0x1_0000 % 256 && Encode(n)[2] == n / 256 % 256 && Encode(n)[3] == n % 256
  {
  }

  lemma Sum(n: int)
    requires 0 <= n
    ensures n / 0x100_0000 * 0x100_0000 + n / 0x1_0000 % 256 * 0x1_0000 + n / 256 % 256 * 256 + n % 256 == n
  {
    var a, b := n / 256, n / 0x1_0000;
    assert b == a / 256 && n / 0x100_0000 == b / 256;
    assert n == a * 256 + n % 256 && a == b * 256 + a % 256 && b == b / 256 * 256 + b % 256;
  }

  lemma EncodeDecode(b: Bytes)
    requires |b| == HEADER && AreBytes(b) && Decode(b) >= 0
    ensures Decode(b) < LIMIT && Encode(Decode(b)) == b
  {
    assert 0 <= b[0] < 256 && 0 <= b[1] < 256 && 0 <= b[2] < 256 && 0 <= b[3] < 256;
    Digits(b[0], b[1], b[2], b[3]);
  }

  lemma Digits(a: int, b: int, c: int, d: int)
    requires 0 <= a < 256 && 0 <= b < 256 && 0 <= c < 256 && 0 <= d < 256
    ensures var n := a * 0x100_0000 + b * 0x1_0000 + c * 256 + d;
            n / 0x100_0000 == a && n / 0x1_0000 % 256 == b && n / 256 % 256 == c && n % 256 == d
  {
    var n := a * 0x100_0000 + b * 0x1_0000 + c * 256 + d;
    assert n / 256 == a * 0x1_0000 + b * 256 + c;
    assert n / 0x1_0000 == a * 256 + b;
  }

  /** A message that can be framed. */
  ghost predicate Sendable(m: Bytes) {
    0 < |m| < LIMIT && AreBytes(m)
  }

  function Frame(m: Bytes): Bytes
    requires |m| < LIMIT
  {
    Encode(|m|) + m
  }

  ghost predicate AllSendable(ms: seq<Bytes>) {
    forall i :: 0 <= i < |ms| ==> Sendable(ms[i])
  }

  ghost function Frames(ms: seq<Bytes>): Bytes
    requires AllSendable(ms)
  {
    if ms == [] then [] else Frame(ms[0]) + Frames(ms[1..])
  }

  lemma {:induction false} FramesSnoc(ms: seq<Bytes>, m: Bytes)
    requires AllSendable(ms) && Sendable(m)
    ensures AllSendable(ms + [m]) && Frames(ms + [m]) == Frames(ms) + Frame(m)
    decreases |ms|
  {
    hide Encode, Frame;
    if ms == [] {
      assert ms + [m] == [m] && [m][1..] == [];
    } else {
      FramesSnoc(ms[1..], m);
      assert (ms + [m])[1..] == ms[1..] + [m];
      assert Frames(ms + [m]) == Frame(ms[0]) + (Frames(ms[1..]) + Frame(m));
    }
  }

  /** A frame that has not arrived in full, or has a length that is not positive. */
  ghost predicate Partial(p: Bytes) {
    |p| < HEADER || Decode(p[..HEADER]) <= 0 || |p| - HEADER < Decode(p[..HEADER])
  }

  /** A stream that begins with frames, and goes on with what no frame begins,
      has one reading: the frames read from it are its own. */
  lemma {:induction false} InOrder(ms: seq<Bytes>, q: Bytes, got: seq<Bytes>, u: Bytes)
    requires AllSendable(ms) && AllSendable(got) && Partial(q) && Frames(got) + u == Frames(ms) + q
    ensures |got| <= |ms| && got == ms[..|got|] && AllSendable(ms[|got|..]) && u == Frames(ms[|got|..]) + q
    decreases |got|
  {
    hide Encode, Decode, Partial;
    if got == [] {
      assert Frames(got) == [] && ms[0..] == ms;
    } else {
      SameFirst(ms, q, got, u);
      InOrder(ms[1..], q, got[1..], u);
      assert got == [got[0]] + got[1..] && ms == [ms[0]] + ms[1..];
      assert ms[1..][|got| - 1..] == ms[|got|..];
    }
  }

  /** There is one way to divide a stream into frames and a rest that is none. */
  lemma OneReading(ms: seq<Bytes>, q: Bytes, got: seq<Bytes>, p: Bytes)
    requires AllSendable(ms) && AllSendable(got) && Partial(q) && Partial(p) && Frames(got) + p == Frames(ms) + q
    ensures got == ms && p == q
  {
    hide Encode, Decode, Partial;
    InOrder(ms, q, got, p);
    InOrder(got, p, ms, q);
    assert ms[|ms|..] == [] && Frames([]) == [];
  }

  lemma FramesFirst(ms: seq<Bytes>, q: Bytes)
    requires AllSendable(ms) && ms != []
    ensures Sendable(ms[0]) && AllSendable(ms[1..])
    ensures Frames(ms) + q == Encode(|ms[0]|) + (ms[0] + (Frames(ms[1..]) + q))
  {
    hide Encode;
    var m, v := ms[0], Frames(ms[1..]);
    assert Sendable(m);
    assert (Encode(|m|) + m + v) + q == Encode(|m|) + (m + (v + q));
  }

  /** Two framed streams that agree agree on the first message. */
  lemma SameFirst(ms: seq<Bytes>, q: Bytes, got: seq<Bytes>, u: Bytes)
    requires AllSendable(ms) && AllSendable(got) && got != [] && Partial(q) && Frames(got) + u == Frames(ms) + q
    ensures ms != [] && got[0] == ms[0] && AllSendable(got[1..]) && AllSendable(ms[1..])
    ensures Frames(got[1..]) + u == Frames(ms[1..]) + q
  {
    hide Encode, Decode, Frames, AllSendable, Partial, AreBytes;
    FramesFirst(got, u);
    var a, after := got[0], Frames(got[1..]) + u;
    DecodeEncode(|a|);
    if ms == [] {
      NoFrames();
      assert Frames(ms) + q == q;
      Whole(q, a, after);
      assert false;
    }
    FramesFirst(ms, q);
    var b, v := ms[0], Frames(ms[1..]) + q;
    CutAt(Encode(|a|), Encode(|b|), a + after, b + v);
    DecodeEncode(|b|);
    CutAt(a, b, after, v);
  }

  lemma NoFrames()
    ensures Frames([]) == []
  {
  }

  /** What begins with a frame is not partial. */
  lemma Whole(q: Bytes, a: Bytes, after: Bytes)
    requires Sendable(a) && q == Encode(|a|) + (a + after)
    ensures !Partial(q)
  {
    hide Encode, Decode;
    DecodeEncode(|a|);
    assert q[..HEADER] == Encode(|a|);
  }

  lemma CutAt(x: Bytes, y: Bytes, u: Bytes, v: Bytes)
    requires x + u == y + v && |x| == |y|
    ensures x == y && u == v
  {
    assert (x + u)[..|x|] == x && (y + v)[..|y|] == y;
    assert (x + u)[|x|..] == u && (y + v)[|y|..] == v;
  }

  // ----- any lengths at all -----

  /** A length and what follows it: as many bytes, if it is positive. */
  datatype Piece = Piece(header: Bytes, body: Bytes)

  ghost predicate IsPiece(c: Piece) {
    |c.header| == HEADER && AreBytes(c.header + c.body) && |c.body| == if Decode(c.header) > 0 then Decode(c.header) else 0
  }

  ghost predicate ArePieces(cs: seq<Piece>) {
    forall i :: 0 <= i < |cs| ==> IsPiece(cs[i])
  }

  function Wire(cs: seq<Piece>): Bytes {
    if cs == [] then [] else cs[0].header + cs[0].body + Wire(cs[1..])
  }

  function Bodies(cs: seq<Piece>): (r: seq<Bytes>)
    ensures |r| == |cs|
  {
    seq(|cs|, i requires 0 <= i < |cs| => cs[i].body)
  }

  ghost predicate AllPositive(cs: seq<Piece>)
    requires ArePieces(cs)
  {
    forall i :: 0 <= i < |cs| ==> Decode(cs[i].header) > 0
  }

  /** The first length that is not positive is that of piece `k`. */
  ghost predicate FirstBad(cs: seq<Piece>, k: int)
    requires ArePieces(cs)
  {
    0 <= k < |cs| && AllPositive(cs[..k]) && Decode(cs[k].header) <= 0
  }

  lemma {:induction false} FindBad(cs: seq<Piece>) returns (k: int)
    requires ArePieces(cs) && !AllPositive(cs)
    ensures FirstBad(cs, k)
    decreases |cs|
  {
    if Decode(cs[0].header) <= 0 {
      k := 0;
    } else {
      k := FindBad(cs[1..]);
      k := k + 1;
      assert forall i :: 0 < i < k ==> cs[..k][i] == cs[1..][..k - 1][i - 1];
    }
  }

  lemma PieceFrame(c: Piece)
    requires IsPiece(c) && Decode(c.header) > 0
    ensures Sendable(c.body) && Frame(c.body) == c.header + c.body
  {
    assert forall i :: 0 <= i < HEADER ==> c.header[i] == (c.header + c.body)[i];
    assert forall i :: 0 <= i < |c.body| ==> c.body[i] == (c.header + c.body)[HEADER + i];
    EncodeDecode(c.header);
  }

  /** Pieces of positive length are frames. */
  lemma {:induction false} PiecesFrames(cs: seq<Piece>)
    requires ArePieces(cs) && AllPositive(cs)
    ensures AllSendable(Bodies(cs)) && Wire(cs) == Frames(Bodies(cs))
    decreases |cs|
  {
    hide Decode, Frame, IsPiece;
    if cs != [] {
      PieceFrame(cs[0]);
      PiecesFrames(cs[1..]);
      assert Bodies(cs) == [cs[0].body] + Bodies(cs[1..]);
      assert Bodies(cs)[1..] == Bodies(cs[1..]);
    } else {
      assert Bodies(cs) == [];
    }
  }

  lemma {:induction false} WireSplit(cs: seq<Piece>, k: int)
    requires 0 <= k <= |cs|
    ensures Wire(cs) == Wire(cs[..k]) + Wire(cs[k..])
  {
    if k == 0 {
      assert cs[..0] == [] && cs[0..] == cs;
    } else {
      WireSplit(cs[1..], k - 1);
      assert cs[..k][1..] == cs[1..][..k - 1] && cs[1..][k - 1..] == cs[k..];
      var first := cs[0].header + cs[0].body;
      assert cs[..k][0] == cs[0];
      assert first + (Wire(cs[..k][1..]) + Wire(cs[k..])) == (first + Wire(cs[..k][1..])) + Wire(cs[k..]);
    }
  }

  /** The stream up to the first length that is not positive, and from there on. */
  lemma BadSplit(cs: seq<Piece>, k: int)
    requires ArePieces(cs) && FirstBad(cs, k)
    ensures AllSendable(Bodies(cs[..k])) && |cs[k].header| == HEADER
    ensures Wire(cs) == Frames(Bodies(cs[..k])) + (cs[k].header + Wire(cs[k + 1..]))
    ensures Partial(cs[k].header + Wire(cs[k + 1..]))
  {
    hide Decode;
    WireSplit(cs, k);
    PiecesFrames(cs[..k]);
    assert cs[k..][0] == cs[k] && cs[k..][1..] == cs[k + 1..];
    assert IsPiece(cs[k]);
    assert cs[k].body == [];
    assert cs[k].header + [] + Wire(cs[k + 1..]) == cs[k].header + Wire(cs[k + 1..]);
    assert (cs[k].header + Wire(cs[k + 1..]))[..HEADER] == cs[k].header;
  }

  // ----- sending -----

  /** What a write call may do: take some bytes, be interrupted, or fail. */
  datatype Outcome = Wrote(n: nat) | Interrupted | Failed

  const FAILED: int := -1
  const PENDING: int := -2

  function Taken(outcomes: seq<Outcome>): nat {
    if outcomes == [] then 0 else (if outcomes[0].Wrote? then outcomes[0].n else 0) + Taken(outcomes[1..])
  }

  class Sender {
    var wire: Bytes  // what has been handed to the network

    constructor ()
      ensures wire == []
    {
      wire := [];
    }

    /** Dwrite2: both buffers are written, in order, through any number of short
        writes and interruptions; PENDING if the outcomes run out first. */
    method Dwrite2(buf1: Bytes, buf2: Bytes, outcomes: seq<Outcome>) returns (res: int, ghost sent: nat)
      requires |buf1| + |buf2| > 0 && forall i :: 0 <= i < |outcomes| && outcomes[i].Wrote? ==> outcomes[i].n > 0
      modifies this
      ensures sent <= |buf1 + buf2| && wire == old(wire) + (buf1 + buf2)[..sent]
      ensures res == |buf1| + |buf2| || res == FAILED || res == PENDING
      ensures res == |buf1| + |buf2| <==> sent == |buf1 + buf2|
      ensures res == FAILED ==> Failed in outcomes
      ensures Failed !in outcomes && Taken(outcomes) >= |buf1| + |buf2| ==> res == |buf1| + |buf2|
    {
      ghost var all := buf1 + buf2;
      var v0, v1, i := buf1, buf2, 0;
      sent := 0;
      while i < |outcomes|
        invariant 0 <= i <= |outcomes| && sent < |all| && v0 + v1 == all[sent..] && wire == old(wire) + all[..sent]
        invariant Failed !in outcomes ==> Taken(outcomes) <= sent + Taken(outcomes[i..])
      {
        assert outcomes[i..][0] == outcomes[i] && outcomes[i..][1..] == outcomes[i + 1..];
        assert outcomes[i] in outcomes;
        match outcomes[i] {
          case Failed =>
            res := FAILED;
            return;
          case Interrupted =>
          case Wrote(n) =>
            var written := if n < |v0| + |v1| then n else |v0| + |v1|;
            WriteStep(all, sent, v0, v1, written, old(wire));
            wire := wire + (v0 + v1)[..written];
            sent := sent + written;
            if written == |v0| + |v1| {
              res := |buf1| + |buf2|;
              return;
            }
            if written < |v0| {
              v0 := v0[written..];
            } else {
              v0, v1 := v1[written - |v0|..], [];
            }
        }
        i := i + 1;
      }
      assert Taken(outcomes[|outcomes|..]) == 0;
      res := PENDING;
    }

    static lemma WriteStep(all: Bytes, sent: nat, v0: Bytes, v1: Bytes, w: nat, wire: Bytes)
      requires sent <= |all| && v0 + v1 == all[sent..] && w <= |v0| + |v1|
      ensures sent + w <= |all| && wire + all[..sent] + (v0 + v1)[..w] == wire + all[..sent + w]
      ensures w < |v0| ==> v0[w..] + v1 == all[sent + w..]
      ensures w >= |v0| ==> v1[w - |v0|..] + [] == all[sent + w..]
      ensures w == |v0| + |v1| ==> all[..sent + w] == all
    {
      assert all[..sent + w] == all[..sent] + all[sent..][..w];
      assert all[sent + w..] == all[sent..][w..];
      assert w < |v0| ==> (v0 + v1)[w..] == v0[w..] + v1;
      assert w >= |v0| ==> (v0 + v1)[w..] == v1[w - |v0|..] + [];
    }

    /** A message is sent with its length before it. */
    method Send(m: Bytes, outcomes: seq<Outcome>, ghost ms: seq<Bytes>) returns (res: int)
      requires Sendable(m) && AllSendable(ms) && wire == Frames(ms)
      requires forall i :: 0 <= i < |outcomes| && outcomes[i].Wrote? ==> outcomes[i].n > 0
      modifies this
      ensures res == HEADER + |m| ==> AllSendable(ms + [m]) && wire == Frames(ms + [m])
      ensures res != HEADER + |m| ==> res == FAILED || res == PENDING
    {
      FramesSnoc(ms, m);
      ghost var sent;
      res, sent := Dwrite2(Encode(|m|), m, outcomes);
      assert res == HEADER + |m| ==> (Encode(|m|) + m)[..sent] == Frame(m);
    }
  }

  // ----- receiving -----

  /** Messages as the queue holds them. */
  function Queued(id: int, ms: seq<Bytes>): seq<Message> {
    seq(|ms|, i requires 0 <= i < |ms| => Message(id, |ms[i]|, ms[i]))
  }

  /** What the network has for a connection that is looked at: bytes, `k` of
      them at once; a call interrupted or timed out; the end of the stream; or
      an error. */
  datatype Event = Arrived(bytes: Bytes, k: nat) | Interrupted | TimedOut | Ended | Broken

  function BytesOf(ev: Event): Bytes {
    if ev.Arrived? then ev.bytes else []
  }

  // ----- a connection over a run of events -----

  /** What ReaderCB works on, and the messages it has put on the queue. */
  datatype Conn = Conn(readingLength: bool, length: int, buffer: Bytes, goal: int, open: bool, delivered: seq<Bytes>)

  /** An event, and whether errno says ETIMEDOUT, if only from an earlier call. */
  datatype Look = Look(ev: Event, stale: bool)

  /** What ReaderCB makes of an event.  To ask for no bytes reads none. */
  function Step(c: Conn, l: Look): Conn
    requires l.ev.Arrived? ==> l.ev.k <= |l.ev.bytes|
  {
    if !c.open then c
    else match l.ev
      case Interrupted => c
      case TimedOut => c
      case Broken => c.(open := false)
      case Ended => if l.stale then c else c.(open := false)
      case Arrived(bytes, k) =>
        var n := if k < c.goal - |c.buffer| then k else c.goal - |c.buffer|;
        if n <= 0 then (if l.stale then c else c.(open := false)) else Filled(c.(buffer := c.buffer + bytes[..n]))
  }

  /** The goal may have been reached. */
  function Filled(c: Conn): Conn {
    if |c.buffer| != c.goal then c
    else if !c.readingLength then Conn(true, c.length, [], HEADER, c.open, c.delivered + [c.buffer])
    else if |c.buffer| != HEADER then c
    else if Decode(c.buffer) > 0 then Conn(false, Decode(c.buffer), [], Decode(c.buffer), c.open, c.delivered)
    else c.(readingLength := false, length := Decode(c.buffer))
  }

  ghost predicate AreLooks(ls: seq<Look>) {
    forall i :: 0 <= i < |ls| && ls[i].ev.Arrived? ==> ls[i].ev.k <= |ls[i].ev.bytes|
  }

  function Run(c: Conn, ls: seq<Look>): Conn
    requires AreLooks(ls)
    decreases |ls|
  {
    if ls == [] then c else Run(Step(c, ls[0]), ls[1..])
  }

  /** The events without interruptions and time-outs. */
  function Steady(ls: seq<Look>): (r: seq<Look>)
    requires AreLooks(ls)
    ensures AreLooks(r)
    ensures forall l :: l in r <==> l in ls && !l.ev.Interrupted? && !l.ev.TimedOut?
  {
    if ls == [] then []
    else if ls[0].ev.Interrupted? || ls[0].ev.TimedOut? then Steady(ls[1..])
    else [ls[0]] + Steady(ls[1..])
  }

  /** Interruptions and time-outs change neither what is delivered nor whether
      the connection is open, nor anything else, wherever they come. */
  lemma {:induction false} InterruptionsIgnored(c: Conn, ls: seq<Look>, ms: seq<Look>)
    requires AreLooks(ls) && AreLooks(ms) && Steady(ls) == Steady(ms)
    ensures Run(c, ls) == Run(c, ms)
  {
    RunSteady(c, ls);
    RunSteady(c, ms);
  }

  /** One of them, at any point of a run. */
  lemma {:induction false} OneIgnored(c: Conn, ls: seq<Look>, i: nat, l: Look)
    requires AreLooks(ls) && i <= |ls| && (l.ev.Interrupted? || l.ev.TimedOut?)
    ensures AreLooks(ls[..i] + [l] + ls[i..]) && Run(c, ls[..i] + [l] + ls[i..]) == Run(c, ls)
    decreases i
  {
    var more := ls[..i] + [l] + ls[i..];
    if i == 0 {
      assert more[1..] == ls;
    } else {
      assert more[1..] == ls[1..][..i - 1] + [l] + ls[1..][i - 1..];
      OneIgnored(Step(c, ls[0]), ls[1..], i - 1, l);
    }
  }

  lemma {:induction false} RunSteady(c: Conn, ls: seq<Look>)
    requires AreLooks(ls)
    ensures Run(c, ls) == Run(c, Steady(ls))
    decreases |ls|
  {
    if ls != [] {
      RunSteady(Step(c, ls[0]), ls[1..]);
      if !(ls[0].ev.Interrupted? || ls[0].ev.TimedOut?) {
        assert Steady(ls)[1..] == Steady(ls[1..]);
      }
    }
  }

  /** The looks at a connection when nothing else touches errno; `late` says that
      it is ETIMEDOUT to begin with. */
  function Tracked(evs: seq<Event>, late: bool): (r: seq<Look>)
    ensures |r| == |evs| && forall i :: 0 <= i < |evs| ==> r[i].ev == evs[i]
  {
    if evs == [] then []
    else [Look(evs[0], late)]
         + Tracked(evs[1..], match evs[0] case TimedOut => true case Interrupted => false case Broken => false case _ => late)
  }

  ghost predicate AreEvents(evs: seq<Event>) {
    forall i :: 0 <= i < |evs| && evs[i].Arrived? ==> evs[i].k <= |evs[i].bytes|
  }

  /** But errno stays: with it an interruption or a time-out makes no difference
      to anything that follows if and only if it leaves errno as it was. */
  lemma OneMoreExactly(e: Event, late: bool)
    requires e.Interrupted? || e.TimedOut?
    ensures (forall c: Conn, evs: seq<Event> :: AreEvents(evs) ==> Run(c, Tracked([e] + evs, late)) == Run(c, Tracked(evs, late)))
       <==> late == e.TimedOut?
  {
    if late == e.TimedOut? {
      forall c: Conn, evs: seq<Event> | AreEvents(evs)
        ensures Run(c, Tracked([e] + evs, late)) == Run(c, Tracked(evs, late))
      {
        assert ([e] + evs)[1..] == evs;
        assert Tracked([e] + evs, late)[1..] == Tracked(evs, late);
      }
    } else {
      var c := Conn(true, 0, [], HEADER, true, []);
      EndTracked(e, late, c);
      assert AreEvents([Ended]);
      assert Run(c, Tracked([e] + [Ended], late)) != Run(c, Tracked([Ended], late));
    }
  }

  /** The end of the stream is taken for a time-out just after one. */
  lemma EndTracked(e: Event, late: bool, c: Conn)
    requires (e.Interrupted? || e.TimedOut?) && c.open
    ensures Run(c, Tracked([Ended], late)).open <==> late
    ensures Run(c, Tracked([e] + [Ended], late)).open <==> e.TimedOut?
  {
    assert [Ended][1..] == [] && ([e] + [Ended])[1..] == [Ended];
    assert forall x :: Tracked([Ended], x) == [Look(Ended, x)];
    assert ([e] + [Ended])[0] == e;
    var two := Tracked([e] + [Ended], late);
    assert two == [Look(e, late), Look(Ended, e.TimedOut?)];
    assert two[1..] == [Look(Ended, e.TimedOut?)];
    assert Run(c, two) == Run(Step(c, two[0]), two[1..]) && Step(c, two[0]) == c;
    RunOne(c, Look(Ended, late));
    RunOne(c, Look(Ended, e.TimedOut?));
  }

  lemma RunOne(c: Conn, l: Look)
    requires AreLooks([l])
    ensures Run(c, [l]) == Step(c, l)
  {
    assert [l][0] == l && [l][1..] == [];
    assert Run(Step(c, l), []) == Step(c, l);
  }

  class Receiver {
    const id: int
    const incoming: MQueue
    var readingLength: bool
    var length: int
    var buffer: Bytes     // what has been read towards the goal
    var goal: int
    var open: bool        // the connection has not been given up

    ghost var header: Bytes          // the bytes of the length last read
    ghost var received: Bytes        // everything read from the connection
    ghost var delivered: seq<Bytes>  // the messages put on the queue

    constructor (id: int, incoming: MQueue)
      requires incoming.Valid()
      ensures Valid() && this.id == id && this.incoming == incoming && received == [] && delivered == [] && open
    {
      this.id, this.incoming := id, incoming;
      readingLength, length, buffer, goal, open := true, 0, [], HEADER, true;
      header, received, delivered := [], [], [];
    }

    /** Nothing but frames has arrived, and part of one; or a length that is not
        positive, after which nothing more is read. */
    ghost predicate Valid()
      reads this, incoming, incoming.Repr()
    {
      && incoming.Valid() && this as object !in incoming.Repr()
      && AreBytes(received) && AllSendable(delivered) && |buffer| <= goal
      && (open ==> received == Frames(delivered) + InFlight()
                   && (readingLength ==> goal == HEADER && |buffer| < goal)
                   && (!readingLength ==> |header| == HEADER && length == Decode(header))
                   && (!readingLength && length > 0 ==> goal == length && |buffer| < goal && length < LIMIT)
                   && (!readingLength && length <= 0 ==> |buffer| == goal))
    }

    ghost function State(): Conn
      reads this
    {
      Conn(readingLength, length, buffer, goal, open, delivered)
    }

    /** What has arrived of the frame under way. */
    ghost function InFlight(): Bytes
      reads this
    {
      if readingLength then buffer else if length > 0 then header + buffer else header
    }

    /** A length that is not positive has been read. */
    predicate Stuck()
      reads this
    {
      !readingLength && length <= 0
    }

    /** tryReading: up to `k` of the bytes that are there; the goal once it is
        reached, 0 before that or if it is to be tried again, and -1 if the
        connection has ended.  To ask for no bytes reads none. */
    method TryReading(ev: Event, stale: bool) returns (res: int, taken: nat)
      requires |buffer| <= goal && (ev.Arrived? ==> 0 < ev.k <= |ev.bytes|)
      modifies this`buffer, this`received
      ensures taken == (if !ev.Arrived? then 0 else if ev.k < goal - |old(buffer)| then ev.k else goal - |old(buffer)|)
      ensures buffer == old(buffer) + BytesOf(ev)[..taken] && received == old(received) + BytesOf(ev)[..taken]
      ensures taken > 0 ==> res == if |buffer| == goal then goal else 0
      ensures ev.Interrupted? || ev.TimedOut? ==> res == 0
      ensures ev.Broken? ==> res == -1
      ensures taken == 0 && (ev.Ended? || ev.Arrived?) ==> res == if stale then 0 else -1
    {
      taken := 0;
      match ev {
        case Arrived(bytes, k) =>
          taken := if k < goal - |buffer| then k else goal - |buffer|;
          buffer := buffer + bytes[..taken];
          received := received + bytes[..taken];
          res := if taken > 0 then (if |buffer| == goal then goal else 0) else if stale then 0 else -1;
        case Interrupted => res := 0;
        case TimedOut => res := 0;
        case Ended => res := if stale then 0 else -1;
        case Broken => res := -1;
      }
    }

    /** ReaderCB, when there is something to be seen to on the connection. */
    method ReaderCB(ev: Event, stale: bool) returns (taken: nat)
      requires Valid() && open && (ev.Arrived? ==> 0 < ev.k <= |ev.bytes| && AreBytes(ev.bytes))
      modifies this, incoming.Repr()
      ensures Valid() && fresh(incoming.Repr() - old(incoming.Repr()))
      ensures (ev.Arrived? ==> taken <= ev.k) && (taken > 0 <==> ev.Arrived? && !old(Stuck()))
      ensures received == old(received) + BytesOf(ev)[..taken]
      ensures open <==> taken > 0 || ev.Interrupted? || ev.TimedOut? || (!ev.Broken? && stale)
      ensures ev.Interrupted? || ev.TimedOut? ==> open && buffer == old(buffer) && goal == old(goal)
      ensures ev.Interrupted? || ev.TimedOut? ==> readingLength == old(readingLength) && length == old(length)
      ensures ev.Interrupted? || ev.TimedOut? ==> incoming.Contents() == old(incoming.Contents())
      ensures ev.Broken? ==> !open
      ensures State() == Step(old(State()), Look(ev, stale))
      ensures taken == 0 ==> delivered == old(delivered) && Stuck() == old(Stuck())
      ensures |old(delivered)| <= |delivered| && old(delivered) == delivered[..|old(delivered)|]
      ensures incoming.Contents() == old(incoming.Contents()) + Queued(id, delivered[|old(delivered)|..])
    {
      hide Encode, Decode, Frames, AreBytes, AllSendable;
      var res;
      ghost var p := InFlight();
      MoreBytes(received, BytesOf(ev)) by {
        NoBytes();
      }
      res, taken := TryReading(ev, stale);
      StillInFlight(old(received), received, delivered, p, BytesOf(ev)[..taken]);
      assert delivered[..|delivered|] == delivered;
      if res == 0 {
        assert InFlight() == p + BytesOf(ev)[..taken];
      } else if res < 0 {
        open := false;
      } else if readingLength {
        LengthArrived();
      } else {
        assert received == Frames(delivered) + header + buffer by {
          assert p + BytesOf(ev)[..taken] == header + buffer;
          assert Frames(delivered) + (header + buffer) == Frames(delivered) + header + buffer;
        }
        Complete();
      }
    }

    static lemma NoBytes()
      ensures AreBytes([])
    {
    }

    /** The length of the next message has arrived. */
    method LengthArrived()
      requires incoming.Valid() && this as object !in incoming.Repr() && AreBytes(received) && AllSendable(delivered) && open
      requires readingLength && |buffer| == goal == HEADER && received == Frames(delivered) + buffer
      modifies this
      ensures Valid() && open && received == old(received) && delivered == old(delivered) && length == Decode(old(buffer)) && !readingLength
      ensures State() == Filled(old(State()))
    {
      hide Encode, Frames, AreBytes, AllSendable;
      header := buffer;
      HeaderBytes(received, delivered, buffer);
      length := Decode(buffer);
      readingLength := false;
      if length > 0 {
        buffer, goal := [], length;
        assert header + buffer == header;
      }
    }

    static lemma HeaderBytes(received: Bytes, got: seq<Bytes>, header: Bytes)
      requires AllSendable(got) && AreBytes(received) && |header| == HEADER && received == Frames(got) + header
      ensures Decode(header) < LIMIT
    {
      var n := |Frames(got)|;
      assert forall i :: 0 <= i < HEADER ==> header[i] == received[n + i];
    }

    static lemma MoreBytes(received: Bytes, pending: Bytes)
      requires AreBytes(received) && AreBytes(pending)
      ensures forall t :: 0 <= t <= |pending| ==> AreBytes(received + pending[..t])
    {
    }

    static lemma StillInFlight(received: Bytes, received': Bytes, got: seq<Bytes>, p: Bytes, more: Bytes)
      requires AllSendable(got) && received == Frames(got) + p && received' == received + more
      ensures received' == Frames(got) + (p + more)
    {
      hide Frames;
      assert (Frames(got) + p) + more == Frames(got) + (p + more);
    }

    /** The last byte of a message has arrived. */
    method Complete()
      requires incoming.Valid() && this as object !in incoming.Repr() && AreBytes(received) && AllSendable(delivered) && open
      requires !readingLength && |header| == HEADER && length == Decode(header) && 0 < length < LIMIT && |buffer| == goal == length
      requires received == Frames(delivered) + header + buffer
      modifies this, incoming.Repr()
      ensures Valid() && open && readingLength && fresh(incoming.Repr() - old(incoming.Repr())) && received == old(received)
      ensures delivered == old(delivered) + [old(buffer)] && State() == Filled(old(State()))
      ensures incoming.Contents() == old(incoming.Contents()) + [Message(id, |old(buffer)|, old(buffer))]
    {
      hide Encode, Decode;
      CompleteFrame(received, delivered, header, buffer);
      FramesSnoc(delivered, buffer);
      incoming.Insert(id, length, buffer);
      delivered := delivered + [buffer];
      buffer, goal, readingLength := [], HEADER, true;
    }

    static lemma CompleteFrame(received: Bytes, got: seq<Bytes>, header: Bytes, body: Bytes)
      requires AllSendable(got) && AreBytes(received) && |header| == HEADER && |body| == Decode(header) && 0 < |body| < LIMIT
      requires received == Frames(got) + header + body
      ensures Sendable(body) && Frames(got) + Frame(body) == received
    {
      var n := |Frames(got)|;
      assert forall i :: 0 <= i < HEADER ==> header[i] == received[n + i];
      assert forall i :: 0 <= i < |body| ==> body[i] == received[n + HEADER + i];
      EncodeDecode(header);
      assert Frames(got) + (header + body) == received;
    }

    lemma Reading()
      requires Valid() && open
      ensures Partial(InFlight()) && received == Frames(delivered) + InFlight()
      ensures Stuck() ==> |InFlight()| == HEADER && Decode(InFlight()) <= 0
      ensures |InFlight()| >= HEADER && Decode(InFlight()[..HEADER]) <= 0 ==> Stuck() && |InFlight()| == HEADER
    {
      hide Encode, Decode;
      assert !readingLength ==> InFlight()[..HEADER] == header;
    }

    /** Whatever the sender's writes and this side's reads were, the messages that
        have come out are those sent first, complete and unaltered; a connection
        that carries only messages never gets stuck; and when everything sent has
        been read, every message is out. */
    lemma Delivered(ms: seq<Bytes>, rest: Bytes)
      requires Valid() && open && AllSendable(ms) && received + rest == Frames(ms)
      ensures !Stuck() && |delivered| <= |ms| && delivered == ms[..|delivered|]
      ensures rest == [] ==> delivered == ms
    {
      hide Encode, Decode, Frames, Partial;
      Reading();
      var p := InFlight();
      assert Frames(delivered) + (p + rest) == Frames(ms) + [];
      NonePartial();
      InOrder(ms, [], delivered, p + rest);
      var left := ms[|delivered|..];
      assert Frames(left) + [] == Frames(left);
      if rest == [] {
        assert p + rest == p;
        OneReading(ms, [], delivered, p);
      }
      if left == [] {
        NoFrames();
      } else {
        FirstHeader(left, p + rest);
        assert |p| >= HEADER ==> (p + rest)[..HEADER] == p[..HEADER];
        assert |p| == HEADER ==> p[..HEADER] == p;
      }
    }

    static lemma NonePartial()
      ensures Partial([])
    {
    }

    static lemma FirstHeader(ms: seq<Bytes>, b: Bytes)
      requires AllSendable(ms) && ms != [] && b == Frames(ms)
      ensures |b| >= HEADER && Decode(b[..HEADER]) > 0
    {
      hide Encode, Decode;
      var m := ms[0];
      assert Sendable(m);
      assert Frames(ms) == Encode(|m|) + (m + Frames(ms[1..]));
      DecodeEncode(|m|);
    }

    /** When just messages and a length that is not positive have been read, the
        connection is stuck: the messages are out, and ReaderCB reads no more. */
    lemma StuckAfter(ms: seq<Bytes>, h: Bytes)
      requires Valid() && open && AllSendable(ms) && |h| == HEADER && received == Frames(ms) + h && Decode(h) <= 0
      ensures Stuck() && delivered == ms
    {
      hide Encode, Decode, Frames;
      Reading();
      assert h[..HEADER] == h;
      OneReading(ms, h, delivered, InFlight());
    }

    /** On any stream a connection gets stuck just at the first length that is
        not positive, with the messages before it out. */
    lemma StuckAt(cs: seq<Piece>, k: int, rest: Bytes)
      requires Valid() && open && ArePieces(cs) && FirstBad(cs, k) && received + rest == Wire(cs)
      ensures Stuck() ==> received == Wire(cs[..k]) + cs[k].header && delivered == Bodies(cs[..k])
      ensures rest == [] ==> Stuck()
    {
      hide Encode, Decode, Frames, Partial, ArePieces, FirstBad;
      Reading();
      BadParts(cs, k);
      BadSplit(cs, k);
      var p, ms, q := InFlight(), Bodies(cs[..k]), cs[k].header + Wire(cs[k + 1..]);
      assert Frames(delivered) + (p + rest) == Frames(ms) + q;
      if Stuck() {
        assert (p + rest)[..HEADER] == p;
        BadPartial(p, rest);
        OneReading(ms, q, delivered, p + rest);
        CutAt(p, cs[k].header, rest, Wire(cs[k + 1..]));
      }
      if rest == [] {
        assert p + rest == p;
        OneReading(ms, q, delivered, p);
        assert p[..HEADER] == cs[k].header;
      }
    }

    static lemma BadParts(cs: seq<Piece>, k: int)
      requires ArePieces(cs) && FirstBad(cs, k)
      ensures 0 <= k < |cs| && |cs[k].header| == HEADER && Decode(cs[k].header) <= 0
      ensures ArePieces(cs[..k]) && AllSendable(Bodies(cs[..k])) && Wire(cs[..k]) == Frames(Bodies(cs[..k]))
    {
      hide Decode;
      PiecesFrames(cs[..k]);
    }

    static lemma BadPartial(p: Bytes, rest: Bytes)
      requires |p| == HEADER && Decode(p) <= 0
      ensures Partial(p + rest)
    {
      hide Decode;
      assert (p + rest)[..HEADER] == p;
    }

    /** When no more of a stream will be read, it has been read whole and all of
        it is out if and only if every length in it is positive. */
    lemma WholeIffPositive(cs: seq<Piece>, rest: Bytes)
      requires Valid() && open && ArePieces(cs) && received + rest == Wire(cs) && (rest == [] || Stuck())
      ensures rest == [] && !Stuck() && delivered == Bodies(cs) <==> AllPositive(cs)
    {
      hide Encode, Decode, Frames, ArePieces, IsPiece;
      if AllPositive(cs) {
        PiecesFrames(cs);
        Delivered(Bodies(cs), rest);
      } else {
        var k := FindBad(cs);
        StuckAt(cs, k, rest);
      }
    }
  }

  /** An empty message is a length that is not positive: whatever is framed
      after it never gets out. */
  lemma EmptyMessage(m: Bytes)
    requires Sendable(m)
    ensures var cs := [Piece(Encode(0), []), Piece(Encode(|m|), m)];
            ArePieces(cs) && FirstBad(cs, 0) && Wire(cs) == Frame([]) + Frame(m)
  {
    DecodeEncode(0);
    DecodeEncode(|m|);
    hide Encode, Decode;
    var cs := [Piece(Encode(0), []), Piece(Encode(|m|), m)];
    assert cs[1..] == [Piece(Encode(|m|), m)] && cs[1..][1..] == [];
    assert Encode(0) + [] == Encode(0);
    assert AreBytes(Encode(|m|) + m);
    assert cs[..0] == [];
    assert Encode(|m|) + m + [] == Encode(|m|) + m;
    assert Wire(cs[1..][1..]) == [] && Wire(cs[1..]) == Frame(m);
    assert Frame([]) == Encode(0) + [];
    assert Encode(0) + [] + Frame(m) == Frame([]) + Frame(m);
  }
}
