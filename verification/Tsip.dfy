/** libparse/clk_trimtsip.c: the DLE/ETX framing of the Trimble serial protocol. */
module Tsip {
  const DLE: Byte := 16
  const ETX: Byte := 3
  const MSG_SIZE := 400

  type Byte = x: int | 0 <= x < 256

  datatype Option<T> = None | Some(value: T)

  // ----- one byte

  /** What the decoder holds: `data` and `msg` are the filled parts of the two buffers. */
  datatype State = State(inPkt: bool, dle: bool, data: seq<Byte>, msg: seq<Byte>)

  const FRESH := State(false, false, [], [])

  predicate Full(dsize: int, data: nat, msg: nat) {
    data >= dsize - 2 || msg >= MSG_SIZE - 2
  }

  /** inp_tsip: the next state, and the packet if the byte completes one. */
  function Step(dsize: nat, s: State, ch: Byte): (State, Option<seq<Byte>>) {
    if !s.inPkt && ch != DLE then (s, None)
    else if Full(dsize, |s.data|, |s.msg|) then (FRESH, None)
    else if ch == DLE && !s.inPkt then (State(true, false, [DLE], [DLE]), None)
    else if ch == DLE && !s.dle then (s.(dle := true), None)
    else if ch == ETX && s.dle then
      (State(false, false, s.data + [DLE], s.msg + [DLE, ETX]), Some(s.data + [DLE, ETX]))
    else (State(true, false, s.data + [ch], s.msg + [ch]), None)
  }

  function Packets(p: Option<seq<Byte>>): seq<seq<Byte>> {
    match p case None => [] case Some(x) => [x]
  }

  /** Any number of bytes: the final state and all packets. */
  function Run(dsize: nat, s: State, input: seq<Byte>): (State, seq<seq<Byte>>)
    decreases |input|
  {
    if input == [] then (s, [])
    else
      var (s1, p) := Step(dsize, s, input[0]);
      var (s2, ps) := Run(dsize, s1, input[1..]);
      (s2, Packets(p) + ps)
  }

  /** One byte, then the rest. */
  lemma RunCons(dsize: nat, s: State, ch: Byte, rest: seq<Byte>)
    ensures var (s1, p) := Step(dsize, s, ch);
            var (s2, ps) := Run(dsize, s1, rest);
            Run(dsize, s, [ch] + rest).0 == s2 && Run(dsize, s, [ch] + rest).1 == Packets(p) + ps
  {
    assert ([ch] + rest)[1..] == rest;
  }

  lemma {:induction false} RunConcat(dsize: nat, s: State, a: seq<Byte>, b: seq<Byte>)
    ensures var (s1, p1) := Run(dsize, s, a);
            var (s2, p2) := Run(dsize, s1, b);
            Run(dsize, s, a + b).0 == s2 && Run(dsize, s, a + b).1 == p1 + p2
    decreases |a|
  {
    if a == [] {
      assert a + b == b;
      assert Run(dsize, s, a) == (s, []);
    } else {
      var ch, rest := a[0], a[1..];
      var (s1, p) := Step(dsize, s, ch);
      RunConcat(dsize, s1, rest, b);
      RunCons(dsize, s, ch, rest);
      RunCons(dsize, s, ch, rest + b);
      assert a == [ch] + rest && a + b == [ch] + (rest + b);
    }
  }

  // ----- on arbitrary bytes

  /** Inside a packet both buffers hold the same bytes, a DLE first, and there is room for a DLE and an ETX. */
  predicate Inv(dsize: nat, s: State) {
    && (s.inPkt ==> s.data == s.msg && |s.data| > 0 && s.data[0] == DLE && |s.data| <= dsize - 2 && |s.msg| <= MSG_SIZE - 2)
    && (!s.inPkt ==> !s.dle && |s.data| <= dsize && |s.msg| <= MSG_SIZE)
  }

  function Packet(body: seq<Byte>): seq<Byte> { [DLE] + body + [DLE, ETX] }

  /** The body of a packet. */
  function Body(p: seq<Byte>): seq<Byte>
    requires |p| >= 3
  {
    p[1..|p| - 2]
  }

  /** A delivered packet is framed, and its body was short enough. */
  predicate Delivered(dsize: nat, p: seq<Byte>) {
    |p| >= 3 && p == Packet(Body(p)) && |Body(p)| + 1 < dsize - 2 && |Body(p)| + 1 < MSG_SIZE - 2
  }

  lemma StepKeeps(dsize: nat, s: State, ch: Byte)
    requires Inv(dsize, s)
    ensures var (t, p) := Step(dsize, s, ch); Inv(dsize, t) && (p.Some? ==> Delivered(dsize, p.value))
  {
    var (t, p) := Step(dsize, s, ch);
    if p.Some? {
      assert Body(p.value) == s.data[1..];
    }
  }

  lemma {:induction false} RunKeeps(dsize: nat, s: State, input: seq<Byte>)
    requires Inv(dsize, s)
    ensures var (t, ps) := Run(dsize, s, input); Inv(dsize, t) && forall p :: p in ps ==> Delivered(dsize, p)
    decreases |input|
  {
    if input != [] {
      StepKeeps(dsize, s, input[0]);
      RunKeeps(dsize, Step(dsize, s, input[0]).0, input[1..]);
    }
  }

  // ----- frames

  /** Byte stuffing: every DLE is sent twice. */
  function Stuff(body: seq<Byte>): seq<Byte> {
    if body == [] then [] else (if body[0] == DLE then [DLE, DLE] else [body[0]]) + Stuff(body[1..])
  }

  function Frame(body: seq<Byte>): seq<Byte> { [DLE] + Stuff(body) + [DLE, ETX] }

  function Stream(bodies: seq<seq<Byte>>): seq<Byte> {
    if bodies == [] then [] else Frame(bodies[0]) + Stream(bodies[1..])
  }

  function AllPackets(bodies: seq<seq<Byte>>): seq<seq<Byte>> {
    if bodies == [] then [] else [Packet(bodies[0])] + AllPackets(bodies[1..])
  }

  lemma {:induction false} RunStuffed(dsize: nat, s: State, body: seq<Byte>)
    requires s.inPkt && !s.dle && s.data == s.msg
    requires |s.data| + |body| < dsize - 2 && |s.data| + |body| < MSG_SIZE - 2
    ensures var (t, ps) := Run(dsize, s, Stuff(body)); t == s.(data := s.data + body, msg := s.msg + body) && ps == []
    decreases |body|
  {
    if body == [] {
      assert s.data + body == s.data;
    } else {
      var c, rest := body[0], Stuff(body[1..]);
      var t := s.(data := s.data + [c], msg := s.msg + [c]);
      RunStuffed(dsize, t, body[1..]);
      assert s.data + [c] + body[1..] == s.data + body;
      if c == DLE {
        RunCons(dsize, s.(dle := true), DLE, rest);
        RunCons(dsize, s, DLE, [DLE] + rest);
        assert [DLE] + ([DLE] + rest) == Stuff(body);
      } else {
        RunCons(dsize, s, c, rest);
      }
    }
  }

  lemma RunEnd(dsize: nat, s: State)
    requires s.inPkt && !s.dle && !Full(dsize, |s.data|, |s.msg|)
    ensures var (t, ps) := Run(dsize, s, [DLE, ETX]);
            t == State(false, false, s.data + [DLE], s.msg + [DLE, ETX]) && ps == [s.data + [DLE, ETX]]
  {
    RunCons(dsize, s, DLE, [ETX]);
    RunCons(dsize, s.(dle := true), ETX, []);
    assert [DLE] + [ETX] == [DLE, ETX] && [ETX] + [] == [ETX];
  }

  /** A frame whose body fits is delivered; it leaves both buffers filled. */
  lemma RunFrame(dsize: nat, s: State, body: seq<Byte>)
    requires !s.inPkt && !Full(dsize, |s.data|, |s.msg|) && !Full(dsize, |body| + 1, |body| + 1)
    ensures var (t, ps) := Run(dsize, s, Frame(body));
            t == State(false, false, [DLE] + body + [DLE], Packet(body)) && ps == [Packet(body)]
  {
    var t := State(true, false, [DLE], [DLE]);
    var u := t.(data := [DLE] + body, msg := [DLE] + body);
    RunStuffed(dsize, t, body);
    RunEnd(dsize, u);
    RunConcat(dsize, t, Stuff(body), [DLE, ETX]);
    RunCons(dsize, s, DLE, Stuff(body) + [DLE, ETX]);
    assert Frame(body) == [DLE] + (Stuff(body) + [DLE, ETX]);
  }

  /** The condition for every frame of a stream to be taken: each body has to fit, and what the
      frame before left in the buffers must not look like an overflow. */
  predicate Fits(dsize: nat, data: nat, msg: nat, bodies: seq<seq<Byte>>)
    decreases |bodies|
  {
    bodies == [] ||
    (!Full(dsize, data, msg) && !Full(dsize, |bodies[0]| + 1, |bodies[0]| + 1) &&
     Fits(dsize, |bodies[0]| + 2, |bodies[0]| + 3, bodies[1..]))
  }

  // ----- a lost byte cannot be made up for

  function Bytes(ps: seq<seq<Byte>>): nat
    requires forall p :: p in ps ==> |p| >= 3
  {
    if ps == [] then 0 else |Frame(Body(ps[0]))| + Bytes(ps[1..])
  }

  /** The bytes that the packet in progress stands for. */
  function Pending(s: State): nat {
    if !s.inPkt then 0 else if |s.data| == 0 then 1 else 1 + |Stuff(s.data[1..])| + if s.dle then 1 else 0
  }

  lemma {:induction false} StuffAppend(body: seq<Byte>, c: Byte)
    ensures Stuff(body + [c]) == Stuff(body) + if c == DLE then [DLE, DLE] else [c]
  {
    if body == [] {
      assert body + [c] == [c];
    } else {
      StuffAppend(body[1..], c);
      assert (body + [c])[1..] == body[1..] + [c];
    }
  }

  lemma StepPays(dsize: nat, s: State, ch: Byte)
    requires Inv(dsize, s)
    ensures var (t, p) := Step(dsize, s, ch);
            match p
            case None => Pending(t) <= Pending(s) + 1
            case Some(x) => |x| >= 3 && |Frame(Body(x))| + Pending(t) <= Pending(s) + 1
  {
    StepKeeps(dsize, s, ch);
    var (t, p) := Step(dsize, s, ch);
    if p.Some? {
      assert Body(p.value) == s.data[1..];
    } else if s.inPkt && t.inPkt && |t.data| > |s.data| {
      StuffAppend(s.data[1..], ch);
      assert t.data[1..] == s.data[1..] + [ch];
    }
  }

  /** The packets of a run stand for no more bytes than were received. */
  lemma {:induction false} RunPays(dsize: nat, s: State, input: seq<Byte>)
    requires Inv(dsize, s)
    ensures var (t, ps) := Run(dsize, s, input);
            (forall p :: p in ps ==> |p| >= 3) && Bytes(ps) + Pending(t) <= Pending(s) + |input|
    decreases |input|
  {
    RunKeeps(dsize, s, input);
    if input != [] {
      var (s1, p) := Step(dsize, s, input[0]);
      StepKeeps(dsize, s, input[0]);
      StepPays(dsize, s, input[0]);
      RunPays(dsize, s1, input[1..]);
      var rest := Run(dsize, s1, input[1..]).1;
      if p.Some? { assert ([p.value] + rest)[1..] == rest; } else { assert [] + rest == rest; }
    }
  }

  lemma {:induction false} StreamBytes(bodies: seq<seq<Byte>>)
    ensures (forall p :: p in AllPackets(bodies) ==> |p| >= 3) && Bytes(AllPackets(bodies)) == |Stream(bodies)|
  {
    if bodies != [] {
      StreamBytes(bodies[1..]);
      assert AllPackets(bodies)[1..] == AllPackets(bodies[1..]);
      assert Body(Packet(bodies[0])) == bodies[0];
    }
  }

  // ----- the main result

  /** A stream of frames is decoded into exactly its bodies if and only if they fit. */
  lemma {:induction false} StreamIff(dsize: nat, s: State, bodies: seq<seq<Byte>>)
    requires !s.inPkt && Inv(dsize, s)
    ensures Run(dsize, s, Stream(bodies)).1 == AllPackets(bodies) <==> Fits(dsize, |s.data|, |s.msg|, bodies)
    decreases |bodies|
  {
    if bodies != [] {
      if Full(dsize, |s.data|, |s.msg|) {
        FirstLost(dsize, s, bodies);
      } else if Full(dsize, |bodies[0]| + 1, |bodies[0]| + 1) {
        RunKeeps(dsize, s, Stream(bodies));
        assert Body(Packet(bodies[0])) == bodies[0];
        assert Packet(bodies[0]) in AllPackets(bodies);
      } else {
        var b := bodies[0];
        RunFrame(dsize, s, b);
        RunConcat(dsize, s, Frame(b), Stream(bodies[1..]));
        var t := State(false, false, [DLE] + b + [DLE], Packet(b));
        StreamIff(dsize, t, bodies[1..]);
        assert AllPackets(bodies)[1..] == AllPackets(bodies[1..]);
        assert Run(dsize, s, Stream(bodies)).1[1..] == Run(dsize, t, Stream(bodies[1..])).1;
      }
    }
  }

  lemma FirstLost(dsize: nat, s: State, bodies: seq<seq<Byte>>)
    requires !s.inPkt && Inv(dsize, s) && Full(dsize, |s.data|, |s.msg|) && bodies != []
    ensures Run(dsize, s, Stream(bodies)).1 != AllPackets(bodies)
  {
    var input := Stream(bodies);
    assert input[0] == DLE && Step(dsize, s, DLE) == (FRESH, None);
    RunPays(dsize, FRESH, input[1..]);
    StreamBytes(bodies);
    var ps := Run(dsize, FRESH, input[1..]).1;
    assert [] + ps == ps;
  }

  /** `Fits` in closed form: the last body may be longer than the others. */
  lemma {:induction false} FitsIs(dsize: nat, data: nat, msg: nat, bodies: seq<seq<Byte>>)
    ensures Fits(dsize, data, msg, bodies) <==>
            (bodies == [] || !Full(dsize, data, msg)) &&
            forall i :: 0 <= i < |bodies| ==>
                          !Full(dsize, |bodies[i]| + 1, |bodies[i]| + 1) &&
                          (i + 1 < |bodies| ==> !Full(dsize, |bodies[i]| + 2, |bodies[i]| + 3))
    decreases |bodies|
  {
    if |bodies| > 0 {
      var n := |bodies[0]|;
      var rest := bodies[1..];
      FitsIs(dsize, n + 2, n + 3, rest);
      assert forall i :: 0 <= i < |rest| ==> rest[i] == bodies[i + 1];
      assert forall i :: 1 <= i < |bodies| ==> bodies[i] == rest[i - 1];
    }
  }

  /** With the 400-byte buffer of the driver, a body of 395 bytes is received, but the frame after it is not. */
  lemma FrameAfterLongOneLost(bodies: seq<seq<Byte>>)
    requires |bodies| >= 2 && |bodies[0]| == 395
    ensures Run(400, FRESH, Stream(bodies[..1])).1 == AllPackets(bodies[..1])
    ensures Run(400, FRESH, Stream(bodies)).1 != AllPackets(bodies)
  {
    StreamIff(400, FRESH, bodies[..1]);
    StreamIff(400, FRESH, bodies);
    assert bodies[1..] != [];
  }
}
