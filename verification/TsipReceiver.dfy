/** The buffers and flags that inp_tsip updates in place. */
module TsipReceiver {
  import opened Tsip

  class Receiver {
    var inPkt: bool
    var dle: bool
    var index: nat
    var msglen: nat
    var ldsize: nat
    const dsize: nat
    const data: array<Byte>
    const ldata: array<Byte>
    const msg: array<Byte>

    ghost predicate Shape()
    {
      data != ldata && data != msg && ldata != msg &&
      data.Length == dsize + 1 && ldata.Length == dsize + 1 && msg.Length == MSG_SIZE
    }

    ghost predicate Valid()
      reads this, data, ldata, msg
    {
      Shape() && index <= data.Length && msglen <= msg.Length && ldsize <= ldata.Length && Inv(dsize, Value())
    }

    /** The abstract state: flags and filled parts of the buffers. */
    ghost function Value(): State
      requires index <= data.Length && msglen <= msg.Length
      reads this, data, msg
    {
      State(inPkt, dle, data[..index], msg[..msglen])
    }

    /** The last packet delivered. */
    ghost function Last(): seq<Byte>
      requires ldsize <= ldata.Length
      reads this, ldata
    {
      ldata[..ldsize]
    }

    constructor (size: nat)
      ensures Valid() && dsize == size && Value() == FRESH && fresh(data) && fresh(ldata) && fresh(msg)
    {
      dsize := size;
      data, ldata, msg := new Byte[size + 1], new Byte[size + 1], new Byte[MSG_SIZE];
      inPkt, dle, index, msglen, ldsize := false, false, 0, 0, 0;
    }

    /** Store a byte in both buffers. */
    method Collect(ch: Byte)
      requires Valid() && inPkt && !Full(dsize, index, msglen)
      modifies this`dle, this`index, this`msglen, data, msg
      ensures Shape() && index <= data.Length && msglen <= msg.Length
      ensures Value() == State(true, false, old(data[..index]) + [ch], old(msg[..msglen]) + [ch])
    {
      dle := false;
      data[index] := ch;
      index := index + 1;
      msg[msglen] := ch;
      msglen := msglen + 1;
    }

    /** A DLE outside a packet starts one. */
    method Begin()
      requires Valid()
      modifies this`inPkt, this`dle, this`index, this`msglen, data, msg
      ensures Shape() && index <= data.Length && msglen <= msg.Length
      ensures Value() == State(true, false, [DLE], [DLE])
    {
      dle, inPkt := false, true;
      index := 0;
      data[index] := DLE;
      index := index + 1;
      msglen := 0;
      msg[msglen] := DLE;
      msglen := msglen + 1;
    }

    /** DLE and ETX end a packet: complete both buffers and copy the packet out. */
    method Finish()
      requires Valid() && inPkt && !Full(dsize, index, msglen)
      modifies this`inPkt, this`dle, this`index, this`msglen, this`ldsize, data, ldata, msg
      ensures Shape() && index <= data.Length && msglen <= msg.Length && ldsize <= ldata.Length
      ensures Value() == State(false, false, old(data[..index]) + [DLE], old(msg[..msglen]) + [DLE, ETX])
      ensures Last() == old(data[..index]) + [DLE, ETX]
    {
      data[index] := DLE;
      index := index + 1;
      data[index] := ETX;
      ldsize := index + 1;
      CopyOut();
      msg[msglen] := DLE;
      msglen := msglen + 1;
      msg[msglen] := ETX;
      msglen := msglen + 1;
      inPkt, dle := false, false;
    }

    /** The memcpy into the buffer of the last packet. */
    method CopyOut()
      requires Shape() && ldsize <= ldata.Length
      modifies ldata
      ensures ldata[..ldsize] == data[..ldsize]
    {
      var i := 0;
      while i < ldsize
        invariant 0 <= i <= ldsize
        invariant ldata[..i] == data[..i]
      {
        ldata[i] := data[i];
        i := i + 1;
      }
    }

    /** inp_tsip: `got` tells that a packet is ready. */
    method Input(ch: Byte) returns (got: bool)
      requires Valid()
      modifies this, data, ldata, msg
      ensures Valid()
      ensures var (s, p) := Step(dsize, old(Value()), ch);
              Value() == s && got == p.Some? && Last() == if p.Some? then p.value else old(Last())
    {
      ghost var was := Value();
      StepKeeps(dsize, was, ch);
      got := false;
      if !inPkt && ch != DLE {
        return;
      }
      if index >= dsize - 2 || msglen >= MSG_SIZE - 2 {
        inPkt, dle, index, msglen := false, false, 0, 0;
        return;
      }
      if ch == DLE && !inPkt {
        Begin();
      } else if ch == DLE && !dle {
        dle := true;
      } else if ch == ETX && dle {
        Finish();
        got := true;
      } else {
        Collect(ch);
      }
    }

    /** Feed bytes one by one and take every packet as it is completed. */
    method Feed(input: seq<Byte>) returns (packets: seq<seq<Byte>>)
      requires Valid()
      modifies this, data, ldata, msg
      ensures Valid()
      ensures Value() == Run(dsize, old(Value()), input).0 && packets == Run(dsize, old(Value()), input).1
    {
      packets := [];
      var i := 0;
      ghost var s0 := Value();
      while i < |input|
        invariant 0 <= i <= |input| && Valid()
        invariant Run(dsize, s0, input[..i]).0 == Value() && Run(dsize, s0, input[..i]).1 == packets
      {
        RunSnoc(dsize, s0, input, i);
        var got := Input(input[i]);
        if got {
          packets := packets + [ldata[..ldsize]];
        }
        i := i + 1;
      }
      assert input[..i] == input;
    }
  }

  /** The bytes up to one, then that one. */
  lemma RunSnoc(dsize: nat, s: State, input: seq<Byte>, i: nat)
    requires i < |input|
    ensures var (t, ps) := Run(dsize, s, input[..i]);
            var (u, p) := Step(dsize, t, input[i]);
            Run(dsize, s, input[..i + 1]).0 == u && Run(dsize, s, input[..i + 1]).1 == ps + Packets(p)
  {
    RunConcat(dsize, s, input[..i], [input[i]]);
    RunCons(dsize, Run(dsize, s, input[..i]).0, input[i], []);
    assert input[..i + 1] == input[..i] + [input[i]] && [input[i]] + [] == [input[i]];
  }

  /** A new receiver recovers every body of a stream of frames exactly when all of them fit,
      each but the last together with the two bytes that end its frame. */
  method Receive(size: nat, bodies: seq<seq<Byte>>) returns (packets: seq<seq<Byte>>)
    ensures packets == AllPackets(bodies) <==>
            forall i :: 0 <= i < |bodies| ==>
                          |bodies[i]| + 1 < size - 2 && |bodies[i]| + 1 < MSG_SIZE - 2 &&
                          (i + 1 < |bodies| ==> |bodies[i]| + 2 < size - 2 && |bodies[i]| + 3 < MSG_SIZE - 2)
  {
    var r := new Receiver(size);
    packets := r.Feed(Stream(bodies));
    StreamIff(size, FRESH, bodies);
    FitsIs(size, 0, 0, bodies);
  }
}
