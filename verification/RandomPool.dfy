/** libntp/ntp_random.c: the pool of random bytes.

    Bytes of the generator are told apart by their position in its output, so that "handed out
    twice" means the same position, not merely the same value. */
module RandomPool {
  type Byte = x: int | 0 <= x < 256

  const POOL_SIZE := 4096

  /** The generator: an unending stream, read from the front. */
  class Generator {
    const stream: nat -> Byte
    var pos: nat

    constructor (s: nat -> Byte)
      ensures pos == 0 && stream == s
    {
      stream, pos := s, 0;
    }

    /** ntp_pool_rand_fill: the first `num` bytes of a buffer from the generator. */
    method Fill(buf: array<Byte>, num: int)
      requires num <= buf.Length
      modifies this, buf
      ensures pos == old(pos) + if num < 0 then 0 else num
      ensures forall i :: 0 <= i < num ==> buf[i] == stream(old(pos) + i)
      ensures forall i :: 0 <= i < buf.Length && num <= i ==> buf[i] == old(buf[i])
    {
      if 0 > num {
        return;
      }
      var i := 0;
      while i < num
        invariant 0 <= i <= num && pos == old(pos) + i
        invariant forall j :: 0 <= j < i ==> buf[j] == stream(old(pos) + j)
        invariant forall j :: i <= j < buf.Length ==> buf[j] == old(buf[j])
      {
        buf[i] := stream(pos);
        pos := pos + 1;
        i := i + 1;
      }
    }
  }

  /** How much of a request is served from the pool, and how much past it. */
  function FromPool(num: int): nat { if 0 < num < POOL_SIZE then num else 0 }

  function PastPool(num: int): nat { if POOL_SIZE <= num then num else 0 }

  function Total(nums: seq<int>, part: int -> nat): nat {
    if nums == [] then 0 else Total(nums[..|nums| - 1], part) + part(nums[|nums| - 1])
  }

  lemma TotalMore(nums: seq<int>, i: nat, part: int -> nat)
    requires i < |nums|
    ensures Total(nums[..i + 1], part) == Total(nums[..i], part) + part(nums[i])
  {
    assert nums[..i + 1][..i] == nums[..i];
  }

  predicate NoDuplicates(s: seq<nat>) {
    forall i, j :: 0 <= i < j < |s| ==> s[i] != s[j]
  }

  predicate AllBelow(s: seq<nat>, n: nat) {
    forall i :: 0 <= i < |s| ==> s[i] < n
  }

  /** The next `n` positions of the generator. */
  function Fresh(pos: nat, n: nat): (r: seq<nat>)
    ensures |r| == n && forall i :: 0 <= i < n ==> r[i] == pos + i
  {
    seq(n, i => pos + i)
  }

  lemma FrontNoDuplicates(a: seq<nat>, b: seq<nat>)
    requires NoDuplicates(a + b)
    ensures NoDuplicates(a)
  {
    assert forall k :: 0 <= k < |a| ==> a[k] == (a + b)[k];
  }

  /** New positions between old ones are duplicates of none. */
  lemma FreshBetween(a: seq<nat>, b: seq<nat>, pos: nat, n: nat)
    requires NoDuplicates(a + b) && AllBelow(a + b, pos)
    ensures NoDuplicates(a + Fresh(pos, n) + b) && AllBelow(a + Fresh(pos, n) + b, pos + n)
  {
    var f := Fresh(pos, n);
    var s, t := a + f + b, a + b;
    assert forall i :: 0 <= i < |a| ==> s[i] == t[i];
    assert forall i :: |a| <= i < |a| + n ==> s[i] == pos + (i - |a|);
    assert forall i :: |a| + n <= i < |s| ==> s[i] == t[i - n];
  }

  class Pool {
    const buffer: array<Byte>
    const gen: Generator
    var burned: nat
    /** Where in the stream each byte of the buffer came from. */
    ghost var origin: seq<nat>
    /** The positions handed out so far, and how many of them from the pool and past it. */
    ghost var served: seq<nat>
    ghost var pooled: nat
    ghost var direct: nat
    /** How many bytes were drawn to refill the pool. */
    ghost var refilled: nat

    /** No byte is handed out twice; all that was drawn was handed out or is still to be. */
    ghost predicate Valid()
      reads this, buffer, gen
    {
      && buffer.Length == POOL_SIZE && |origin| == POOL_SIZE && burned <= POOL_SIZE
      && (forall i :: burned <= i < POOL_SIZE ==> buffer[i] == gen.stream(origin[i]))
      && NoDuplicates(served + origin[burned..]) && AllBelow(served + origin[burned..], gen.pos)
      && gen.pos == refilled + direct && |served| == pooled + direct && refilled == pooled + POOL_SIZE - burned
    }

    ghost function Books(): Ledger
      reads this
    {
      Ledger(served, pooled, direct)
    }

    constructor (g: Generator)
      requires g.pos == 0
      ensures Valid() && gen == g && fresh(buffer) && served == [] && burned == POOL_SIZE
      ensures pooled == 0 && direct == 0 && refilled == 0
    {
      gen := g;
      buffer := new Byte[POOL_SIZE];
      burned, origin, served := POOL_SIZE, seq(POOL_SIZE, i => 0), [];
      pooled, direct, refilled := 0, 0, 0;
    }

    /** Replace the burned bytes; those not handed out yet keep their place. */
    method Refill()
      requires Valid()
      modifies this`burned, this`origin, this`refilled, buffer, gen
      ensures Valid() && burned == 0 && gen.pos == old(gen.pos) + old(burned) && refilled == old(refilled) + old(burned)
      ensures origin == Fresh(old(gen.pos), old(burned)) + old(origin[burned..])
    {
      FreshBetween(served, origin[burned..], gen.pos, burned);
      gen.Fill(buffer, burned);
      origin := Fresh(old(gen.pos), burned) + origin[burned..];
      burned, refilled := 0, refilled + burned;
      assert origin[0..] == origin;
      assert served + origin == served + Fresh(old(gen.pos), old(burned)) + old(origin[burned..]);
    }

    /** The memcpy from the pool. */
    method Copy(buf: array<Byte>, num: nat)
      requires num <= buf.Length && buf != buffer && burned + num <= buffer.Length
      modifies buf
      ensures forall i :: 0 <= i < num ==> buf[i] == buffer[burned + i]
    {
      var i := 0;
      while i < num
        invariant 0 <= i <= num
        invariant forall j :: 0 <= j < i ==> buf[j] == buffer[burned + j]
      {
        buf[i] := buffer[burned + i];
        i := i + 1;
      }
    }

    /** ntp_RAND_bytes: `got` are the positions of the bytes handed out. */
    method RandBytes(buf: array<Byte>, num: int) returns (ghost got: seq<nat>)
      requires Valid() && num <= buf.Length && buf != buffer
      modifies this, buffer, gen, buf
      ensures Valid()
      ensures |got| == if num < 0 then 0 else num
      ensures forall i :: 0 <= i < num ==> buf[i] == gen.stream(got[i])
      ensures served == old(served) + got
      ensures pooled == old(pooled) + FromPool(num) && direct == old(direct) + PastPool(num)
    {
      got := [];
      if 0 >= num {
        assert served + got == served;
        return;
      }
      if POOL_SIZE <= num {
        got := Fresh(gen.pos, num);
        FreshBetween(served, origin[burned..], gen.pos, num);
        gen.Fill(buf, num);
        served, direct := served + got, direct + num;
        return;
      }
      if POOL_SIZE < num + burned {
        Refill();
      }
      got := Serve(buf, num);
    }

    /** Hand out the next bytes of the pool. */
    method Serve(buf: array<Byte>, num: nat) returns (ghost got: seq<nat>)
      requires Valid() && num <= buf.Length && buf != buffer && num + burned <= POOL_SIZE
      modifies this`burned, this`served, this`pooled, buf
      ensures Valid() && |got| == num && served == old(served) + got && pooled == old(pooled) + num
      ensures forall i :: 0 <= i < num ==> buf[i] == gen.stream(got[i])
    {
      Copy(buf, num);
      got := origin[burned..burned + num];
      assert served + origin[burned..] == served + got + origin[burned + num..];
      burned, served, pooled := burned + num, served + got, pooled + num;
    }

    /** One request into a buffer of its own. */
    method Request(num: int) returns (bytes: seq<Byte>, ghost got: seq<nat>)
      requires Valid()
      modifies this, buffer, gen
      ensures Valid() && Books() == old(Books()).Add(got, num)
      ensures |bytes| == |got| == if num < 0 then 0 else num
      ensures forall i :: 0 <= i < |bytes| ==> bytes[i] == gen.stream(got[i])
    {
      var buf := new Byte[if num < 0 then 0 else num];
      got := RandBytes(buf, num);
      bytes := buf[..];
    }

    /** Any sequence of requests: no position of the generator's output is handed out twice. Requests
        below the size of the pool are served from it, and the bytes drawn to fill it less those
        served from it are what it still holds. */
    method Requests(nums: seq<int>) returns (out: seq<seq<Byte>>)
      requires Valid()
      modifies this, buffer, gen
      ensures Valid() && NoDuplicates(served) && Answered(gen.stream, nums, out, old(Books()), Books())
      ensures refilled - pooled == POOL_SIZE - burned && gen.pos == refilled + direct
    {
      out := [];
      var i := 0;
      NothingAsked(gen.stream, Books());
      while i < |nums|
        invariant 0 <= i <= |nums| && Valid()
        invariant Answered(gen.stream, nums[..i], out, old(Books()), Books())
      {
        ghost var before := Books();
        var bytes;
        ghost var got;
        bytes, got := Request(nums[i]);
        AnsweredMore(gen.stream, nums, i, out, old(Books()), before, bytes, got);
        out, i := out + [bytes], i + 1;
      }
      assert nums[..i] == nums;
      FrontNoDuplicates(served, origin[burned..]);
    }
  }

  /** What was handed out so far. */
  datatype Ledger = Ledger(served: seq<nat>, pooled: nat, direct: nat) {
    function Add(got: seq<nat>, num: int): Ledger {
      Ledger(served + got, pooled + FromPool(num), direct + PastPool(num))
    }
  }

  /** Between two ledgers the requests were answered with `out`: by the bytes at the new positions,
      those below the size of the pool from it, the others past it. */
  predicate Answered(stream: nat -> Byte, nums: seq<int>, out: seq<seq<Byte>>, l: Ledger, m: Ledger) {
    && l.served <= m.served && HandedOut(stream, nums, out, m.served[|l.served|..])
    && m.pooled == l.pooled + Total(nums, FromPool) && m.direct == l.direct + Total(nums, PastPool)
  }

  lemma NothingAsked(stream: nat -> Byte, l: Ledger)
    ensures Answered(stream, [], [], l, l)
  {
    assert l.served[|l.served|..] == [];
  }

  lemma AnsweredMore(stream: nat -> Byte, nums: seq<int>, k: nat, out: seq<seq<Byte>>, l: Ledger, m: Ledger,
                     bytes: seq<Byte>, got: seq<nat>)
    requires k < |nums| && Answered(stream, nums[..k], out, l, m)
    requires |bytes| == |got| == if nums[k] < 0 then 0 else nums[k]
    requires forall i :: 0 <= i < |bytes| ==> bytes[i] == stream(got[i])
    ensures Answered(stream, nums[..k + 1], out + [bytes], l, m.Add(got, nums[k]))
  {
    TotalMore(nums, k, FromPool);
    TotalMore(nums, k, PastPool);
    HandedOutMore(stream, nums, k, out, m.served[|l.served|..], bytes, got);
    assert (m.served + got)[|l.served|..] == m.served[|l.served|..] + got;
  }

  /** The answers to the requests are the bytes at the positions, in order, each of the size asked for. */
  predicate HandedOut(stream: nat -> Byte, nums: seq<int>, out: seq<seq<Byte>>, at: seq<nat>)
    decreases |nums|
  {
    if nums == [] then out == [] && at == []
    else
      var last, n := |nums| - 1, if nums[|nums| - 1] < 0 then 0 else nums[|nums| - 1];
      |out| == |nums| && |at| >= n && |out[last]| == n &&
      (forall i :: 0 <= i < n ==> out[last][i] == stream(at[|at| - n + i])) &&
      HandedOut(stream, nums[..last], out[..last], at[..|at| - n])
  }

  lemma HandedOutMore(stream: nat -> Byte, nums: seq<int>, k: nat, out: seq<seq<Byte>>, at: seq<nat>,
                      buf: seq<Byte>, got: seq<nat>)
    requires k < |nums| && HandedOut(stream, nums[..k], out, at)
    requires |buf| == |got| == if nums[k] < 0 then 0 else nums[k]
    requires forall i :: 0 <= i < |buf| ==> buf[i] == stream(got[i])
    ensures HandedOut(stream, nums[..k + 1], out + [buf], at + got)
  {
    assert |out| == k;
    assert nums[..k + 1][..k] == nums[..k] && (out + [buf])[..k] == out;
    assert (at + got)[..|at + got| - |got|] == at;
  }
}
