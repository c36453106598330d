/** What holds of the key store's memory in every reachable state, and how each
    list operation keeps it. */
module KeyInvariant {
  import opened Bits
  import opened KeyMemory
  import KeySpec

  /** The bucket of a key in a table of `n` buckets. */
  function Bucket(id: KeyId, n: nat): (h: nat)
    requires n > 0
    ensures h < n
  {
    id % n
  }

  /** KEYHASH: for a power of two, the mask picks the bucket. */
  lemma MaskIsBucket(id: KeyId, n: nat)
    requires IsPow2(n)
    ensures n > 0 && BitAnd(id, n - 1) == Bucket(id, n)
  {
    var k: nat :| n == Pow2(k);
    MaskIsRemainder(id, k);
  }

  function Elems(s: seq<int>): set<int> {
    set x | x in s
  }

  /** The ring of slots in use and the free list share no slot, and hold all slots. */
  ghost predicate ListsOk(mem: Memory, freekeys: int, inUse: seq<int>, free: seq<int>) {
    Ring(mem, [HEAD] + inUse) && FChain(mem, freekeys, free) &&
    (forall x :: x in free ==> x != HEAD && x !in inUse) &&
    |mem| == 1 + |inUse| + |free|
  }

  /** `node` finds the slot of every key in use; so no key has two slots. */
  ghost predicate Named(mem: Memory, inUse: seq<int>, node: map<KeyId, int>) {
    (forall x :: x in inUse ==> 0 < x < |mem| && mem[x].keyid in node && node[mem[x].keyid] == x) &&
    (forall id :: id in node ==> node[id] in inUse && mem[node[id]].keyid == id)
  }

  ghost predicate BucketOk(mem: Memory, hash: seq<int>, chains: seq<seq<int>>, nodes: set<int>, h: nat)
    requires |hash| == |chains| && h < |hash|
  {
    HChain(mem, hash[h], chains[h]) &&
    forall x :: x in chains[h] ==> x in nodes && Bucket(mem[x].keyid, |hash|) == h
  }

  /** The buckets hold exactly the slots `nodes`, each where its key belongs. */
  ghost predicate Hashed(mem: Memory, hash: seq<int>, chains: seq<seq<int>>, nodes: set<int>) {
    0 < |hash| == |chains| &&
    (forall h :: 0 <= h < |hash| ==> BucketOk(mem, hash, chains, nodes, h)) &&
    (forall x :: x in nodes ==> 0 <= x < |mem| && x in chains[Bucket(mem[x].keyid, |hash|)])
  }

  /** The map from keys to entries that the slots in use stand for. */
  ghost function Model(mem: Memory, inUse: seq<int>, node: map<KeyId, int>): map<KeyId, Entry>
    requires Named(mem, inUse, node)
  {
    map id | id in node :: mem[node[id]].e
  }

  /** Which slots are where: the ring without its head, the free list, the buckets,
      and the slot of each key in use. */
  datatype View = View(inUse: seq<int>, free: seq<int>, chains: seq<seq<int>>, node: map<KeyId, int>)

  /** The invariant of the store. */
  ghost predicate Ok(mem: Memory, hash: seq<int>, freekeys: int, v: View) {
    ListsOk(mem, freekeys, v.inUse, v.free) && Named(mem, v.inUse, v.node) &&
    Hashed(mem, hash, v.chains, Elems(v.inUse))
  }

  ghost function ModelOf(mem: Memory, v: View): map<KeyId, Entry>
    requires Named(mem, v.inUse, v.node)
  {
    Model(mem, v.inUse, v.node)
  }

  // ----- frames

  lemma HashedFrame(mem: Memory, mem': Memory, hash: seq<int>, chains: seq<seq<int>>, nodes: set<int>)
    requires Hashed(mem, hash, chains, nodes) && |mem| <= |mem'|
    requires forall x :: x in nodes ==> mem'[x].hlink == mem[x].hlink && mem'[x].keyid == mem[x].keyid
    ensures Hashed(mem', hash, chains, nodes)
  {
    forall h | 0 <= h < |hash| ensures BucketOk(mem', hash, chains, nodes, h) {
      assert BucketOk(mem, hash, chains, nodes, h);
      HChainFrame(mem, mem', hash[h], chains[h]);
    }
  }

  lemma NamedFrame(mem: Memory, mem': Memory, inUse: seq<int>, node: map<KeyId, int>)
    requires Named(mem, inUse, node) && |mem| <= |mem'|
    requires forall x :: x in inUse ==> mem'[x].keyid == mem[x].keyid && mem'[x].e == mem[x].e
    ensures Named(mem', inUse, node) && Model(mem', inUse, node) == Model(mem, inUse, node)
  {
  }

  lemma ListsFrame(mem: Memory, mem': Memory, freekeys: int, inUse: seq<int>, free: seq<int>)
    requires ListsOk(mem, freekeys, inUse, free) && |mem| == |mem'|
    requires forall x :: 0 <= x < |mem| ==> mem'[x].f == mem[x].f && mem'[x].b == mem[x].b
    ensures ListsOk(mem', freekeys, inUse, free)
  {
    RingFrame(mem, mem', [HEAD] + inUse);
    FChainFrame(mem, mem', freekeys, free);
  }

  // ----- linking a slot in

  /** LINK_SLIST on the bucket of slot `x`. */
  lemma PushBucket(mem: Memory, hash: seq<int>, chains: seq<seq<int>>, nodes: set<int>, x: int, h: nat)
    requires Hashed(mem, hash, chains, nodes) && 0 <= x < |mem| && x !in nodes && h == Bucket(mem[x].keyid, |hash|)
    ensures Hashed(mem[x := mem[x].(hlink := hash[h])], hash[h := x], chains[h := [x] + chains[h]], nodes + {x})
  {
    var mem', hash', chains' := mem[x := mem[x].(hlink := hash[h])], hash[h := x], chains[h := [x] + chains[h]];
    forall g | 0 <= g < |hash| ensures BucketOk(mem', hash', chains', nodes + {x}, g) {
      assert BucketOk(mem, hash, chains, nodes, g);
      if g == h {
        HChainPush(mem, hash[h], chains[h], x);
      } else {
        HChainFrame(mem, mem', hash[g], chains[g]);
      }
    }
  }

  /** The write that ends UNLINK_SLIST: the predecessor `prev` of slot `x`, or the
      bucket when there is none, skips it. */
  function SkipInBucket(mem: Memory, hash: seq<int>, h: nat, prev: int, x: int): (r: (Memory, seq<int>))
    requires 0 <= x < |mem| && h < |hash| && NULL <= prev < |mem|
    ensures SameContents(mem, r.0) && |r.1| == |hash|
  {
    if prev == NULL then (mem, hash[h := mem[x].hlink])
    else (mem[prev := mem[prev].(hlink := mem[x].hlink)], hash)
  }

  /** Slot `x` is at index `i` of bucket `h`, behind `prev`. */
  ghost predicate InBucket(mem: Memory, chains: seq<seq<int>>, x: int, h: nat, i: nat, prev: int) {
    h < |chains| && i < |chains[h]| && chains[h][i] == x && 0 <= x < |mem| && NULL <= prev < |mem| &&
    (i == 0 ==> prev == NULL) && (i > 0 ==> prev == chains[h][i - 1] && prev != NULL)
  }

  lemma RemoveBucket(mem: Memory, hash: seq<int>, chains: seq<seq<int>>, nodes: set<int>, x: int, h: nat, i: nat, prev: int)
    requires Hashed(mem, hash, chains, nodes) && InBucket(mem, chains, x, h, i, prev)
    ensures var (mem', hash') := SkipInBucket(mem, hash, h, prev, x);
            Hashed(mem', hash', chains[h := Without(chains[h], i)], nodes - {x})
  {
    var (mem', hash') := SkipInBucket(mem, hash, h, prev, x);
    var chains' := chains[h := Without(chains[h], i)];
    forall g | 0 <= g < |hash| ensures BucketOk(mem', hash', chains', nodes - {x}, g) {
      if g == h {
        RemoveHere(mem, hash, chains, nodes, x, h, i, prev);
      } else {
        RemoveElsewhere(mem, hash, chains, nodes, x, h, i, prev, g);
      }
    }
    forall y | y in nodes - {x} ensures y in chains'[Bucket(mem'[y].keyid, |hash|)] {
      if Bucket(mem[y].keyid, |hash|) == h {
        StaysIn(chains[h], i, y);
      }
    }
  }

  lemma StaysIn(c: seq<int>, i: nat, y: int)
    requires i < |c| && y in c && y != c[i]
    ensures y in Without(c, i)
  {
    var j :| 0 <= j < |c| && c[j] == y;
    assert Without(c, i)[if j < i then j else j - 1] == y;
  }

  lemma RemoveHere(mem: Memory, hash: seq<int>, chains: seq<seq<int>>, nodes: set<int>, x: int, h: nat, i: nat, prev: int)
    requires Hashed(mem, hash, chains, nodes) && InBucket(mem, chains, x, h, i, prev)
    ensures var (mem', hash') := SkipInBucket(mem, hash, h, prev, x);
            BucketOk(mem', hash', chains[h := Without(chains[h], i)], nodes - {x}, h)
  {
    assert BucketOk(mem, hash, chains, nodes, h);
    var (mem', hash') := SkipInBucket(mem, hash, h, prev, x);
    HChainRemove(mem, hash[h], chains[h], i, mem', hash'[h]);
    var d := Without(chains[h], i);
    forall y | y in d ensures y in nodes - {x} && Bucket(mem'[y].keyid, |hash|) == h {
      WithoutIsPart(chains[h], i, y);
      WithoutAddresses(mem, mem', chains[h], i);
    }
  }

  lemma WithoutIsPart(c: seq<int>, i: nat, y: int)
    requires i < |c| && y in Without(c, i)
    ensures y in c
  {
  }

  lemma RemoveElsewhere(mem: Memory, hash: seq<int>, chains: seq<seq<int>>, nodes: set<int>, x: int, h: nat, i: nat,
                        prev: int, g: nat)
    requires Hashed(mem, hash, chains, nodes) && InBucket(mem, chains, x, h, i, prev) && g < |hash| && g != h
    ensures var (mem', hash') := SkipInBucket(mem, hash, h, prev, x);
            BucketOk(mem', hash', chains[h := Without(chains[h], i)], nodes - {x}, g)
  {
    assert BucketOk(mem, hash, chains, nodes, g);
    OtherBucket(mem, hash, chains, nodes, g, h, i);
    HChainFrame(mem, SkipInBucket(mem, hash, h, prev, x).0, hash[g], chains[g]);
  }

  /** Different buckets share no slot. */
  lemma OtherBucket(mem: Memory, hash: seq<int>, chains: seq<seq<int>>, nodes: set<int>, g: nat, h: nat, i: nat)
    requires Hashed(mem, hash, chains, nodes) && g < |hash| && h < |hash| && g != h && i < |chains[h]|
    ensures chains[h][i] !in chains[g] && (i > 0 ==> chains[h][i - 1] !in chains[g])
  {
    assert BucketOk(mem, hash, chains, nodes, g);
    assert BucketOk(mem, hash, chains, nodes, h);
    assert chains[h][i] in chains[h] && (i > 0 ==> chains[h][i - 1] in chains[h]);
  }

  lemma HChainRemove(mem: Memory, p: int, c: seq<int>, i: nat, mem': Memory, p': int)
    requires HChain(mem, p, c) && i < |c|
    requires if i == 0 then mem' == mem && p' == mem[c[i]].hlink
             else p' == p && mem' == mem[c[i - 1] := mem[c[i - 1]].(hlink := mem[c[i]].hlink)]
    ensures HChain(mem', p', Without(c, i))
  {
    var d := Without(c, i);
    WithoutAddresses(mem, mem', c, i);
    assert i + 1 < |c| ==> mem[c[i]].hlink == c[i + 1];
    forall j {:trigger mem'[d[j]].hlink} | 0 <= j < |d| - 1 ensures mem'[d[j]].hlink == d[j + 1] {
      var k := if j < i then j else j + 1;
      assert d[j] == c[k] && mem[c[k]].hlink == c[k + 1];
    }
  }

  // ----- moving a slot from the free list into use

  lemma RingAddresses(mem: Memory, freekeys: int, inUse: seq<int>, free: seq<int>)
    requires ListsOk(mem, freekeys, inUse, free)
    ensures forall x :: x in inUse ==> 0 < x < |mem|
    ensures forall x :: x in free ==> 0 < x < |mem|
  {
    var r := [HEAD] + inUse;
    forall x | x in inUse ensures 0 < x < |mem| {
      var i :| 0 <= i < |inUse| && inUse[i] == x;
      assert r[i + 1] == x && r[0] == HEAD;
    }
  }

  /** Taking the first free slot and linking it at the end of the ring. `mem'` may
      differ from `mem` in that slot's contents and bucket link. */
  lemma AllocLists(mem: Memory, freekeys: int, inUse: seq<int>, free: seq<int>, mem': Memory)
    requires ListsOk(mem, freekeys, inUse, free) && free != [] && |mem'| == |mem|
    requires forall y :: 0 <= y < |mem| ==> mem'[y].f == mem[y].f && mem'[y].b == mem[y].b
    ensures 0 < freekeys < |mem| && ValidLinks(mem', HEAD) && freekeys != mem'[HEAD].b
    ensures ListsOk(LinkTail(mem', HEAD, freekeys), mem[freekeys].f, inUse + [freekeys], free[1..])
  {
    var x, r := freekeys, [HEAD] + inUse;
    AllocRing(mem, freekeys, inUse, free, mem');
    var m := LinkTail(mem', HEAD, x);
    forall y | y in free[1..] ensures y != HEAD && y !in inUse + [x] && m[y].f == mem[y].f {
      var i :| 0 <= i < |free[1..]| && free[1..][i] == y;
      assert free[i + 1] == y && free[0] == x;
      assert y in free && mem'[HEAD].b in r;
    }
    FChainTail(mem, freekeys, free);
    FChainFrame(mem, m, mem[x].f, free[1..]);
  }

  lemma AllocRing(mem: Memory, freekeys: int, inUse: seq<int>, free: seq<int>, mem': Memory)
    requires ListsOk(mem, freekeys, inUse, free) && free != [] && |mem'| == |mem|
    requires forall y :: 0 <= y < |mem| ==> mem'[y].f == mem[y].f && mem'[y].b == mem[y].b
    ensures 0 < freekeys < |mem| && ValidLinks(mem', HEAD) && freekeys != mem'[HEAD].b
    ensures mem'[HEAD].b in [HEAD] + inUse
    ensures Ring(LinkTail(mem', HEAD, freekeys), [HEAD] + (inUse + [freekeys]))
  {
    var x, r := freekeys, [HEAD] + inUse;
    assert free[0] == x && x in free && x !in r;
    RingFrame(mem, mem', r);
    LinkTailAppends(mem', r, x);
    assert r + [x] == [HEAD] + (inUse + [x]);
    assert mem'[HEAD].b == r[|r| - 1];
  }

  lemma RingFrame(mem: Memory, mem': Memory, r: seq<int>)
    requires Ring(mem, r) && |mem| <= |mem'|
    requires forall x :: x in r ==> mem'[x].f == mem[x].f && mem'[x].b == mem[x].b
    ensures Ring(mem', r)
  {
  }

  lemma AllocNamed(mem: Memory, inUse: seq<int>, node: map<KeyId, int>, x: int, mem': Memory)
    requires Named(mem, inUse, node) && 0 < x < |mem| == |mem'| && x !in inUse && mem'[x].keyid !in node
    requires forall y :: y in inUse ==> mem'[y].keyid == mem[y].keyid && mem'[y].e == mem[y].e
    ensures Named(mem', inUse + [x], node[mem'[x].keyid := x])
    ensures Model(mem', inUse + [x], node[mem'[x].keyid := x]) == Model(mem, inUse, node)[mem'[x].keyid := mem'[x].e]
  {
  }

  /** The slot taken from the free list, filled and linked into its bucket. */
  function Filled(mem: Memory, hash: seq<int>, x: int, h: nat, id: KeyId, e: Entry): (r: Memory)
    requires 0 <= x < |mem| && h < |hash|
    ensures |r| == |mem| && forall y :: 0 <= y < |mem| ==> r[y].f == mem[y].f && r[y].b == mem[y].b
  {
    mem[x := mem[x].(keyid := id, e := e, hlink := hash[h])]
  }

  lemma FilledHashed(mem: Memory, hash: seq<int>, chains: seq<seq<int>>, nodes: set<int>, x: int, h: nat, id: KeyId, e: Entry)
    requires Hashed(mem, hash, chains, nodes) && 0 <= x < |mem| && x !in nodes && h == Bucket(id, |hash|)
    ensures Hashed(Filled(mem, hash, x, h, id, e), hash[h := x], chains[h := [x] + chains[h]], nodes + {x})
  {
    var m := mem[x := mem[x].(keyid := id, e := e)];
    HashedFrame(mem, m, hash, chains, nodes);
    PushBucket(m, hash, chains, nodes, x, h);
    assert m[x := m[x].(hlink := hash[h])] == Filled(mem, hash, x, h, id, e);
  }

  /** All of alloc_auth_info: the first free slot comes into use for key `id`. */
  lemma AllocKeeps(mem: Memory, hash: seq<int>, freekeys: int, v: View, h: nat, id: KeyId, e: Entry) returns (v': View)
    requires Ok(mem, hash, freekeys, v) && v.free != [] && id !in v.node && h == Bucket(id, |hash|)
    ensures 0 < freekeys < |mem|
    ensures var m := Filled(mem, hash, freekeys, h, id, e);
            ValidLinks(m, HEAD) && freekeys != m[HEAD].b
    ensures var m := LinkTail(Filled(mem, hash, freekeys, h, id, e), HEAD, freekeys);
            Ok(m, hash[h := freekeys], mem[freekeys].f, v') && ModelOf(m, v') == ModelOf(mem, v)[id := e]
    ensures |v'.inUse| == |v.inUse| + 1 && |v'.free| == |v.free| - 1
  {
    var x, inUse, free, chains := freekeys, v.inUse, v.free, v.chains;
    RingAddresses(mem, freekeys, inUse, free);
    assert free[0] == x && x in free && x !in inUse;
    var m1 := Filled(mem, hash, x, h, id, e);
    AllocLists(mem, x, inUse, free, m1);
    FilledHashed(mem, hash, chains, Elems(inUse), x, h, id, e);
    var m := LinkTail(m1, HEAD, x);
    HashedFrame(m1, m, hash[h := x], chains[h := [x] + chains[h]], Elems(inUse) + {x});
    assert Elems(inUse + [x]) == Elems(inUse) + {x};
    AllocNamed(mem, inUse, v.node, x, m);
    v' := View(inUse + [x], free[1..], chains[h := [x] + chains[h]], v.node[id := x]);
  }

  /** A new zeroed slot at the front of the free list. */
  lemma MoreSlot(mem: Memory, hash: seq<int>, freekeys: int, v: View) returns (v': View)
    requires Ok(mem, hash, freekeys, v)
    ensures var m := mem + [ZeroSlot.(f := freekeys)];
            Ok(m, hash, |mem|, v') && ModelOf(m, v') == ModelOf(mem, v)
    ensures v' == v.(free := [|mem|] + v.free)
  {
    var m, x := mem + [ZeroSlot], |mem|;
    var m' := mem + [ZeroSlot.(f := freekeys)];
    RingFrame(mem, m', [HEAD] + v.inUse);
    TailAddresses(mem, v.inUse);
    FreePush(m, freekeys, v.free, m, x, ZeroSlot.(f := freekeys));
    assert m' == m[x := ZeroSlot.(f := freekeys)];
    HashedFrame(mem, m', hash, v.chains, Elems(v.inUse));
    NamedFrame(mem, m', v.inUse, v.node);
    v' := v.(free := [x] + v.free);
  }

  // ----- moving a slot from use back to the free list

  /** Unlinking slot `inUse[i]` from the ring and pushing it, as `s`, on the free list. */
  lemma FreeLists(mem: Memory, freekeys: int, inUse: seq<int>, free: seq<int>, i: nat, mem': Memory, s: Slot)
    requires ListsOk(mem, freekeys, inUse, free) && i < |inUse| && |mem'| == |mem| && s.f == freekeys
    requires forall y :: 0 <= y < |mem| ==> mem'[y].f == mem[y].f && mem'[y].b == mem[y].b
    ensures 0 <= inUse[i] < |mem| && ValidLinks(mem', inUse[i]) && inUse[i] != mem'[inUse[i]].b
    ensures ListsOk(Unlink(mem', inUse[i])[inUse[i] := s], inUse[i], Without(inUse, i), [inUse[i]] + free)
  {
    var x, r := inUse[i], [HEAD] + inUse;
    assert r[i + 1] == x && x in inUse;
    RingFrame(mem, mem', r);
    UnlinkNeighbours(mem', r, i + 1);
    FreeRing(mem', inUse, i, s);
    var m := Unlink(mem', x);
    assert mem'[x].b == r[i] && mem'[x].b in r;
    FreePush(mem, freekeys, free, m, x, s);
    TailAddresses(mem, inUse);
    WithoutAddresses(mem, mem, inUse, i);
    forall y | y in [x] + free ensures y != HEAD && y !in Without(inUse, i) {
      if y in Without(inUse, i) { WithoutIsPart(inUse, i, y); }
    }
  }

  lemma FreeRing(mem: Memory, inUse: seq<int>, i: nat, s: Slot)
    requires Ring(mem, [HEAD] + inUse) && i < |inUse| && 0 <= inUse[i] < |mem|
    requires ValidLinks(mem, inUse[i]) && inUse[i] != mem[inUse[i]].b
    ensures Ring(Unlink(mem, inUse[i])[inUse[i] := s], [HEAD] + Without(inUse, i))
  {
    var x, r := inUse[i], [HEAD] + inUse;
    assert r[i + 1] == x;
    UnlinkRemoves(mem, r, i + 1);
    WithoutAddresses(mem, mem, r, i + 1);
    WithoutCons(inUse, i);
    RingElsewhere(Unlink(mem, x), Without(r, i + 1), x, s);
  }

  /** A slot outside a ring may change. */
  lemma RingElsewhere(mem: Memory, r: seq<int>, x: int, s: Slot)
    requires Ring(mem, r) && 0 <= x < |mem| && x !in r
    ensures Ring(mem[x := s], r)
  {
    RingFrame(mem, mem[x := s], r);
  }

  lemma WithoutCons(inUse: seq<int>, i: nat)
    requires i < |inUse|
    ensures Without([HEAD] + inUse, i + 1) == [HEAD] + Without(inUse, i)
  {
  }

  lemma TailAddresses(mem: Memory, inUse: seq<int>)
    requires Addresses(mem, [HEAD] + inUse)
    ensures Addresses(mem, inUse) && HEAD !in inUse
  {
    var r := [HEAD] + inUse;
    assert r[0] == HEAD && forall j :: 0 <= j < |inUse| ==> inUse[j] == r[j + 1];
  }

  lemma FreePush(mem: Memory, freekeys: int, free: seq<int>, m: Memory, x: int, s: Slot)
    requires FChain(mem, freekeys, free) && |m| == |mem| && 0 <= x < |m| && x !in free && s.f == freekeys
    requires forall y :: y in free ==> m[y].f == mem[y].f
    ensures FChain(m[x := s], x, [x] + free)
  {
    FChainFrame(mem, m, freekeys, free);
    FChainPush(m, freekeys, free, x);
    FChainFrame(m[x := m[x].(f := freekeys)], m[x := s], x, [x] + free);
  }

  lemma FreeNamed(mem: Memory, inUse: seq<int>, node: map<KeyId, int>, i: nat, mem': Memory)
    requires Named(mem, inUse, node) && i < |inUse| && |mem'| == |mem| && Addresses(mem, inUse)
    requires forall y :: y in inUse && y != inUse[i] ==> mem'[y].keyid == mem[y].keyid && mem'[y].e == mem[y].e
    ensures Named(mem', Without(inUse, i), node - {mem[inUse[i]].keyid})
    ensures Model(mem', Without(inUse, i), node - {mem[inUse[i]].keyid}) ==
            Model(mem, inUse, node) - {mem[inUse[i]].keyid}
  {
    var x, id := inUse[i], mem[inUse[i]].keyid;
    WithoutAddresses(mem, mem', inUse, i);
    forall y | y in Without(inUse, i) ensures y in inUse && y != x { WithoutIsPart(inUse, i, y); }
    forall k | k in node && k != id ensures node[k] in Without(inUse, i) {
      StaysIn(inUse, i, node[k]);
    }
  }

  lemma ElemsWithout(s: seq<int>, i: nat)
    requires i < |s| && forall j, k :: 0 <= j < k < |s| ==> s[j] != s[k]
    ensures Elems(Without(s, i)) == Elems(s) - {s[i]}
  {
    forall y | y in s && y != s[i] ensures y in Without(s, i) { StaysIn(s, i, y); }
    forall y | y in Without(s, i) ensures y in s && y != s[i] { WithoutIsPart(s, i, y); }
  }

  /** The slot as free_auth_info leaves it: contents zeroed, links into bucket and
      ring left behind, `f` for the free list. */
  function Released(s: Slot, freekeys: int): Slot {
    Slot(s.hlink, freekeys, s.b, 0, ZeroSlot.e)
  }

  predicate CanFree(mem: Memory, hash: seq<int>, h: nat, prev: int, x: int) {
    0 <= x < |mem| && h < |hash| && NULL <= prev < |mem| &&
    var m := SkipInBucket(mem, hash, h, prev, x).0;
    ValidLinks(m, x) && x != m[x].b
  }

  /** The memory after free_auth_info: UNLINK_SLIST, UNLINK_DLIST, contents zeroed, LINK_SLIST. */
  function Freed(mem: Memory, hash: seq<int>, h: nat, prev: int, x: int, freekeys: int): (r: Memory)
    requires CanFree(mem, hash, h, prev, x)
    ensures |r| == |mem|
    ensures forall y :: 0 <= y < |mem| && y != x ==> r[y].keyid == mem[y].keyid && r[y].e == mem[y].e
    ensures var m := SkipInBucket(mem, hash, h, prev, x).0;
            forall y :: 0 <= y < |mem| && y != x ==> r[y].hlink == m[y].hlink
  {
    var m := Unlink(SkipInBucket(mem, hash, h, prev, x).0, x);
    m[x := Released(m[x], freekeys)]
  }

  lemma FreedLists(mem: Memory, hash: seq<int>, freekeys: int, v: View, i: nat, h: nat, j: nat, prev: int)
    requires ListsOk(mem, freekeys, v.inUse, v.free) && i < |v.inUse| && h < |hash|
    requires InBucket(mem, v.chains, v.inUse[i], h, j, prev)
    ensures CanFree(mem, hash, h, prev, v.inUse[i])
    ensures ListsOk(Freed(mem, hash, h, prev, v.inUse[i], freekeys), v.inUse[i], Without(v.inUse, i), [v.inUse[i]] + v.free)
  {
    var x := v.inUse[i];
    var m := SkipInBucket(mem, hash, h, prev, x).0;
    FreeLists(mem, freekeys, v.inUse, v.free, i, m, ZeroSlot.(f := freekeys));
    FreeLists(mem, freekeys, v.inUse, v.free, i, m, Released(Unlink(m, x)[x], freekeys));
  }

  lemma FreedHashed(mem: Memory, hash: seq<int>, freekeys: int, chains: seq<seq<int>>, nodes: set<int>, x: int, h: nat,
                    j: nat, prev: int)
    requires Hashed(mem, hash, chains, nodes) && InBucket(mem, chains, x, h, j, prev) && CanFree(mem, hash, h, prev, x)
    ensures Hashed(Freed(mem, hash, h, prev, x, freekeys), SkipInBucket(mem, hash, h, prev, x).1,
                   chains[h := Without(chains[h], j)], nodes - {x})
  {
    RemoveBucket(mem, hash, chains, nodes, x, h, j, prev);
    var (m, hash') := SkipInBucket(mem, hash, h, prev, x);
    HashedFrame(m, Freed(mem, hash, h, prev, x, freekeys), hash', chains[h := Without(chains[h], j)], nodes - {x});
  }

  /** All of free_auth_info for the slot at index `i` of the ring, index `j` of bucket `h`. */
  lemma FreeKeeps(mem: Memory, hash: seq<int>, freekeys: int, v: View, i: nat, h: nat, j: nat, prev: int) returns (v': View)
    requires Ok(mem, hash, freekeys, v) && i < |v.inUse| && h < |hash| && InBucket(mem, v.chains, v.inUse[i], h, j, prev)
    ensures CanFree(mem, hash, h, prev, v.inUse[i])
    ensures var m := Freed(mem, hash, h, prev, v.inUse[i], freekeys);
            Ok(m, SkipInBucket(mem, hash, h, prev, v.inUse[i]).1, v.inUse[i], v') &&
            ModelOf(m, v') == ModelOf(mem, v) - {mem[v.inUse[i]].keyid}
    ensures v'.inUse == Without(v.inUse, i) && |v'.free| == |v.free| + 1
  {
    var x := v.inUse[i];
    FreedLists(mem, hash, freekeys, v, i, h, j, prev);
    FreedHashed(mem, hash, freekeys, v.chains, Elems(v.inUse), x, h, j, prev);
    TailAddresses(mem, v.inUse);
    ElemsWithout(v.inUse, i);
    FreeNamed(mem, v.inUse, v.node, i, Freed(mem, hash, h, prev, x, freekeys));
    v' := View(Without(v.inUse, i), [x] + v.free, v.chains[h := Without(v.chains[h], j)], v.node - {mem[x].keyid});
  }

  // ----- changing the contents of a slot in use

  lemma SetEntryKeeps(mem: Memory, hash: seq<int>, freekeys: int, v: View, x: int, e: Entry)
    requires Ok(mem, hash, freekeys, v) && x in v.inUse
    ensures 0 < x < |mem| && mem[x].keyid in v.node
    ensures var m := mem[x := mem[x].(e := e)];
            Ok(m, hash, freekeys, v) && ModelOf(m, v) == ModelOf(mem, v)[mem[x].keyid := e]
  {
    var m := mem[x := mem[x].(e := e)];
    ListsFrame(mem, m, freekeys, v.inUse, v.free);
    HashedFrame(mem, m, hash, v.chains, Elems(v.inUse));
  }

  // ----- rebuilding the hash table

  /** A table of empty buckets holds no slot. */
  lemma EmptyTable(mem: Memory, n: nat)
    requires n > 0
    ensures Hashed(mem, seq(n, _ => NULL), seq(n, _ => []), {})
  {
    var hash, chains: seq<seq<int>> := seq(n, _ => NULL), seq(n, _ => []);
    assert forall h :: 0 <= h < n ==> BucketOk(mem, hash, chains, {}, h);
  }

  lemma ElemsUpTo(mem: Memory, inUse: seq<int>, k: nat)
    requires Addresses(mem, [HEAD] + inUse) && k < |inUse|
    ensures Elems(inUse[..k + 1]) == Elems(inUse[..k]) + {inUse[k]} && inUse[k] !in Elems(inUse[..k])
  {
    TailAddresses(mem, inUse);
    assert inUse[..k + 1] == inUse[..k] + [inUse[k]];
  }

  /** Linking the next slot of the ring into its bucket. */
  lemma RehashStep(mem: Memory, hash: seq<int>, freekeys: int, v: View, k: nat, h: nat) returns (v': View)
    requires ListsOk(mem, freekeys, v.inUse, v.free) && Named(mem, v.inUse, v.node) && k < |v.inUse|
    requires Hashed(mem, hash, v.chains, Elems(v.inUse[..k]))
    requires 0 <= v.inUse[k] < |mem| && h == Bucket(mem[v.inUse[k]].keyid, |hash|)
    ensures var x := v.inUse[k];
            var m := mem[x := mem[x].(hlink := hash[h])];
            ListsOk(m, freekeys, v.inUse, v.free) && Named(m, v.inUse, v.node) && ModelOf(m, v) == ModelOf(mem, v) &&
            Hashed(m, hash[h := x], v'.chains, Elems(v.inUse[..k + 1]))
    ensures v' == v.(chains := v'.chains)
  {
    var x := v.inUse[k];
    var m := mem[x := mem[x].(hlink := hash[h])];
    ListsFrame(mem, m, freekeys, v.inUse, v.free);
    NamedFrame(mem, m, v.inUse, v.node);
    ElemsUpTo(mem, v.inUse, k);
    PushBucket(mem, hash, v.chains, Elems(v.inUse[..k]), x, h);
    v' := v.(chains := v.chains[h := [x] + v.chains[h]]);
  }

  /** Where the ring leads from slot `k`. */
  lemma RingNext(mem: Memory, freekeys: int, v: View, k: nat)
    requires ListsOk(mem, freekeys, v.inUse, v.free) && k <= |v.inUse|
    ensures k < |v.inUse| ==> 0 < v.inUse[k] < |mem|
    ensures var x := if k == 0 then HEAD else v.inUse[k - 1];
            0 <= x < |mem| && mem[x].f == if k < |v.inUse| then v.inUse[k] else HEAD
  {
    var r := [HEAD] + v.inUse;
    assert k > 0 ==> r[k] == v.inUse[k - 1];
    assert k < |v.inUse| ==> r[k + 1] == v.inUse[k] && mem[r[k]].f == r[k + 1];
    TailAddresses(mem, v.inUse);
  }

  // ----- walking the ring while slots leave it

  lemma NothingDone(mem0: Memory, s: seq<int>, m: map<KeyId, Entry>)
    requires Addresses(mem0, s)
    ensures KeysBefore(mem0, s, 0) == {} && KeySpec.Purged(m, {}) == m
  {
  }

  /** The slots of `s` from index `k` on still have the keys they had in `mem0`. */
  ghost predicate KeysFrom(mem0: Memory, mem: Memory, s: seq<int>, k: nat) {
    |mem0| == |mem| && k <= |s| && Addresses(mem0, s) &&
    forall i :: k <= i < |s| ==> mem[s[i]].keyid == mem0[s[i]].keyid
  }

  /** The keys of the first `k` slots of `s`. */
  ghost function KeysBefore(mem0: Memory, s: seq<int>, k: nat): set<KeyId>
    requires Addresses(mem0, s) && k <= |s|
  {
    set i | 0 <= i < k :: mem0[s[i]].keyid
  }

  /** The slot reached next has a key that no slot before it had. */
  lemma NotYetDone(mem0: Memory, v0: View, mem: Memory, v: View, k: nat)
    requires Named(mem0, v0.inUse, v0.node) && Named(mem, v.inUse, v.node)
    requires KeysFrom(mem0, mem, v0.inUse, k) && k < |v0.inUse| && v0.inUse[k] in v.inUse
    ensures var x := v0.inUse[k];
            var id := mem[x].keyid;
            id !in KeysBefore(mem0, v0.inUse, k) && id in ModelOf(mem0, v0) &&
            id in ModelOf(mem, v) && ModelOf(mem, v)[id] == mem[x].e
  {
    var s := v0.inUse;
    forall i | 0 <= i < k ensures mem0[s[i]].keyid != mem0[s[k]].keyid {
      assert s[i] in s && s[k] in s;
    }
    assert s[k] in s;
  }

  lemma KeysStep(mem0: Memory, before: Memory, mem: Memory, s: seq<int>, k: nat)
    requires KeysFrom(mem0, before, s, k) && k < |s| && |mem| == |before|
    requires forall y :: 0 <= y < |mem| && y != s[k] ==> mem[y].keyid == before[y].keyid
    ensures KeysFrom(mem0, mem, s, k + 1)
    ensures KeysBefore(mem0, s, k + 1) == KeysBefore(mem0, s, k) + {before[s[k]].keyid}
  {
  }

  lemma AllDone(mem0: Memory, v0: View)
    requires Named(mem0, v0.inUse, v0.node) && Addresses(mem0, v0.inUse)
    ensures KeysBefore(mem0, v0.inUse, |v0.inUse|) == ModelOf(mem0, v0).Keys
  {
    var s := v0.inUse;
    forall i | 0 <= i < |s| ensures mem0[s[i]].keyid in v0.node { assert s[i] in s; }
    forall id | id in v0.node ensures id in KeysBefore(mem0, s, |s|) {
      var i :| 0 <= i < |s| && s[i] == v0.node[id];
    }
  }
}
