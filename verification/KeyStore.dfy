/** The key store of libntp/authkeys.c: a hash table, a ring of slots in use and a
    free list over the same slots, updated in place. */
module KeyStore {
  import opened Bits
  import opened KeyMemory
  import opened KeyInvariant
  import KeySpec

  const INIT_BUCKETS := 64
  const MEMINC := 16

  class Store {
    var mem: Memory
    var hash: seq<int>
    var freekeys: int
    var numkeys: nat
    var numfree: nat
    var lookups: nat
    var notfound: nat
    ghost var v: View

    ghost predicate Valid()
      reads this
    {
      Ok(mem, hash, freekeys, v) && numkeys == |v.inUse| && numfree == |v.free| && IsPow2(|hash|)
    }

    /** The map from keys to entries that the store stands for. */
    ghost function Abs(): map<KeyId, Entry>
      requires Valid()
      reads this
    {
      ModelOf(mem, v)
    }

    /** auth_init on the initial static data. */
    constructor ()
      ensures Valid() && Abs() == map[] && |mem| == 1
    {
      mem := [ZeroSlot.(f := HEAD, b := HEAD)];
      hash := seq(INIT_BUCKETS, _ => NULL);
      freekeys, numkeys, numfree, lookups, notfound := NULL, 0, 0, 0, 0;
      v := View([], [], seq(INIT_BUCKETS, _ => []), map[]);
      new;
      assert Pow2(6) == INIT_BUCKETS;
      assert Ring(mem, [HEAD] + v.inUse) && FChain(mem, freekeys, v.free);
      EmptyTable(mem, INIT_BUCKETS);
      assert Elems(v.inUse) == {};
    }

    /** KEYHASH */
    method KeyHash(id: KeyId) returns (h: nat)
      requires IsPow2(|hash|)
      ensures |hash| > 0 && h == Bucket(id, |hash|)
    {
      MaskIsBucket(id, |hash|);
      h := BitAnd(id, |hash| - 1);
    }

    /** The walk along a bucket that authtrust, authlookup and auth_setkey share. */
    method Find(id: KeyId) returns (x: int)
      requires Valid()
      ensures x == if id in v.node then v.node[id] else NULL
    {
      ghost var c := v.chains[Bucket(id, |hash|)];
      assert BucketOk(mem, hash, v.chains, Elems(v.inUse), Bucket(id, |hash|));
      assert id in v.node ==> v.node[id] in Elems(v.inUse) && v.node[id] in c;
      var h := KeyHash(id);
      x := hash[h];
      ghost var i := 0;
      while x != NULL
        invariant 0 <= i <= |c|
        invariant i < |c| ==> x == c[i]
        invariant i == |c| ==> x == NULL
        invariant forall j :: 0 <= j < i ==> mem[c[j]].keyid != id
        decreases |c| - i
      {
        assert i + 1 < |c| ==> mem[c[i]].hlink == c[i + 1];
        if mem[x].keyid == id {
          assert x in c;
          return;
        }
        x := mem[x].hlink;
        i := i + 1;
      }
    }

    /** auth_moremem: pushes zeroed slots on the free list. */
    method MoreMem(keycount: int)
      requires Valid()
      modifies this`mem, this`freekeys, this`numfree, this`v
      ensures Valid() && Abs() == old(Abs()) && v.node == old(v.node)
      ensures numfree == old(numfree) + (if keycount > 0 then keycount else MEMINC)
      ensures |mem| - |old(mem)| == numfree - old(numfree) && mem[..|old(mem)|] == old(mem)
      ensures forall x :: |old(mem)| <= x < |mem| ==> mem[x] == ZeroSlot.(f := mem[x].f)
    {
      var i := if keycount > 0 then keycount else MEMINC;
      ghost var more := i;
      numfree := numfree + i;
      while i > 0
        invariant 0 <= i <= more && numfree == |v.free| + i && numfree == old(numfree) + more
        invariant |mem| == |old(mem)| + more - i && numkeys == |v.inUse| && v.node == old(v.node)
        invariant Ok(mem, hash, freekeys, v) && ModelOf(mem, v) == old(Abs())
        invariant mem[..|old(mem)|] == old(mem)
        invariant forall x :: |old(mem)| <= x < |mem| ==> mem[x] == ZeroSlot.(f := mem[x].f)
      {
        PushNewSlot();
        i := i - 1;
      }
    }

    /** One more zeroed slot, linked by LINK_SLIST at the head of the free list. */
    method PushNewSlot()
      requires Ok(mem, hash, freekeys, v)
      modifies this`mem, this`freekeys, this`v
      ensures Ok(mem, hash, freekeys, v) && ModelOf(mem, v) == old(ModelOf(mem, v))
      ensures v == old(v).(free := [|old(mem)|] + old(v.free)) && mem == old(mem) + [ZeroSlot.(f := old(freekeys))]
    {
      ghost var v' := MoreSlot(mem, hash, freekeys, v);
      var x := |mem|;
      mem := mem + [ZeroSlot.(f := freekeys)];
      freekeys := x;
      v := v';
    }

    /** alloc_auth_info, for a key that has no slot yet. */
    method Alloc(h: nat, id: KeyId, e: Entry)
      requires Valid() && id !in v.node && h == Bucket(id, |hash|)
      modifies this`mem, this`hash, this`freekeys, this`numkeys, this`numfree, this`v
      ensures Valid() && |hash| == |old(hash)|
      ensures Abs() == old(Abs())[id := e]
      ensures numkeys == old(numkeys) + 1
      ensures |mem| == |old(mem)| + (if old(numfree) < 1 then MEMINC else 0)
    {
      if numfree < 1 {
        MoreMem(-1);
      }
      AllocFirst(h, id, e);
    }

    /** alloc_auth_info when a slot is free. */
    method AllocFirst(h: nat, id: KeyId, e: Entry)
      requires Valid() && id !in v.node && h == Bucket(id, |hash|) && numfree > 0
      modifies this`mem, this`hash, this`freekeys, this`numkeys, this`numfree, this`v
      ensures Valid() && |hash| == |old(hash)| && |mem| == |old(mem)|
      ensures Abs() == old(Abs())[id := e]
      ensures numkeys == old(numkeys) + 1
    {
      ghost var v' := AllocKeeps(mem, hash, freekeys, v, h, id, e);
      TakeSlot(h, id, e);
      v := v';
      numfree := numfree - 1;
      numkeys := numkeys + 1;
    }

    /** The writes of alloc_auth_info: UNLINK_HEAD_SLIST, the contents, LINK_SLIST
        and LINK_TAIL_DLIST. */
    method TakeSlot(h: nat, id: KeyId, e: Entry)
      requires 0 < freekeys < |mem| && h < |hash|
      requires var m := Filled(mem, hash, freekeys, h, id, e); ValidLinks(m, HEAD) && freekeys != m[HEAD].b
      modifies this`mem, this`hash, this`freekeys
      ensures freekeys == old(mem[freekeys].f) && hash == old(hash)[h := old(freekeys)]
      ensures mem == LinkTail(Filled(old(mem), old(hash), old(freekeys), h, id, e), HEAD, old(freekeys))
    {
      var x := freekeys;
      freekeys := mem[x].f;
      mem := mem[x := mem[x].(keyid := id, e := e)];
      mem := mem[x := mem[x].(hlink := hash[h])];
      hash := hash[h := x];
      assert mem == Filled(old(mem), old(hash), x, h, id, e);
      mem := LinkTail(mem, HEAD, x);
    }

    /** authtrust */
    method Trust(id: KeyId, trust: bool)
      requires Valid()
      modifies this`mem, this`hash, this`freekeys, this`numkeys, this`numfree, this`v
      ensures Valid() && |hash| == |old(hash)|
      ensures Abs() == KeySpec.Trust(old(Abs()), id, trust)
      ensures |mem| == |old(mem)| + (if trust && id !in old(Abs()) && old(numfree) < 1 then MEMINC else 0)
    {
      var x := Find(id);
      if !trust && x == NULL {
        return;
      }
      if x != NULL {
        SetEntryKeeps(mem, hash, freekeys, v, x, mem[x].e.(trusted := trust));
        mem := mem[x := mem[x].(e := mem[x].e.(trusted := trust))];
        return;
      }
      var h := KeyHash(id);
      Alloc(h, id, KeySpec.TrustOnly);
    }

    /** authlookup: the address of the slot found, or NULL. */
    method Lookup(id: KeyId, needTrust: bool) returns (x: int)
      requires Valid()
      modifies this`lookups, this`notfound
      ensures Valid() && Abs() == old(Abs())
      ensures x != NULL <==> KeySpec.Found(Abs(), id, needTrust)
      ensures x != NULL ==> 0 < x < |mem| && mem[x].keyid == id && mem[x].e == Abs()[id]
      ensures lookups == old(lookups) + 1 && notfound == old(notfound) + if x == NULL then 1 else 0
    {
      lookups := lookups + 1;
      x := Find(id);
      if x == NULL || mem[x].e.kind == AuthNone || (needTrust && !mem[x].e.trusted) {
        notfound := notfound + 1;
        return NULL;
      }
    }

    /** auth_setkey */
    method SetKey(id: KeyId, kind: AuthType, key: seq<Byte>)
      requires Valid()
      modifies this`mem, this`hash, this`freekeys, this`numkeys, this`numfree, this`v
      ensures Valid() && |hash| == |old(hash)|
      ensures Abs() == KeySpec.SetKey(old(Abs()), id, kind, key)
      ensures |mem| == |old(mem)| + (if id !in old(Abs()) && old(numfree) < 1 then MEMINC else 0)
    {
      var x := Find(id);
      if x != NULL {
        ghost var e := Entry(kind, mem[x].e.trusted, Secret(key), |key| % 0x1_0000);
        SetEntryKeeps(mem, hash, freekeys, v, x, e);
        ghost var before := mem;
        mem := mem[x := mem[x].(e := mem[x].e.(kind := kind))];
        mem := mem[x := mem[x].(e := mem[x].e.(keySize := |key| % 0x1_0000))];
        mem := mem[x := mem[x].(e := mem[x].e.(key := Secret(key)))];
        assert mem == before[x := before[x].(e := e)];
        return;
      }
      var h := KeyHash(id);
      Alloc(h, id, Entry(kind, false, Secret(key), |key| % 0x1_0000));
    }

    /** The walk of UNLINK_SLIST along a bucket: the predecessor of slot `x`, if it is there. */
    method Predecessor(x: int, h: nat) returns (found: bool, prev: int, ghost j: nat)
      requires Ok(mem, hash, freekeys, v) && h < |hash| && 0 <= x < |mem|
      ensures found <==> x in v.chains[h]
      ensures found ==> InBucket(mem, v.chains, x, h, j, prev)
    {
      ghost var c := v.chains[h];
      assert BucketOk(mem, hash, v.chains, Elems(v.inUse), h);
      prev := NULL;
      j := 0;
      var cur := hash[h];
      while cur != x
        invariant 0 <= j <= |c| && (j < |c| ==> cur == c[j]) && (j == |c| ==> cur == NULL)
        invariant NULL <= prev < |mem| && (j == 0 ==> prev == NULL) && (j > 0 ==> prev == c[j - 1] && prev != NULL)
        invariant x !in c[..j]
        decreases |c| - j
      {
        assert j + 1 < |c| ==> mem[c[j]].hlink == c[j + 1];
        if cur != NULL && mem[cur].hlink != NULL {
          prev := cur;
          cur := mem[cur].hlink;
          j := j + 1;
        } else {
          assert j < |c| ==> c == c[..j] + [c[j]];
          return false, NULL, 0;
        }
      }
      found := true;
    }

    /** Replaces the contents of a slot in use. */
    method SetEntry(x: int, e: Entry)
      requires Valid() && x in v.inUse && 0 <= x < |mem|
      modifies this`mem
      ensures Valid() && mem == old(mem)[x := old(mem)[x].(e := e)]
      ensures Abs() == old(Abs())[mem[x].keyid := e]
    {
      SetEntryKeeps(mem, hash, freekeys, v, x, e);
      mem := mem[x := mem[x].(e := e)];
    }

    /** free_auth_info for the slot at index `i` of the ring. */
    method FreeSlot(x: int, h: nat, ghost i: nat)
      requires Valid() && i < |v.inUse| && v.inUse[i] == x && 0 <= x < |mem| && h == Bucket(mem[x].keyid, |hash|)
      modifies this`mem, this`hash, this`freekeys, this`numkeys, this`numfree, this`v
      ensures Valid() && |hash| == |old(hash)| && |mem| == |old(mem)|
      ensures Abs() == old(Abs()) - {old(mem)[x].keyid} && v.inUse == Without(old(v.inUse), i)
      ensures forall y :: 0 <= y < |mem| && y != x ==> mem[y].keyid == old(mem)[y].keyid
    {
      ghost var m := Abs();
      SetEntry(x, mem[x].e.(key := NoSecret));
      Recycle(x, h, i);
      SetThenRemove(m, old(mem)[x].keyid, old(mem)[x].e.(key := NoSecret));
    }

    /** The linking part of free_auth_info. */
    method Recycle(x: int, h: nat, ghost i: nat)
      requires Valid() && i < |v.inUse| && v.inUse[i] == x && 0 <= x < |mem| && h == Bucket(mem[x].keyid, |hash|)
      modifies this`mem, this`hash, this`freekeys, this`numkeys, this`numfree, this`v
      ensures Valid() && |hash| == |old(hash)| && |mem| == |old(mem)|
      ensures Abs() == old(Abs()) - {old(mem)[x].keyid} && v.inUse == Without(old(v.inUse), i)
      ensures forall y :: 0 <= y < |mem| && y != x ==> mem[y].keyid == old(mem)[y].keyid
    {
      assert x in Elems(v.inUse);
      var found, prev;
      ghost var j;
      found, prev, j := Predecessor(x, h);
      MoveToFree(x, h, i, j, prev);
      numkeys := numkeys - 1;
      numfree := numfree + 1;
    }

    /** From bucket and ring to the free list. */
    method MoveToFree(x: int, h: nat, ghost i: nat, ghost j: nat, prev: int)
      requires Ok(mem, hash, freekeys, v) && i < |v.inUse| && v.inUse[i] == x && 0 <= x < |mem|
      requires h < |hash| && InBucket(mem, v.chains, x, h, j, prev)
      modifies this`mem, this`hash, this`freekeys, this`v
      ensures Ok(mem, hash, freekeys, v) && |hash| == |old(hash)| && |mem| == |old(mem)|
      ensures ModelOf(mem, v) == old(ModelOf(mem, v)) - {old(mem)[x].keyid}
      ensures v.inUse == Without(old(v.inUse), i) && |v.free| == |old(v.free)| + 1
      ensures forall y :: 0 <= y < |mem| && y != x ==> mem[y].keyid == old(mem)[y].keyid
    {
      ghost var v' := FreeKeeps(mem, hash, freekeys, v, i, h, j, prev);
      Release(x, h, prev);
      v := v';
    }

    /** The writes of free_auth_info once the bucket walk has found the slot. */
    method Release(x: int, h: nat, prev: int)
      requires CanFree(mem, hash, h, prev, x)
      modifies this`mem, this`hash, this`freekeys
      ensures mem == Freed(old(mem), old(hash), h, prev, x, old(freekeys))
      ensures hash == SkipInBucket(old(mem), old(hash), h, prev, x).1 && freekeys == x
    {
      if prev == NULL {
        hash := hash[h := mem[x].hlink];
      } else {
        mem := mem[prev := mem[prev].(hlink := mem[x].hlink)];
      }
      mem := Unlink(mem, x);
      mem := mem[x := mem[x].(keyid := 0, e := ZeroSlot.e)];
      mem := mem[x := mem[x].(f := freekeys)];
      freekeys := x;
    }

    /** What auth_delkeys does with one slot. */
    method PurgeSlot(x: int, ghost j: nat)
      requires Valid() && j < |v.inUse| && v.inUse[j] == x && 0 <= x < |mem|
      modifies this`mem, this`hash, this`freekeys, this`numkeys, this`numfree, this`v
      ensures Valid() && |hash| == |old(hash)| && |mem| == |old(mem)|
      ensures old(mem)[x].e.trusted ==>
                Abs() == old(Abs())[old(mem)[x].keyid := KeySpec.TrustOnly] && v.inUse == old(v.inUse)
      ensures !old(mem)[x].e.trusted ==>
                Abs() == old(Abs()) - {old(mem)[x].keyid} && v.inUse == Without(old(v.inUse), j)
      ensures forall y :: 0 <= y < |mem| && y != x ==> mem[y].keyid == old(mem)[y].keyid
    {
      if mem[x].e.trusted {
        SetEntry(x, Entry(AuthNone, mem[x].e.trusted, NoSecret, 0));
      } else {
        var h := KeyHash(mem[x].keyid);
        FreeSlot(x, h, j);
      }
    }

    /** auth_delkeys: the ring is walked while slots are taken out of it. */
    method DelKeys()
      requires Valid()
      modifies this`mem, this`hash, this`freekeys, this`numkeys, this`numfree, this`v
      ensures Valid() && |hash| == |old(hash)| && |mem| == |old(mem)|
      ensures Abs() == KeySpec.DelKeys(old(Abs()))
    {
      ghost var mem0, v0, s, k, j, done := mem, v, v.inUse, 0, 0, {};
      TailAddresses(mem, s);
      NothingDone(mem0, s, Abs());
      RingNext(mem, freekeys, v, 0);
      var x := mem[HEAD].f;
      while x != HEAD
        invariant 0 <= j <= k <= |s| && j <= |v.inUse| && v.inUse[j..] == s[k..]
        invariant x == if k < |s| then s[k] else HEAD
        invariant Valid() && |hash| == |old(hash)| && |mem| == |mem0|
        invariant KeysFrom(mem0, mem, s, k) && done == KeysBefore(mem0, s, k)
        invariant Abs() == KeySpec.Purged(ModelOf(mem0, v0), done)
        decreases |s| - k
      {
        x, j, done := DelKeysStep(x, mem0, v0, k, j, done);
        k := k + 1;
      }
      AllDone(mem0, v0);
    }

    /** One round of the loop of auth_delkeys: `next` is read before the slot may go. */
    method DelKeysStep(x: int, ghost mem0: Memory, ghost v0: View, ghost k: nat, ghost j: nat, ghost done: set<KeyId>)
      returns (next: int, ghost j': nat, ghost done': set<KeyId>)
      requires Valid() && Named(mem0, v0.inUse, v0.node) && |mem| == |mem0|
      requires j <= k < |v0.inUse| && j <= |v.inUse| && v.inUse[j..] == v0.inUse[k..] && x == v0.inUse[k]
      requires KeysFrom(mem0, mem, v0.inUse, k) && done == KeysBefore(mem0, v0.inUse, k)
      requires Abs() == KeySpec.Purged(ModelOf(mem0, v0), done)
      modifies this`mem, this`hash, this`freekeys, this`numkeys, this`numfree, this`v
      ensures Valid() && |hash| == |old(hash)| && |mem| == |mem0|
      ensures j' <= k + 1 && j' <= |v.inUse| && v.inUse[j'..] == v0.inUse[k + 1..]
      ensures next == if k + 1 < |v0.inUse| then v0.inUse[k + 1] else HEAD
      ensures KeysFrom(mem0, mem, v0.inUse, k + 1) && done' == KeysBefore(mem0, v0.inUse, k + 1)
      ensures Abs() == KeySpec.Purged(ModelOf(mem0, v0), done')
    {
      assert v.inUse[j..][0] == x && |v.inUse[j..]| == |v0.inUse[k..]|;
      RingNext(mem, freekeys, v, j);
      RingNext(mem, freekeys, v, j + 1);
      assert j + 1 < |v.inUse| ==> v.inUse[j..][1] == v0.inUse[k..][1];
      next := mem[x].f;
      ghost var id, before, inUse, trusted := mem[x].keyid, mem, v.inUse, mem[x].e.trusted;
      NotYetDone(mem0, v0, mem, v, k);
      KeySpec.PurgedStep(ModelOf(mem0, v0), done, id);
      PurgeSlot(x, j);
      KeysStep(mem0, before, mem, v0.inUse, k);
      done' := done + {id};
      j' := if trusted then j + 1 else j;
      assert v.inUse[j'..] == inUse[j..][1..];
    }

    /** auth_resize_hashtable. The logarithm that picks the table size is the
        parameter `bits`; the clamp to 4..15 is applied here. */
    method Resize(bits: nat)
      requires Valid()
      modifies this`mem, this`hash, this`v
      ensures Valid() && Abs() == old(Abs()) && |mem| == |old(mem)|
      ensures |hash| == Pow2(if bits < 4 then 4 else if bits > 15 then 15 else bits)
    {
      var hashbits := if bits < 4 then 4 else bits;
      hashbits := if hashbits > 15 then 15 else hashbits;
      var buckets := Pow2(hashbits);
      hash := seq(buckets, _ => NULL);
      v := v.(chains := seq(buckets, _ => []));
      EmptyTable(mem, buckets);
      Populate();
    }

    /** The loop of auth_resize_hashtable, over an empty table. */
    method Populate()
      requires ListsOk(mem, freekeys, v.inUse, v.free) && Named(mem, v.inUse, v.node)
      requires Hashed(mem, hash, v.chains, {}) && IsPow2(|hash|)
      modifies this`mem, this`hash, this`v
      ensures Ok(mem, hash, freekeys, v) && v == old(v).(chains := v.chains)
      ensures |hash| == |old(hash)| && |mem| == |old(mem)| && ModelOf(mem, v) == old(ModelOf(mem, v))
    {
      assert Elems(v.inUse[..0]) == {};
      RingNext(mem, freekeys, v, 0);
      var x := mem[HEAD].f;
      ghost var k := 0;
      while x != HEAD
        invariant 0 <= k <= |v.inUse| && v == old(v).(chains := v.chains) && |hash| == |old(hash)|
        invariant x == if k < |v.inUse| then v.inUse[k] else HEAD
        invariant ListsOk(mem, freekeys, v.inUse, v.free) && Named(mem, v.inUse, v.node)
        invariant Hashed(mem, hash, v.chains, Elems(v.inUse[..k]))
        invariant ModelOf(mem, v) == old(ModelOf(mem, v)) && |mem| == |old(mem)|
        decreases |v.inUse| - k
      {
        x := Rehash(x, k);
        k := k + 1;
      }
      assert v.inUse[..k] == v.inUse;
    }

    /** One round of the loop of auth_resize_hashtable. */
    method Rehash(x: int, ghost k: nat) returns (next: int)
      requires ListsOk(mem, freekeys, v.inUse, v.free) && Named(mem, v.inUse, v.node)
      requires k < |v.inUse| && x == v.inUse[k] && Hashed(mem, hash, v.chains, Elems(v.inUse[..k])) && IsPow2(|hash|)
      modifies this`mem, this`hash, this`v
      ensures next == if k + 1 < |v.inUse| then v.inUse[k + 1] else HEAD
      ensures v == old(v).(chains := v.chains) && |hash| == |old(hash)| && |mem| == |old(mem)|
      ensures ListsOk(mem, freekeys, v.inUse, v.free) && Named(mem, v.inUse, v.node)
      ensures Hashed(mem, hash, v.chains, Elems(v.inUse[..k + 1])) && ModelOf(mem, v) == old(ModelOf(mem, v))
    {
      RingNext(mem, freekeys, v, k);
      RingNext(mem, freekeys, v, k + 1);
      next := mem[x].f;
      var h := KeyHash(mem[x].keyid);
      ghost var v' := RehashStep(mem, hash, freekeys, v, k, h);
      mem := mem[x := mem[x].(hlink := hash[h])];
      hash := hash[h := x];
      v := v';
    }

    /** auth_prealloc */
    method Prealloc(keycount: int, bits: nat)
      requires Valid()
      modifies this`mem, this`hash, this`freekeys, this`numfree, this`v
      ensures Valid() && Abs() == old(Abs())
      ensures numkeys + numfree == if keycount > old(numkeys + numfree) then keycount else old(numkeys + numfree)
    {
      var additional := keycount - (numkeys + numfree);
      if additional > 0 {
        MoreMem(additional);
      }
      Resize(bits);
    }
  }

  lemma SetThenRemove(m: map<KeyId, Entry>, id: KeyId, e: Entry)
    ensures m[id := e] - {id} == m - {id}
  {
  }
}
