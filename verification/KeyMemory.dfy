/** The slots of the key store and the list macros of include/ntp_lists.h that link
    them. Slots live in one memory that only grows, and a pointer is an index into
    it, so that one link field can serve two lists, as `llink.f` does. */
module KeyMemory {

  type Byte = x: int | 0 <= x < 256
  type KeyId = x: int | 0 <= x < 0x1_0000_0000

  datatype AuthType = AuthNone | AuthDigest | AuthCmac | AuthHmac

  /** The secret of a slot; `NoSecret` is a null pointer. */
  datatype Secret = NoSecret | Secret(bytes: seq<Byte>)

  /** What a slot holds besides its links. */
  datatype Entry = Entry(kind: AuthType, trusted: bool, key: Secret, keySize: nat)

  datatype Slot = Slot(hlink: int, f: int, b: int, keyid: KeyId, e: Entry)

  const NULL := -1
  /** The address of the list head of the ring. */
  const HEAD := 0

  const ZeroSlot := Slot(NULL, NULL, NULL, 0, Entry(AuthNone, false, NoSecret, 0))

  type Memory = seq<Slot>

  ghost predicate Addresses(mem: Memory, s: seq<int>) {
    (forall i :: 0 <= i < |s| ==> 0 <= s[i] < |mem|) &&
    (forall i, j :: 0 <= i < j < |s| ==> s[i] != s[j])
  }

  /** Links changed, contents kept. */
  ghost predicate SameContents(mem: Memory, mem': Memory) {
    |mem| == |mem'| && forall x :: 0 <= x < |mem| ==> mem'[x].keyid == mem[x].keyid && mem'[x].e == mem[x].e
  }

  ghost predicate SameHLinks(mem: Memory, mem': Memory) {
    |mem| == |mem'| && forall x :: 0 <= x < |mem| ==> mem'[x].hlink == mem[x].hlink
  }

  // ----- DLIST

  /** `r` is the ring that starts at its list head `r[0]`. */
  ghost predicate Ring(mem: Memory, r: seq<int>) {
    |r| > 0 && Addresses(mem, r) &&
    (forall i {:trigger mem[r[i]].f} :: 0 <= i < |r| - 1 ==> mem[r[i]].f == r[i + 1]) && mem[r[|r| - 1]].f == r[0] &&
    (forall i {:trigger mem[r[i]].b} :: 0 < i < |r| ==> mem[r[i]].b == r[i - 1]) && mem[r[0]].b == r[|r| - 1]
  }

  predicate ValidLinks(mem: Memory, x: int) {
    0 <= x < |mem| && 0 <= mem[x].b < |mem| && 0 <= mem[x].f < |mem|
  }

  /** LINK_TAIL_DLIST, assignment by assignment. */
  function LinkTail(mem: Memory, head: int, x: int): (r: Memory)
    requires 0 <= x < |mem| && ValidLinks(mem, head) && x != head && x != mem[head].b
    ensures SameContents(mem, r) && SameHLinks(mem, r)
    ensures forall y :: 0 <= y < |mem| ==> r[y].f == if y == x then head else if y == mem[head].b then x else mem[y].f
    ensures forall y :: 0 <= y < |mem| ==> r[y].b == if y == x then mem[head].b else if y == head then x else mem[y].b
  {
    var m1 := mem[x := mem[x].(b := mem[head].b)];
    var m2 := m1[x := m1[x].(f := head)];
    var m3 := m2[m2[head].b := m2[m2[head].b].(f := x)];
    m3[head := m3[head].(b := x)]
  }

  lemma LinkTailAppends(mem: Memory, r: seq<int>, x: int)
    requires Ring(mem, r) && 0 <= x < |mem| && x !in r
    ensures Ring(LinkTail(mem, r[0], x), r + [x])
  {
    var mem', s, n := LinkTail(mem, r[0], x), r + [x], |r|;
    forall i | 0 <= i < n ensures mem'[s[i]].f == s[i + 1] {
      assert mem[r[i]].f == if i + 1 < n then r[i + 1] else r[0];
    }
    forall i | 0 < i <= n ensures mem'[s[i]].b == s[i - 1] {
      assert i < n ==> mem[r[i]].b == r[i - 1];
    }
  }

  /** UNLINK_DLIST */
  function Unlink(mem: Memory, x: int): (r: Memory)
    requires ValidLinks(mem, x) && x != mem[x].b
    ensures SameContents(mem, r) && SameHLinks(mem, r)
    ensures forall y :: 0 <= y < |mem| ==> r[y].f == if y == mem[x].b then mem[x].f else mem[y].f
    ensures forall y :: 0 <= y < |mem| ==> r[y].b == if y == mem[x].f then mem[x].b else mem[y].b
  {
    var m1 := mem[mem[x].b := mem[mem[x].b].(f := mem[x].f)];
    m1[m1[x].f := m1[m1[x].f].(b := m1[x].b)]
  }

  function Without(s: seq<int>, i: nat): (r: seq<int>)
    requires i < |s|
    ensures |r| == |s| - 1
    ensures forall j :: 0 <= j < |r| ==> r[j] == if j < i then s[j] else s[j + 1]
  {
    s[..i] + s[i + 1..]
  }

  lemma UnlinkNeighbours(mem: Memory, r: seq<int>, i: nat)
    requires Ring(mem, r) && 0 < i < |r|
    ensures ValidLinks(mem, r[i]) && r[i] != mem[r[i]].b
    ensures mem[r[i]].b == r[i - 1] && mem[r[i]].f == if i + 1 < |r| then r[i + 1] else r[0]
  {
  }

  lemma RingForward(mem: Memory, r: seq<int>, k: nat)
    requires Ring(mem, r) && k < |r|
    ensures 0 <= r[k] < |mem| && mem[r[k]].f == if k + 1 < |r| then r[k + 1] else r[0]
  {
  }

  lemma UnlinkForward(mem: Memory, r: seq<int>, i: nat, j: nat)
    requires Ring(mem, r) && 0 < i < |r| && ValidLinks(mem, r[i]) && r[i] != mem[r[i]].b && j < |r| - 1
    ensures var s, f := Without(r, i), Unlink(mem, r[i])[Without(r, i)[j]].f;
            (j + 1 < |s| ==> f == s[j + 1]) && (j + 1 == |s| ==> f == s[0])
  {
    UnlinkNeighbours(mem, r, i);
    var s := Without(r, i);
    if j + 1 == i {
      assert s[j] == r[i - 1] && Unlink(mem, r[i])[s[j]].f == mem[r[i]].f;
    } else {
      var k := if j < i then j else j + 1;
      RingForward(mem, r, k);
      assert s[j] == r[k] && r[k] != r[i - 1];
      assert Unlink(mem, r[i])[s[j]].f == mem[r[k]].f;
    }
  }

  lemma UnlinkBackward(mem: Memory, r: seq<int>, i: nat, j: nat)
    requires Ring(mem, r) && 0 < i < |r| && ValidLinks(mem, r[i]) && r[i] != mem[r[i]].b && j < |r| - 1
    ensures var s, b := Without(r, i), Unlink(mem, r[i])[Without(r, i)[j]].b;
            (j > 0 ==> b == s[j - 1]) && (j == 0 ==> b == s[|s| - 1])
  {
    UnlinkNeighbours(mem, r, i);
    if j < i {
      assert j > 0 ==> mem[r[j]].b == r[j - 1];
    } else {
      assert mem[r[j + 1]].b == r[j];
    }
  }

  lemma WithoutAddresses(mem: Memory, mem': Memory, r: seq<int>, i: nat)
    requires Addresses(mem, r) && i < |r| && |mem| <= |mem'|
    ensures Addresses(mem', Without(r, i)) && r[i] !in Without(r, i)
  {
  }

  lemma UnlinkRemoves(mem: Memory, r: seq<int>, i: nat)
    requires Ring(mem, r) && 0 < i < |r|
    ensures ValidLinks(mem, r[i]) && r[i] != mem[r[i]].b
    ensures Ring(Unlink(mem, r[i]), Without(r, i))
  {
    UnlinkNeighbours(mem, r, i);
    var s, mem' := Without(r, i), Unlink(mem, r[i]);
    WithoutAddresses(mem, mem', r, i);
    forall j {:trigger mem'[s[j]].f} | 0 <= j < |s| - 1 ensures mem'[s[j]].f == s[j + 1] {
      UnlinkForward(mem, r, i, j);
    }
    forall j {:trigger mem'[s[j]].b} | 0 < j < |s| ensures mem'[s[j]].b == s[j - 1] {
      UnlinkBackward(mem, r, i, j);
    }
    UnlinkForward(mem, r, i, |s| - 1);
    UnlinkBackward(mem, r, i, 0);
  }

  // ----- SLIST

  /** `c` is the list that starts at `p` and follows `hlink`. */
  ghost predicate HChain(mem: Memory, p: int, c: seq<int>) {
    Addresses(mem, c) &&
    (c == [] ==> p == NULL) && (c != [] ==> p == c[0] && mem[c[|c| - 1]].hlink == NULL) &&
    forall i {:trigger mem[c[i]].hlink} :: 0 <= i < |c| - 1 ==> mem[c[i]].hlink == c[i + 1]
  }

  /** `c` is the list that starts at `p` and follows `f`. */
  ghost predicate FChain(mem: Memory, p: int, c: seq<int>) {
    Addresses(mem, c) &&
    (c == [] ==> p == NULL) && (c != [] ==> p == c[0] && mem[c[|c| - 1]].f == NULL) &&
    forall i {:trigger mem[c[i]].f} :: 0 <= i < |c| - 1 ==> mem[c[i]].f == c[i + 1]
  }

  /** A list keeps its shape as long as its own links do. */
  lemma HChainFrame(mem: Memory, mem': Memory, p: int, c: seq<int>)
    requires HChain(mem, p, c) && |mem| <= |mem'|
    requires forall x :: x in c ==> mem'[x].hlink == mem[x].hlink
    ensures HChain(mem', p, c)
  {
  }

  lemma FChainFrame(mem: Memory, mem': Memory, p: int, c: seq<int>)
    requires FChain(mem, p, c) && |mem| <= |mem'|
    requires forall x :: x in c ==> mem'[x].f == mem[x].f
    ensures FChain(mem', p, c)
  {
  }

  lemma FChainTail(mem: Memory, p: int, c: seq<int>)
    requires FChain(mem, p, c) && c != []
    ensures FChain(mem, mem[p].f, c[1..])
  {
  }

  lemma PushAddresses(mem: Memory, c: seq<int>, x: int, mem': Memory)
    requires Addresses(mem, c) && 0 <= x < |mem| == |mem'| && x !in c
    ensures Addresses(mem', [x] + c)
  {
    var d := [x] + c;
    forall i, j | 0 <= i < j < |d| ensures d[i] != d[j] {
      assert d[j] == c[j - 1] && d[j] in c;
      if i > 0 { assert d[i] == c[i - 1]; }
    }
  }

  lemma FChainPush(mem: Memory, p: int, c: seq<int>, x: int)
    requires FChain(mem, p, c) && 0 <= x < |mem| && x !in c
    ensures FChain(mem[x := mem[x].(f := p)], x, [x] + c)
  {
    var m, d := mem[x := mem[x].(f := p)], [x] + c;
    PushAddresses(mem, c, x, m);
    forall i {:trigger m[d[i]].f} | 0 <= i < |d| - 1 ensures m[d[i]].f == d[i + 1] {
      if i > 0 { assert d[i] == c[i - 1] && d[i] in c && mem[c[i - 1]].f == c[i]; }
    }
    if c != [] { assert d[|d| - 1] == c[|c| - 1] && c[|c| - 1] in c; }
  }

  lemma HChainPush(mem: Memory, p: int, c: seq<int>, x: int)
    requires HChain(mem, p, c) && 0 <= x < |mem| && x !in c
    ensures HChain(mem[x := mem[x].(hlink := p)], x, [x] + c)
  {
    var m, d := mem[x := mem[x].(hlink := p)], [x] + c;
    PushAddresses(mem, c, x, m);
    forall i {:trigger m[d[i]].hlink} | 0 <= i < |d| - 1 ensures m[d[i]].hlink == d[i + 1] {
      if i > 0 { assert d[i] == c[i - 1] && d[i] in c && mem[c[i - 1]].hlink == c[i]; }
    }
    if c != [] { assert d[|d| - 1] == c[|c| - 1] && c[|c| - 1] in c; }
  }
}
