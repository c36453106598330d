/** Histories of calls. What the store answers is a matter of the last calls about a
    key, whatever else happened to the table in between. */
module KeyHistory {
  import opened KeyMemory
  import opened KeyStore
  import KeySpec

  datatype Call =
    | Trust(id: KeyId, trust: bool)
    | SetKey(id: KeyId, kind: AuthType, key: seq<Byte>)
    | DelKeys
    | Prealloc(keycount: int, bits: nat)

  datatype LastSet = NeverSet | WasSet(kind: AuthType, key: seq<Byte>)

  /** What the last authtrust on a key said; false if there was none. */
  function LastTrust(calls: seq<Call>, id: KeyId): bool {
    if calls == [] then false
    else
      var c := calls[|calls| - 1];
      if c.Trust? && c.id == id then c.trust else LastTrust(calls[..|calls| - 1], id)
  }

  /** The last auth_setkey on a key since the last auth_delkeys. */
  function LastKey(calls: seq<Call>, id: KeyId): LastSet {
    if calls == [] then NeverSet
    else
      var c := calls[|calls| - 1];
      if c.DelKeys? then NeverSet
      else if c.SetKey? && c.id == id then WasSet(c.kind, c.key)
      else LastKey(calls[..|calls| - 1], id)
  }

  /** The map the store stands for after a call. */
  function After(m: map<KeyId, Entry>, c: Call): map<KeyId, Entry> {
    match c
    case Trust(id, trust) => KeySpec.Trust(m, id, trust)
    case SetKey(id, kind, key) => KeySpec.SetKey(m, id, kind, key)
    case DelKeys => KeySpec.DelKeys(m)
    case Prealloc(_, _) => m
  }

  function AfterAll(calls: seq<Call>): map<KeyId, Entry> {
    if calls == [] then map[] else After(AfterAll(calls[..|calls| - 1]), calls[|calls| - 1])
  }

  /** After every history: a key is trusted just when the last authtrust on it said
      so, and it has the type, bytes and size of the last auth_setkey since the last
      auth_delkeys. */
  lemma {:induction false} HistoryDecides(calls: seq<Call>, id: KeyId)
    ensures var m := AfterAll(calls);
            (id in m && m[id].trusted <==> LastTrust(calls, id)) &&
            match LastKey(calls, id) {
              case NeverSet => id in m ==> m[id].kind == AuthNone
              case WasSet(kind, key) =>
                id in m && m[id] == Entry(kind, LastTrust(calls, id), Secret(key), |key| % 0x1_0000)
            }
    decreases |calls|
  {
    if calls != [] {
      HistoryDecides(calls[..|calls| - 1], id);
    }
  }

  /** Makes the calls on a fresh store. */
  method Replay(calls: seq<Call>) returns (s: Store)
    ensures fresh(s) && s.Valid() && s.Abs() == AfterAll(calls)
  {
    s := new Store();
    for i := 0 to |calls|
      invariant fresh(s) && s.Valid() && s.Abs() == AfterAll(calls[..i])
    {
      assert calls[..i + 1][..i] == calls[..i];
      match calls[i]
      case Trust(id, trust) => s.Trust(id, trust);
      case SetKey(id, kind, key) => s.SetKey(id, kind, key);
      case DelKeys => s.DelKeys();
      case Prealloc(keycount, bits) => s.Prealloc(keycount, bits);
    }
    assert calls[..|calls|] == calls;
  }

  /** authlookup after any history finds a key just when its last auth_setkey since
      the last auth_delkeys gave it a real type and it is trusted, if that is asked
      for; it then finds that call's type and bytes. */
  method LookupAfter(calls: seq<Call>, id: KeyId, needTrust: bool) returns (found: bool, e: Entry)
    ensures found <==> LastKey(calls, id).WasSet? && LastKey(calls, id).kind != AuthNone &&
                       (needTrust ==> LastTrust(calls, id))
    ensures found ==> e.kind == LastKey(calls, id).kind && e.key == Secret(LastKey(calls, id).key) &&
                      e.trusted == LastTrust(calls, id)
  {
    var s := Replay(calls);
    HistoryDecides(calls, id);
    var x := s.Lookup(id, needTrust);
    found := x != NULL;
    e := if found then s.mem[x].e else ZeroSlot.e;
  }
}
