/** The key store as its callers see it: a map from key identifiers to entries, and
    what each call does to it. */
module KeySpec {
  import opened KeyMemory

  /** A slot that only remembers that its key is trusted. */
  const TrustOnly := Entry(AuthNone, true, NoSecret, 0)

  /** authtrust */
  function Trust(m: map<KeyId, Entry>, id: KeyId, trust: bool): map<KeyId, Entry> {
    if id in m then m[id := m[id].(trusted := trust)]
    else if trust then m[id := TrustOnly]
    else m
  }

  /** auth_setkey; the size field holds 16 bits. */
  function SetKey(m: map<KeyId, Entry>, id: KeyId, kind: AuthType, key: seq<Byte>): map<KeyId, Entry> {
    m[id := Entry(kind, id in m && m[id].trusted, Secret(key), |key| % 0x1_0000)]
  }

  /** auth_delkeys as far as the keys in `done` go: untrusted ones are dropped, of
      trusted ones only the trust is kept. */
  function Purged(m: map<KeyId, Entry>, done: set<KeyId>): map<KeyId, Entry> {
    map id | id in m && (id !in done || m[id].trusted) :: if id in done then TrustOnly else m[id]
  }

  /** auth_delkeys */
  function DelKeys(m: map<KeyId, Entry>): map<KeyId, Entry> {
    Purged(m, m.Keys)
  }

  /** When authlookup finds a key. */
  predicate Found(m: map<KeyId, Entry>, id: KeyId, needTrust: bool) {
    id in m && m[id].kind != AuthNone && (needTrust ==> m[id].trusted)
  }

  lemma PurgedStep(m: map<KeyId, Entry>, done: set<KeyId>, id: KeyId)
    requires id in m && id !in done
    ensures m[id].trusted ==> Purged(m, done + {id}) == Purged(m, done)[id := TrustOnly]
    ensures !m[id].trusted ==> Purged(m, done + {id}) == Purged(m, done) - {id}
    ensures id in Purged(m, done) && Purged(m, done)[id] == m[id]
  {
  }
}
