/**
  The item cache `g_itemCache`: a map from key bytes to stored bytes, where
  every stored value is the 4 flag bytes followed by the client's value.
  Each get or put is one atomic step; the mutex that makes it so in the
  source has no sequential content.
 */
module ItemStore {
  import opened Bytes
  import opened Wrappers

  type Key = seq<Byte>
  type Value = seq<Byte>
  type Store = map<Key, Value>

  /** `find`: the stored bytes of a key, if the key was ever put. */
  function Get(s: Store, k: Key): (r: Option<Value>)
    ensures r.Some? <==> k in s
    ensures r.Some? ==> r.value == s[k]
  {
    if k in s then Some(s[k]) else None
  }

  /** `g_itemCache[k] = v`: inserts the key or fully replaces its previous value. */
  function Put(s: Store, k: Key, v: Value): (s': Store)
    ensures s'.Keys == s.Keys + {k}
    ensures s'[k] == v
    ensures forall k' :: k' in s && k' != k ==> s'[k'] == s[k']
  {
    s[k := v]
  }

  /** Every stored value starts with its 4 flag bytes. */
  ghost predicate FlagsPrefixed(s: Store)
  {
    forall k :: k in s ==> |s[k]| >= 4
  }

  /** A put is read back exactly. */
  lemma LemmaGetAfterPut(s: Store, k: Key, v: Value)
    ensures Get(Put(s, k, v), k) == Some(v)
  {
  }

  /** A put leaves every other key's answer as it was. */
  lemma LemmaGetOtherAfterPut(s: Store, k: Key, v: Value, k': Key)
    requires k' != k
    ensures Get(Put(s, k, v), k') == Get(s, k')
  {
  }

  /** A second put of a key replaces the first entirely: nothing of the old value is merged. */
  lemma LemmaPutOverwrites(s: Store, k: Key, v1: Value, v2: Value)
    ensures Put(Put(s, k, v1), k, v2) == Put(s, k, v2)
  {
  }

  /** Puts of distinct keys commute, so each one stays retrievable whatever their order. */
  lemma LemmaPutsCommute(s: Store, k1: Key, v1: Value, k2: Key, v2: Value)
    requires k1 != k2
    ensures Put(Put(s, k1, v1), k2, v2) == Put(Put(s, k2, v2), k1, v1)
  {
  }

  /** Putting a flag-prefixed value keeps every stored value flag-prefixed. */
  lemma LemmaPutKeepsFlagsPrefixed(s: Store, k: Key, v: Value)
    requires FlagsPrefixed(s) && |v| >= 4
    ensures FlagsPrefixed(Put(s, k, v))
  {
  }
}
