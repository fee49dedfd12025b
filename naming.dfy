/**
 * The naming convention shared by the mapping file and the key prefixer:
 * a top-level key is already converted when it starts with `vault_`.
 */
module Naming {
  import opened Text

  const Prefix: string := "vault_"

  predicate IsPrefixed(key: string) {
    StartsWith(key, Prefix)
  }

  /** The name a top-level key carries in the vault file once it is converted. */
  function Prefixed(key: string): (name: string)
    ensures IsPrefixed(name)
    ensures IsPrefixed(key) ==> name == key
    ensures !IsPrefixed(key) ==> name[|Prefix|..] == key
  {
    if IsPrefixed(key) then key else Prefix + key
  }

  /** The logical name of a key, without the convention's prefix. */
  function Unprefixed(key: string): (name: string)
    ensures Prefixed(key) == Prefix + name
  {
    if IsPrefixed(key) then key[|Prefix|..] else key
  }

  /** Converting a key twice is converting it once. */
  lemma PrefixedIdempotent(key: string)
    ensures Prefixed(Prefixed(key)) == Prefixed(key)
  {
  }

  /** A key and its converted form have the same logical name. */
  lemma {:induction false} UnprefixedStable(key: string)
    ensures Unprefixed(Prefixed(key)) == Unprefixed(key)
  {
    if !IsPrefixed(key) {
      assert (Prefix + key)[|Prefix|..] == key;
    }
  }
}
