/**
 * key.cpp: `get_key`, the lookup of a sender's HMAC key in the key map, first
 * under the whole address and then under `@domain`. An empty key is an
 * explicit "no key" entry.
 */
module Keys {
  import opened Wrappers
  import opened Ascii
  import opened Util

  /** `Key_map`: address or `@domain` to key bytes. */
  type KeyMap = map<string, Bytes>

  /** The domain lookup string: from the first `@` (included) to the end, if there is an `@`. */
  function DomainKey(addr: string): (d: Option<string>)
    ensures d.None? <==> '@' !in addr
    ensures d.Some? ==> exists i | 0 <= i < |addr| :: addr[i] == '@' && '@' !in addr[..i] && d.value == addr[i..]
  {
    match FindFirst(addr, '@')
    case None => None
    case Some(i) =>
      assert addr[i] == '@' && '@' !in addr[..i];
      Some(addr[i..])
  }

  /** A found entry: an empty key reads as no key. */
  function NonEmpty(k: Bytes): (r: Option<Bytes>)
    ensures r.Some? <==> k != []
    ensures r.Some? ==> r.value == k
  {
    if k != [] then Some(k) else None
  }

  /** `get_key(keys, sender_address)`. */
  function GetKey(keys: KeyMap, addr: string): (r: Option<Bytes>)
    ensures r.Some? ==> r.value != []
    ensures addr in keys ==> (r.Some? <==> keys[addr] != []) && (r.Some? ==> r.value == keys[addr])
    ensures addr !in keys && '@' !in addr ==> r.None?
    ensures r.Some? ==> r.value in keys.Values
  {
    if addr in keys then NonEmpty(keys[addr])
    else
      match DomainKey(addr)
      case None => None
      case Some(d) => if d in keys then NonEmpty(keys[d]) else None
  }

  /** Without an exact entry, the `@domain` entry decides, with the same empty-means-none rule. */
  lemma DomainFallback(keys: KeyMap, local: string, domain: string)
    requires '@' !in local
    requires local + "@" + domain !in keys
    ensures var d := "@" + domain;
      GetKey(keys, local + "@" + domain) == (if d in keys && keys[d] != [] then Some(keys[d]) else None)
  {
    var addr := local + "@" + domain;
    assert addr[|local|] == '@';
    assert addr[|local|..] == "@" + domain;
    assert addr[..|local|] == local;
  }

  /** An exact entry shadows whatever is stored under any other name. */
  lemma ExactEntryShadows(keys: KeyMap, addr: string, other: string, k: Bytes)
    requires addr in keys && other != addr
    ensures GetKey(keys[other := k], addr) == GetKey(keys, addr)
  {
  }

  /** A key is only ever found under the address itself or under the `@`-suffix. */
  lemma FoundUnderAddressOrDomain(keys: KeyMap, addr: string)
    requires GetKey(keys, addr).Some?
    ensures (addr in keys && keys[addr] == GetKey(keys, addr).value)
         || (addr !in keys && DomainKey(addr).Some? && DomainKey(addr).value in keys
             && keys[DomainKey(addr).value] == GetKey(keys, addr).value)
  {
  }
}
