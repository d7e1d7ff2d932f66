/**
 * The part of the Redis key-value store that the namespace directory reads:
 * the key space, in the order `KEYS` enumerates it, and the keys that hold
 * sets. The connection pool and the transport are not modelled; a
 * `Connection` stands for the store's contents as one `Sidekiq.redis` block
 * sees them.
 */
module Redis {

  /** No element occurs twice. */
  predicate NoDuplicates<T(==)>(s: seq<T>)
  {
    forall i, j :: 0 <= i < j < |s| ==> s[i] != s[j]
  }

  /** `r` is `s` with some elements left out and the rest kept in order. */
  ghost predicate IsSubsequence<T>(r: seq<T>, s: seq<T>)
    decreases |s|
  {
    r == [] ||
    (s != [] &&
     if r[0] == s[0] then IsSubsequence(r[1..], s[1..]) else IsSubsequence(r, s[1..]))
  }

  /**
   * The keys of `ks` that start with `prefix`, in the order of `ks`: the
   * answer to `KEYS <prefix>*` when `prefix` holds no glob metacharacter
   * (`*`, `?`, `[`, `\`), since the trailing `*` matches any suffix,
   * separators included. `cron_jobs:` holds none.
   */
  function WithPrefix(ks: seq<string>, prefix: string): (r: seq<string>)
    ensures forall k :: k in r <==> k in ks && prefix <= k
    ensures IsSubsequence(r, ks)
    ensures NoDuplicates(ks) ==> NoDuplicates(r)
    decreases |ks|
  {
    if ks == [] then []
    else
      var rest := WithPrefix(ks[1..], prefix);
      if prefix <= ks[0] then
        assert NoDuplicates(ks) ==> NoDuplicates(ks[1..]) && ks[0] !in ks[1..];
        assert ks == [ks[0]] + ks[1..];
        [ks[0]] + rest
      else
        assert rest != [] ==> rest[0] in rest;
        rest
  }

  class Connection {
    /** Every key of the database, in the order `KEYS` enumerates them. */
    var keys: seq<string>
    /** The keys that hold a set, with the set's members. */
    var sets: map<string, set<string>>

    /**
     * A consistent store: a key occurs once, a set is held by an existing
     * key, and Redis removes a set's key when its last member goes.
     */
    ghost predicate Valid()
      reads this
    {
      && NoDuplicates(keys)
      && (forall k :: k in sets ==> k in keys && sets[k] != {})
    }

    /** `KEYS <prefix>*`, for a `prefix` without glob metacharacters. */
    function Keys(prefix: string): (r: seq<string>)
      reads this
      ensures forall k :: k in r <==> k in keys && prefix <= k
      ensures IsSubsequence(r, keys)
      ensures Valid() ==> NoDuplicates(r)
    {
      WithPrefix(keys, prefix)
    }

    /** `SCARD key`: the number of members of the set at `key`, 0 when there is none. */
    function Scard(key: string): (n: nat)
      reads this
      ensures key in sets ==> n == |sets[key]|
      ensures key !in sets ==> n == 0
      ensures Valid() ==> (n == 0 <==> key !in sets)
      ensures Valid() && key !in keys ==> n == 0
    {
      if key in sets then |sets[key]| else 0
    }
  }
}
