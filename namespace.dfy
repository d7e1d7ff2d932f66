/**
 * `Sidekiq::Cron::Namespace`: the directory of cron-job namespaces.
 *
 * A namespace exists as the Redis set `cron_jobs:<namespace>` holding the
 * names of its jobs. `All` lists the namespaces found from those keys plus
 * the configured default namespace, `Count` reads one set's cardinality and
 * `AllWithCount` pairs every listed name with its count. None of the three
 * methods has a `modifies` clause: they only read the store.
 */
module Namespace {
  import opened Wrappers
  import opened RubyString
  import opened Redis

  /** `Sidekiq::Cron.configuration`, reduced to the setting the directory reads. */
  datatype Configuration = Configuration(defaultNamespace: string)

  /** One row of `all_with_count`: the hash `{ name: ..., count: ... }`. */
  datatype NamespaceCount = NamespaceCount(name: string, count: nat)

  const KeySeparator: char := ':'

  /** The membership set of namespace `n` is stored at `cron_jobs:<n>`. */
  const SetKeyPrefix: string := "cron_jobs:"

  /** A key the glob `cron_jobs:*` matches. */
  predicate MatchesSetKeyGlob(key: string)
  {
    SetKeyPrefix <= key
  }

  /** A namespace name that can be used as a key component. */
  predicate IsName(name: string)
  {
    name != "" && KeySeparator !in name
  }

  /** `"cron_jobs:#{name}"`, the key `count` reads. */
  function SetKey(name: string): (key: string)
    ensures MatchesSetKeyGlob(key)
    ensures key[|SetKeyPrefix|..] == name
  {
    SetKeyPrefix + name
  }

  /** Every matching key is `cron_jobs:` followed by a namespace name. */
  ghost predicate SetKeysWellFormed(keys: seq<string>)
  {
    forall k :: k in keys && MatchesSetKeyGlob(k) ==> IsName(k[|SetKeyPrefix|..])
  }

  /**
   * `key.split(':').last`: the last non-empty `:`-separated field of the key.
   * For a matching key the first field is `cron_jobs`, so there always is one.
   */
  function NameOf(key: string): (name: string)
    requires MatchesSetKeyGlob(key)
    ensures IsName(name)
    ensures exists j :: LastNonEmptyAt(Fields(key, KeySeparator), j) && Fields(key, KeySeparator)[j] == name
  {
    assert key[0] == SetKeyPrefix[0];
    var parts := Split(key, KeySeparator);
    parts[|parts| - 1]
  }

  /** The `collect` of `all`: one name per enumerated key, in key order. */
  function DerivedNames(keys: seq<string>): (names: seq<string>)
    requires forall k :: k in keys ==> MatchesSetKeyGlob(k)
    ensures |names| == |keys|
    ensures forall i :: 0 <= i < |keys| ==> names[i] == NameOf(keys[i]) && IsName(names[i])
  {
    seq(|keys|, i requires 0 <= i < |keys| => NameOf(keys[i]))
  }

  /**
   * What `all` returns for the enumerated keys `keys`: the derived names,
   * followed by the default namespace when no derived name equals it.
   */
  function Directory(keys: seq<string>, default: string): (names: seq<string>)
    requires forall k :: k in keys ==> MatchesSetKeyGlob(k)
    ensures default in names
    ensures |names| == |keys| + (if default in DerivedNames(keys) then 0 else 1)
    ensures forall i :: 0 <= i < |keys| ==> names[i] == NameOf(keys[i])
    ensures |names| > |keys| ==> names[|keys|] == default
  {
    var derived := DerivedNames(keys);
    if default in derived then derived else derived + [default]
  }

  /** `Namespace.all`. */
  method All(conn: Connection, config: Configuration) returns (namespaces: seq<string>)
    ensures namespaces == Directory(conn.Keys(SetKeyPrefix), config.defaultNamespace)
    ensures config.defaultNamespace in namespaces
  {
    var keys := conn.Keys(SetKeyPrefix);
    namespaces := DerivedNames(keys);
    var hasDefault := config.defaultNamespace in namespaces;
    if !hasDefault {
      namespaces := namespaces + [config.defaultNamespace];
    }
  }

  /** `Namespace.count(name = default_namespace)`; `None` is the omitted argument. */
  method Count(conn: Connection, name: Option<string>, config: Configuration) returns (out: nat)
    ensures name.None? ==> out == conn.Scard(SetKey(config.defaultNamespace))
    ensures name.Some? ==> out == conn.Scard(SetKey(name.value))
  {
    out := 0;
    out := conn.Scard(SetKey(name.GetOr(config.defaultNamespace)));
  }

  /** `Namespace.all_with_count`: every name of `all`, in order, with its count. */
  method AllWithCount(conn: Connection, config: Configuration) returns (namespaces: seq<NamespaceCount>)
    ensures var names := Directory(conn.Keys(SetKeyPrefix), config.defaultNamespace);
      && |namespaces| == |names|
      && forall i :: 0 <= i < |names| ==>
           namespaces[i].name == names[i] && namespaces[i].count == conn.Scard(SetKey(names[i]))
  {
    var names := All(conn, config);
    namespaces := [];
    for i := 0 to |names|
      invariant |namespaces| == i
      invariant forall j :: 0 <= j < i ==>
                  namespaces[j].name == names[j] && namespaces[j].count == conn.Scard(SetKey(names[j]))
    {
      var count := Count(conn, Some(names[i]), config);
      namespaces := namespaces + [NamespaceCount(names[i], count)];
    }
  }

  // ---------------------------------------------------------------------
  // Key <-> name

  /** A namespace's set key yields the namespace's name back. */
  lemma NameOfSetKey(name: string)
    requires IsName(name)
    ensures NameOf(SetKey(name)) == name
  {
    FieldsAfterWord("cron_jobs", KeySeparator, name);
    assert SetKey(name) == "cron_jobs" + [KeySeparator] + name;
    FieldsOfWord(name, KeySeparator);
  }

  /** A well-formed set key is the set key of the name it yields. */
  lemma SetKeyOfName(key: string)
    requires MatchesSetKeyGlob(key) && IsName(key[|SetKeyPrefix|..])
    ensures SetKey(NameOf(key)) == key
  {
    var name := key[|SetKeyPrefix|..];
    assert key == SetKey(name);
    NameOfSetKey(name);
  }

  /** The key `cron_jobs:` yields `cron_jobs`, since Ruby drops the trailing empty field. */
  lemma NameOfBareSetKey()
    ensures NameOf("cron_jobs:") == "cron_jobs"
  {
    FieldsAfterWord("cron_jobs", KeySeparator, "");
    assert "cron_jobs:" == "cron_jobs" + [KeySeparator] + "";
  }

  /** A key with more separators yields only its final segment. */
  lemma NameOfNestedKey()
    ensures NameOf("cron_jobs:a:b") == "b"
  {
    FieldsAfterWord("a", KeySeparator, "b");
    FieldsOfWord("b", KeySeparator);
    FieldsAfterWord("cron_jobs", KeySeparator, "a:b");
    assert "a:b" == "a" + [KeySeparator] + "b";
    assert "cron_jobs:a:b" == "cron_jobs" + [KeySeparator] + "a:b";
  }

  // ---------------------------------------------------------------------
  // Properties of the directory

  /** A listed name is the default namespace or the name some enumerated key yields, and conversely. */
  lemma DirectoryMembers(keys: seq<string>, default: string, name: string)
    requires forall k :: k in keys ==> MatchesSetKeyGlob(k)
    ensures name in Directory(keys, default) <==>
              name == default || exists k :: k in keys && NameOf(k) == name
  {
  }

  /**
   * The default is appended only when no key yields it: it then occurs
   * exactly once, and otherwise as often as keys yield it.
   */
  lemma DefaultNotRepeated(keys: seq<string>, default: string)
    requires forall k :: k in keys ==> MatchesSetKeyGlob(k)
    ensures (exists k :: k in keys && NameOf(k) == default) ==> Directory(keys, default) == DerivedNames(keys)
    ensures multiset(Directory(keys, default))[default] ==
              if default in DerivedNames(keys) then multiset(DerivedNames(keys))[default] else 1
  {
  }

  /** Over distinct, well-formed keys every namespace is listed once. */
  lemma DirectoryNoDuplicates(keys: seq<string>, default: string)
    requires forall k :: k in keys ==> MatchesSetKeyGlob(k)
    requires NoDuplicates(keys) && SetKeysWellFormed(keys)
    ensures NoDuplicates(Directory(keys, default))
  {
    var names := Directory(keys, default);
    forall i, j | 0 <= i < j < |names|
      ensures names[i] != names[j]
    {
      if j < |keys| {
        assert keys[i] in keys && keys[j] in keys;
        SetKeyOfName(keys[i]);
        SetKeyOfName(keys[j]);
      } else {
        assert names[i] in DerivedNames(keys);
      }
    }
  }

  /**
   * Over a store whose set keys are well-formed, a namespace is listed
   * exactly when it is the default or its set key exists.
   */
  lemma ListedIffSetKeyExists(conn: Connection, default: string, name: string)
    requires SetKeysWellFormed(conn.keys)
    ensures name in Directory(conn.Keys(SetKeyPrefix), default) <==>
              name == default || SetKey(name) in conn.keys
  {
    var keys := conn.Keys(SetKeyPrefix);
    DirectoryMembers(keys, default, name);
    if name != default && name in Directory(keys, default) {
      var k :| k in keys && NameOf(k) == name;
      SetKeyOfName(k);
    }
    if SetKey(name) in conn.keys {
      var k := SetKey(name);
      assert k in keys;
      assert k[|SetKeyPrefix|..] == name;
      NameOfSetKey(name);
    }
  }

  /**
   * Over a store whose set keys are well-formed, the count paired with a
   * derived name is the size of the set whose key produced that name, and
   * an appended default has count 0.
   */
  lemma CountsFollowKeys(conn: Connection, default: string)
    requires conn.Valid() && SetKeysWellFormed(conn.keys)
    ensures var keys := conn.Keys(SetKeyPrefix);
      var names := Directory(keys, default);
      && (forall i :: 0 <= i < |keys| ==> conn.Scard(SetKey(names[i])) == conn.Scard(keys[i]))
      && (|names| > |keys| ==> conn.Scard(SetKey(default)) == 0)
  {
    var keys := conn.Keys(SetKeyPrefix);
    var names := Directory(keys, default);
    forall i | 0 <= i < |keys|
      ensures conn.Scard(SetKey(names[i])) == conn.Scard(keys[i])
    {
      assert keys[i] in keys;
      SetKeyOfName(keys[i]);
    }
    if |names| > |keys| {
      ListedIffSetKeyExists(conn, default, default);
      if SetKey(default) in conn.keys {
        DirectoryMembers(keys, default, default);
        assert SetKey(default) in keys;
        assert SetKey(default)[|SetKeyPrefix|..] == default;
        NameOfSetKey(default);
      }
    }
  }
}
