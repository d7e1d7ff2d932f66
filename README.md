# sidekiq-cron namespace directory in Dafny

sidekiq-cron keeps its periodically scheduled jobs in Redis and groups them
into namespaces. A namespace has no record of its own. It exists as the Redis
set `cron_jobs:<namespace>`, which holds the names of the namespace's jobs. The
class `Sidekiq::Cron::Namespace` is the directory of these namespaces:

- `Namespace.all` enumerates the keys matching `cron_jobs:*` and turns each
  key into a name with `key.split(':').last`. It then appends the configured
  default namespace if no derived name equals it.
- `Namespace.count(name = default)` is `SCARD cron_jobs:<name>`.
- `Namespace.all_with_count` pairs every name of `all`, in order, with its
  count. The web pages list namespaces through it.

The project models that class. The parts are:

- `wrappers.dfy`, module `Wrappers`: `Option`, used for the optional argument of `count`.
- `ruby_string.dfy`, module `RubyString`: Ruby's `String#split` with a
  one-character separator other than a space (with `' '` Ruby splits on runs
  of whitespace, which is not modelled; the code splits on `:`). It cuts the
  string at every separator into `Fields` and then drops the trailing empty
  fields, so `"cron_jobs:"` splits to `["cron_jobs"]`. `Join` is the inverse of `Fields`.
- `redis.dfy`, module `Redis`: the store as one `Sidekiq.redis` block sees it.
  A class `Connection` holds the key space `keys`, in the order `KEYS`
  enumerates it, and the set-valued keys `sets`. `Keys(prefix)` answers
  `KEYS <prefix>*` for a prefix without glob metacharacters (`*`, `?`, `[`,
  `\`); the trailing `*` matches any suffix, `:` included, so a match is a
  prefix match. The only prefix used, `cron_jobs:`, has no metacharacter.
  `Scard(key)` answers `SCARD`, which is 0 for a missing key.
- `namespace.dfy`, module `Namespace`: the three methods `All`, `Count` and
  `AllWithCount`, the specification function `Directory` that `All` is proved
  against, and the lemmas about it. The configured default namespace is a
  `Configuration` parameter. None of the three methods has a `modifies`
  clause, so Dafny checks that they leave the store unchanged.

A namespace listing reads naturally as a set without repeats. `all` instead
returns an array in key order that may repeat a name: the keys
`cron_jobs:a:b` and `cron_jobs:b` both yield `b`. The model follows the code.
`DirectoryNoDuplicates` shows that repeats cannot occur when the key space has
no repeated key and every key matching `cron_jobs:*` is `cron_jobs:` followed
by a non-empty name without `:`. That is an assumption of the lemma. The code
does not enforce it: `count` builds `cron_jobs:<name>` for any name.

## Model

| member | source | states |
|---|---|---|
| `Namespace.All` | lib/sidekiq/cron/namespace.rb:8-27 | The result is `Directory` of the keys `KEYS cron_jobs:*` returns, and it contains the default namespace. The method has no `modifies` clause, so the store is unchanged afterwards. |
| `Namespace.Directory` | lib/sidekiq/cron/namespace.rb:12-26 | The default namespace is always in the result. Entry i is the name of the i-th enumerated key, in enumeration order. The length is the number of keys, plus one exactly when no key yields the default. The appended default comes last. |
| `Namespace.NameOf` | lib/sidekiq/cron/namespace.rb:13 | `key.split(':').last` of a matching key is defined. It is non-empty, contains no `:`, and is the last non-empty `:`-field of the key. |
| `Namespace.SetKey` | lib/sidekiq/cron/namespace.rb:48 | The interpolation `"cron_jobs:#{name}"`: the key matches `cron_jobs:*` and its suffix after the prefix is the name. That it is the inverse of `NameOf` is stated by `NameOfSetKey` and `SetKeyOfName`. |
| `Namespace.DerivedNames` | lib/sidekiq/cron/namespace.rb:12-14 | The `collect`: one name per enumerated key, in key order; entry i is the name key i yields, and every entry is non-empty and free of `:`. How it enters `all` is stated by `Directory`. |
| `Namespace.Count` | lib/sidekiq/cron/namespace.rb:45-51 | With no argument it returns the size of the default namespace's set. With a name it returns the size of the set at `cron_jobs:<name>`, which is 0 when that key is absent. It only reads the store. |
| `Namespace.AllWithCount` | lib/sidekiq/cron/namespace.rb:29-43 | The result has one entry per name of `all`, in the same order. Entry i carries the i-th name and the size of the set at `cron_jobs:<name>`. It only reads the store. |
| `Namespace.NameOfSetKey` | lib/sidekiq/cron/namespace.rb:12-14 | Take a name that is non-empty and has no `:`. Its set key `cron_jobs:<name>` (the key `count` reads) yields that name back. |
| `Namespace.SetKeyOfName` | lib/sidekiq/cron/namespace.rb:45-51 | Take a set key whose suffix is a name without `:`. The key that `count` builds from the derived name is that set key again. |
| `Namespace.NameOfBareSetKey` | lib/sidekiq/cron/namespace.rb:13 | The key `cron_jobs:` yields the name `cron_jobs`, because Ruby drops the trailing empty field. |
| `Namespace.NameOfNestedKey` | lib/sidekiq/cron/namespace.rb:13 | The key `cron_jobs:a:b` yields only its final segment, `b`. |
| `Namespace.DirectoryMembers` | lib/sidekiq/cron/namespace.rb:12-24 | A name is listed if and only if it is the default namespace or the name that some enumerated key yields. |
| `Namespace.DefaultNotRepeated` | lib/sidekiq/cron/namespace.rb:17-24 | When some key yields the default, the result is the derived names alone, with nothing appended. The default occurs exactly once when no key yields it. Otherwise it occurs as often as keys yield it. |
| `Namespace.DirectoryNoDuplicates` | lib/sidekiq/cron/namespace.rb:12-26 | Take distinct keys whose suffixes are names without `:`. Every namespace is then listed exactly once. |
| `Namespace.ListedIffSetKeyExists` | lib/sidekiq/cron/namespace.rb:11-24 | Take a store whose set keys are well-formed. A namespace is listed if and only if it is the default or its set key exists. |
| `Namespace.CountsFollowKeys` | lib/sidekiq/cron/namespace.rb:29-51 | Take a consistent store with well-formed set keys. The count beside a derived name is the size of the set whose key produced the name. An appended default has count 0. |
| `Redis.WithPrefix` | lib/sidekiq/cron/namespace.rb:12 | `KEYS cron_jobs:*` returns exactly the keys with that prefix. They keep the store's enumeration order, and no key repeats when the key space has no repeats. |
| `Redis.Connection.Keys` | lib/sidekiq/cron/namespace.rb:12 | The keys of the connection's key space matching the prefix, in enumeration order. They are distinct in a consistent store. |
| `Redis.Connection.Scard` | lib/sidekiq/cron/namespace.rb:48 | The size of the set at the key, and 0 when no set is stored there. In a consistent store it is 0 exactly when no set is stored there, and 0 for a missing key. A key holding another type is under Left out. |
| `RubyString.Fields` | lib/sidekiq/cron/namespace.rb:13 | There is at least one field and no field contains the separator. A string that does not start with the separator has a non-empty first field. |
| `RubyString.DropTrailingEmpty` | lib/sidekiq/cron/namespace.rb:13 | The result is a prefix of the fields that ends in a non-empty field (or is empty). Only empty fields were dropped. |
| `RubyString.Split` | lib/sidekiq/cron/namespace.rb:13 | Ruby's `split` keeps the fields up to the last non-empty one. It is non-empty for a string that does not start with the separator. |
| `RubyString.JoinFields` | lib/sidekiq/cron/namespace.rb:13 | Joining the fields of a string with the separator gives the string back. |
| `RubyString.FieldsOfJoin` | lib/sidekiq/cron/namespace.rb:13 | Splitting a join of separator-free fields gives the fields back. |
| `RubyString.FieldsOfWord` | lib/sidekiq/cron/namespace.rb:13 | A string without the separator is a single field. |
| `RubyString.FieldsAfterWord` | lib/sidekiq/cron/namespace.rb:13 | Cutting at the first separator splits off the word before it as the first field. |

## Left out

- The Redis connection pool, the transport and its errors (`Sidekiq.redis do |conn|`) are not modelled. A `Connection` is a snapshot of the key space and the sets.
- A key matching `cron_jobs:*` may hold something other than a set (`keys` may list a key that `sets` lacks). Redis's `SCARD` raises WRONGTYPE on it, so `all_with_count` raises; the model's `Scard` answers 0 instead.
- The order in which `KEYS` enumerates is unspecified in Redis. The model takes it as the order of `Connection.keys`.
- `all_with_count` opens a second `Sidekiq.redis` block around each `count` call, and its `conn` is unused. The model reads every count from the same connection. Staleness between the listing and the counts under concurrent writers is not modelled.
- The configuration object `Sidekiq::Cron.configuration` is not part of this model. Its default namespace is the `Configuration` parameter.
- `lib/sidekiq/cron/web_extension.rb` (HTTP routes, view selection, locales, redirects) is not modelled. Neither are the `Sidekiq::Cron::Job` operations it calls (`find`, `all`, `enable!`, `disable!`, `enque!`, `destroy`): their source is not part of this model.
- `test/unit/web_extension_test.rb` exercises the web layer only and is not modelled.
