# Carmen I18n translation store, modelled in Dafny

This project models `Carmen::I18n::Simple`, the small translation store in
`lib/carmen/i18n.rb`. The store keeps an active locale (default `"en"`), an
ordered list of locale paths, and a cache that is either absent or holds the
deep merge of every document found under those paths as of the last rebuild.
The cache goes stale whenever something changes behind the class's back:
- an in-place change to the live path list (a push is modelled as
  `LocaleStore.PushLocalePath`);
- a write through `cache=` or into a sub-tree that `t` returned;
- a change to the files under a path, which is a different `Loader`.

`LocaleStore.FreshIsInvariant` shows that the class's own operations keep
the cache fresh for a fixed loader. Appending a path,
switching locale and `reset!` all drop the cache. A lookup `t("a.b.c")`
rebuilds the cache only when it is absent. It then splits the key on `.` and
walks the segments through the active locale's tree. A missing key or
locale yields `nil`, not an error. A step into a leaf is modelled as "not
found" too; see "## Left out" for what Ruby does there.

Modules:

- `Wrappers` (`wrappers.dfy`): `Option` and `Result`.
- `Tree` (`tree.dfy`): the document tree `Node<V> = Map(entries) | Leaf(value)`
  and the segment-by-segment walk. "Responds to `merge`" in the source becomes
  "is a `Map`".
- `DottedKey` (`keys.dfy`): `key.split('.')` as Ruby defines it. Trailing empty
  fields are dropped, so `""` and `"a."` split into `[]` and `["a"]`.
- `DeepMerge` (`merge.dfy`): `deep_hash_merge` and its per-key and per-path
  precedence laws.
- `LocaleStore` (`store.dfy`): the store as an immutable record `Simple<V>`.
  Each operation returns the store it leaves behind. `Translate` returns an
  `Outcome`: the store after the read, and either the node found or the
  error. The error is the one that aborted the rebuild, or `NilCache` when
  the paths held no document.

The file loader (`File.exist?`, `Dir[...]`, `YAML.load_file`) is a parameter,
`Loader<V> = Path -> Option<seq<Table<V>>>`. `None` means the path does not
exist.

Two behaviours of the code are worth spelling out:

- **Flat merge.** The code flattens the documents of all paths into one list
  and folds one merge over it (`lib/carmen/i18n.rb:63-75`). Merging per path
  first and then across paths would be a different operation, because deep
  merge is not associative. `DeepMerge.TwoStageMergeDiffers` shows three
  documents where the two differ.
- **No documents.** With no documents at all, `deep_hash_merge([])` returns
  `nil` (Ruby's `inject` on an empty list). The cache therefore stays `nil`,
  and `@cache[@locale]` raises. `DeepHashMerge` returns `None` on an empty
  list. `Translate` then fails with `NilCache` and leaves the store unchanged.

## Model

| member | source | states |
|---|---|---|
| Tree.Step | lib/carmen/i18n.rb:54-56 | A step from `nil` stays `nil`; a step finds a node exactly when the current node is a mapping holding the segment, and then finds that entry |
| Tree.Walk | lib/carmen/i18n.rb:54-56 | A walk from `nil` finds nothing; a walk of one or more segments that finds something started at a mapping |
| Tree.WalkFindsReachedNode | lib/carmen/i18n.rb:54-56 | The left fold over the segments finds node `t` exactly when descending the tree along the segments reaches `t` |
| Tree.WalkFromNothing | lib/carmen/i18n.rb:55 | Once the walk holds `nil`, every later segment leaves it `nil`; no error is raised (a named corollary of `Tree.Walk`'s postcondition) |
| Tree.WalkAppend | lib/carmen/i18n.rb:54-56 | Walking `p + q` equals walking `p` and then walking `q` from where `p` ended |
| Tree.WalkMissingPrefix | lib/carmen/i18n.rb:54-56 | A key path that finds nothing finds nothing when extended by more segments |
| Tree.WalkThroughLeaf | lib/carmen/i18n.rb:54-56 | A walk that meets a leaf before its last segment finds nothing |
| DottedKey.Fields | lib/carmen/i18n.rb:54 | Splitting on `.` gives at least one field, and no field contains `.` |
| DottedKey.JoinFields | lib/carmen/i18n.rb:54 | Joining the fields of a key with `.` gives the key back |
| DottedKey.FieldsJoin | lib/carmen/i18n.rb:54 | Splitting the join of one or more separator-free segments gives exactly those segments |
| DottedKey.Split | lib/carmen/i18n.rb:54 | `key.split('.')` is a prefix of the key's fields whose last segment is non-empty; every dropped field is empty; no segment contains `.` |
| DottedKey.SplitJoin | lib/carmen/i18n.rb:54 | A key written as separator-free segments with a non-empty last segment splits back into those segments |
| DottedKey.SplitPlain | lib/carmen/i18n.rb:54 | A key without `.` is one segment, or none when the key is empty |
| DeepMerge.MergeNodes | lib/carmen/i18n.rb:85-90 | Two mappings merge into a mapping over the union of their keys; any other pair yields the newer value |
| DeepMerge.MergeTables | lib/carmen/i18n.rb:84-91 | The result's keys are the union of both inputs' keys. A key on one side keeps that side's value. A key on both sides gets the recursive merge when both values are mappings, and otherwise the newer value |
| DeepMerge.Inject | lib/carmen/i18n.rb:84-92 | The left fold over a non-empty list has as keys exactly those defined by some document |
| DeepMerge.DeepHashMerge | lib/carmen/i18n.rb:81-93 | An empty list yields `nil`; a one-element list yields its element unchanged; otherwise the keys are those of all documents |
| DeepMerge.InjectSoleDefinition | lib/carmen/i18n.rb:84-85 | A key that only one document defines keeps that document's value in the merge |
| DeepMerge.InjectLastLeafWins | lib/carmen/i18n.rb:88-89 | When the last document defining a key holds a non-mapping there, that value is the merged value |
| DeepMerge.DeepHashMergeKeyPrecedence | lib/carmen/i18n.rb:81-93 | The merged value at a key is the last definition's value, when that is a leaf or when no earlier document defines the key |
| DeepMerge.MergeNodesIdempotent | lib/carmen/i18n.rb:85-90 | Merging a tree with itself gives the tree back |
| DeepMerge.MergeWalkNewerLeafWins | lib/carmen/i18n.rb:85-90 | Along any key path where the newer tree has a leaf, the merged tree has that same leaf |
| DeepMerge.MergeWalkOlderSurvives | lib/carmen/i18n.rb:84-90 | Along a key path the newer tree leaves open, meaning only mappings that stop before the end, the merged tree finds what the older tree finds |
| DeepMerge.PrecedenceExample | lib/carmen/i18n.rb:84-92 | `{x:1,y:2}` then `{y:3,z:4}` merge to `{x:1,y:3,z:4}`; in the reverse order `y` keeps 2 |
| DeepMerge.FlatMergeExample | lib/carmen/i18n.rb:84-92 | Merging `{x:{y:1}}`, `{x:2}`, `{x:{z:3}}` as one list gives `{x:{z:3}}` |
| DeepMerge.NestedMergeExample | lib/carmen/i18n.rb:86-87 | `{x:{y:1}}` then `{x:{z:3}}` merge recursively at `x` into `{x:{y:1,z:3}}` |
| DeepMerge.TwoStageMergeDiffers | lib/carmen/i18n.rb:63-75 | Merging per path and then across paths gives `{x:{y:1,z:3}}` on those documents, which differs from the flat merge the code performs |
| LocaleStore.Initialize | lib/carmen/i18n.rb:16-20 | A new store has the default locale `"en"`, the given paths and no cache |
| LocaleStore.AppendLocalePath | lib/carmen/i18n.rb:22-25 | The cache is absent, the path list is the old list with the path added at the end, and the locale is unchanged |
| LocaleStore.SetLocale | lib/carmen/i18n.rb:30-33 | The cache is absent, the locale is the new one, and the paths are unchanged |
| LocaleStore.Reset | lib/carmen/i18n.rb:45-47 | The cache is absent, and the locale and paths are unchanged |
| LocaleStore.PushLocalePath | lib/carmen/i18n.rb:14 | Pushing onto the live path list adds the path last and keeps the cache and locale as they were |
| LocaleStore.PushedPathNeedsReset | lib/carmen/i18n.rb:40-47 | After a push, reads keep answering from the old cache until `reset!`; after `reset!` the next read reloads every path |
| LocaleStore.FreshIsInvariant | lib/carmen/i18n.rb:16-65 | A new store is fresh (cache absent, or the merge of what the current paths load), and appending a path, switching locale, `reset!` and reads keep it fresh. A successful read on a fresh store answers from the merge of the current paths' documents |
| LocaleStore.LoadHashesForPaths | lib/carmen/i18n.rb:67-76 | Loading fails exactly when some path is missing, naming the first missing path. Otherwise it yields the documents of every path, concatenated in path order |
| LocaleStore.LoadCacheIfNeeded | lib/carmen/i18n.rb:61-65 | A present cache is kept and the loader is not consulted. An absent cache is rebuilt as the merge of all loaded documents. A load failure is passed on |
| LocaleStore.Lookup | lib/carmen/i18n.rb:53-56 | A locale with no entry in the cache finds nothing; a key with no segments (such as `""`) finds the locale's whole tree |
| LocaleStore.LookupFindsReachedNode | lib/carmen/i18n.rb:53-56 | A lookup finds node `n` exactly when the locale has a tree and descending it along the split key reaches `n` |
| LocaleStore.Translate | lib/carmen/i18n.rb:36-57 | Locale and paths are unchanged. A cached store answers from the cache without changes. A failed read leaves the store as it was. A rebuild that loads no documents fails with `NilCache`. A successful read answers from the active locale's tree in the new cache |
| LocaleStore.MutationsForceRebuild | lib/carmen/i18n.rb:22-47 | After appending a path, switching locale or resetting, the next read reloads every registered path, whatever the old cache held |
| LocaleStore.MissingPathFailsRead | lib/carmen/i18n.rb:69-70 | With an absent cache, a registered path that does not exist makes the read fail with `PathNotFound`, and the cache stays absent |
| LocaleStore.FailedReadRepeats | lib/carmen/i18n.rb:61-65 | After a failed read, the next read of any key fails with the same error |
| LocaleStore.RepeatedReadsUseCache | lib/carmen/i18n.rb:61-62 | After a successful read, later reads do not depend on the loader and leave the store unchanged. The same key gives the same result |
| LocaleStore.LocaleSwitchReselects | lib/carmen/i18n.rb:30-33 | Switching locale after a read rebuilds the same merged table and answers from the new locale's tree |
| LocaleStore.LookupOfJoinedKey | lib/carmen/i18n.rb:54-56 | A dotted key built from separator-free segments whose last segment is non-empty looks up the walk of its first segments followed by the walk of the rest |
| LocaleStore.DottedLookupFoundExample | lib/carmen/i18n.rb:51-56 | Under `"en"` in `{en:{greeting:{hello:"Hi"}}}`, `"greeting.hello"` finds `"Hi"` |
| LocaleStore.DottedLookupMissingLeafExample | lib/carmen/i18n.rb:51-56 | In the same table, `"greeting.bye"` finds nothing |
| LocaleStore.DottedLookupMissingBranchExample | lib/carmen/i18n.rb:51-56 | In the same table, `"absent.path"` finds nothing |

## Left out

- File discovery and parsing (`File.exist?`, `Dir[path + '/**/*.yml']`, `YAML.load_file`) are I/O. They are replaced by the `Loader` parameter.
- Loader: every loaded document is a `Table`. Four cases of the Ruby loader are therefore handled in the loader or not at all:
  - A document whose top level is a sequence is spliced into the document list by the recursive `flatten` at `lib/carmen/i18n.rb:75`. An empty sequence drops out. A `Loader` reproduces this by returning the sequence's elements in place of the document.
  - A scalar document, including the `false` an empty file yields, is not modelled. In Ruby it fails in `merge`, or it becomes the whole cache when it is the only document.
  - A YAML syntax error raised by `YAML.load_file` (`lib/carmen/i18n.rb:73`) is not modelled. In Ruby it aborts the read and leaves the cache `nil`, as a missing path does.
  - Keys that YAML parses as integers or booleans (`1:`, `yes:`, `no:`) are not modelled. `Table` keys are always strings. In Ruby `hash[key]` with a string segment never finds such keys (`lib/carmen/i18n.rb:55`).
- Tree.Step: indexing into a leaf finds nothing. This is a deliberate simplification. In Ruby, `hash[key]` on a leaf (`lib/carmen/i18n.rb:55`) depends on the leaf's class. A String leaf returns the matching substring or `nil`. An Integer or Array leaf raises `TypeError`. A `true`, `false` or Float leaf raises `NoMethodError`. For example, with cache `{en: {count: 5}}`, `t("count.x")` raises in Ruby, while the model answers "not found". The model turns all these results and exceptions into "not found".
- Tree.WalkThroughLeaf: states that a walk past a leaf finds nothing. That holds for the model's `Step`, not for Ruby, where the walk can return a substring or raise (see the `Tree.Step` line).
- Translate: reads fail only when the rebuild fails, or with `NilCache` when the paths held no document. The exceptions Ruby raises when a key steps into an Integer, Array, boolean or Float leaf are not modelled (see the `Tree.Step` line).
- Translate: a leaf holding YAML `nil` is found as `Some(Leaf(nil))`. In Ruby it cannot be told apart from a missing key.
- Initialize: the paths are taken as a flat list. Ruby's `flatten` of nested argument arrays is left out.
- The `to_s` conversions of keys and locales are left out. Keys and locales are taken as strings already.
- PushLocalePath: only `<<` on the live path list handed out by `attr_reader :locale_paths` (`lib/carmen/i18n.rb:14`) is modelled. In-place edits through the same reader (`unshift`, `delete`, `clear`, `[]=`) also bypass `reset!` and are not modelled. They would likewise leave a present cache in use until `reset!`.
- The sub-trees that `t` returns share structure with the cache. Mutating one changes later reads. Values are immutable here, so this is not modelled.
- `require 'pp'` is left out. Writes through the public `cache` accessor are left out too: the record's `cache` field can hold any value, which covers them.
- Ruby `Hash` key order is left out. Dafny maps are unordered, and no stated property depends on the order.
- Concurrency is left out. The class is single-threaded and has no synchronisation.
