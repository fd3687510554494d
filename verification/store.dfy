/**
 * The translation store (`Carmen::I18n::Simple`): an active locale, an
 * ordered list of locale paths, and a cache of the merged documents that is
 * either absent (stale) or holds the merge of everything the paths provide.
 * The store is a value; each operation returns the store it leaves behind.
 */
module LocaleStore {
  import opened Wrappers
  import opened Tree
  import opened DeepMerge
  import DottedKey

  /** An opaque locale path (a directory of YAML files in Carmen). */
  type Path = string

  const DefaultLocale: string := "en"

  /** The document loader: the documents found under a path, in order, or
      `None` when the path does not exist. */
  type Loader<V> = Path -> Option<seq<Table<V>>>

  datatype Error =
      /** A registered path does not exist; the rebuild is abandoned. */
      PathNotFound(path: Path)
    | /** The paths provided no document, so the merge left the cache `nil`
          and indexing it by the locale failed. */
      NilCache

  datatype Simple<V> = Simple(locale: string, localePaths: seq<Path>, cache: Option<Table<V>>)

  /** What a read leaves behind: the store after it, and the node found
      (`None` when the key is not found) or the error that aborted it. */
  datatype Outcome<V> = Outcome(store: Simple<V>, result: Result<Option<Node<V>>, Error>)

  /** A new store starts on the default locale with an empty cache. */
  function Initialize<V>(localePaths: seq<Path>): (s: Simple<V>)
    ensures s.locale == DefaultLocale && s.localePaths == localePaths && s.cache.None?
  {
    Simple(DefaultLocale, localePaths, None)
  }

  /** Registers one more path, last in precedence order, and drops the cache. */
  function AppendLocalePath<V>(s: Simple<V>, path: Path): (r: Simple<V>)
    ensures r.cache.None?
    ensures |r.localePaths| == |s.localePaths| + 1 && r.localePaths[|s.localePaths|] == path
    ensures r.localePaths[..|s.localePaths|] == s.localePaths
    ensures r.locale == s.locale
  {
    Simple(s.locale, s.localePaths + [path], None)
  }

  /** Switches the active locale and drops the cache; the paths stay. */
  function SetLocale<V>(s: Simple<V>, locale: string): (r: Simple<V>)
    ensures r.cache.None? && r.locale == locale && r.localePaths == s.localePaths
  {
    Simple(locale, s.localePaths, None)
  }

  /** Drops the cache and nothing else. */
  function Reset<V>(s: Simple<V>): (r: Simple<V>)
    ensures r.cache.None? && r.locale == s.locale && r.localePaths == s.localePaths
  {
    s.(cache := None)
  }

  /** `locale_paths << path` through the public reader: the path is added
      last, but nothing drops the cache. This is the case `reset!` exists for. */
  function PushLocalePath<V>(s: Simple<V>, path: Path): (r: Simple<V>)
    ensures r.cache == s.cache && r.locale == s.locale
    ensures |r.localePaths| == |s.localePaths| + 1 && r.localePaths[|s.localePaths|] == path
    ensures r.localePaths[..|s.localePaths|] == s.localePaths
  {
    s.(localePaths := s.localePaths + [path])
  }

  /** Concatenation of a list of lists. Ruby's `flatten` flattens
      recursively, so it also splices in a document whose top level is a
      sequence. Here that splicing is the loader's job: it returns the
      spliced list of documents for a path, and concatenation does the rest. */
  function Flatten<T>(xss: seq<seq<T>>): seq<T>
    decreases |xss|
  {
    if |xss| == 0 then [] else xss[0] + Flatten(xss[1..])
  }

  /** `i` is the first path the loader does not find. */
  ghost predicate FirstMissing<V>(paths: seq<Path>, loader: Loader<V>, i: int)
  {
    0 <= i < |paths| && loader(paths[i]).None? &&
    forall j :: 0 <= j < i ==> loader(paths[j]).Some?
  }

  /** Loads the documents of every path, in path order and, within a path, in
      the loader's order, into one flat list; fails on the first path that
      does not exist. */
  function LoadHashesForPaths<V>(paths: seq<Path>, loader: Loader<V>): (r: Result<seq<Table<V>>, Error>)
    ensures r.Failure? <==> exists i :: 0 <= i < |paths| && loader(paths[i]).None?
    ensures r.Failure? ==> exists i :: FirstMissing(paths, loader, i) && r.error == PathNotFound(paths[i])
    ensures r.Success? ==> r.value == Flatten(seq(|paths|, i requires 0 <= i < |paths| => loader(paths[i]).GetOr([])))
    decreases |paths|
  {
    if |paths| == 0 then
      Success([])
    else
      match loader(paths[0])
      case None => Failure(PathNotFound(paths[0]))
      case Some(docs) =>
        var rest := LoadHashesForPaths(paths[1..], loader);
        assert forall i :: 0 < i < |paths| ==> paths[i] == paths[1..][i - 1];
        if rest.Failure? then
          assert exists i :: FirstMissing(paths, loader, i) && rest.error == PathNotFound(paths[i]) by {
            var i :| FirstMissing(paths[1..], loader, i) && rest.error == PathNotFound(paths[1..][i]);
            assert FirstMissing(paths, loader, i + 1);
          }
          rest
        else
          var per := seq(|paths|, i requires 0 <= i < |paths| => loader(paths[i]).GetOr([]));
          assert per[1..] == seq(|paths| - 1, i requires 0 <= i < |paths| - 1 => loader(paths[1..][i]).GetOr([]));
          Success(docs + rest.value)
  }

  /** Rebuilds the cache from every path when it is absent; a present cache is
      kept as it is and the loader is not consulted. A failed load leaves the
      cache absent. */
  function LoadCacheIfNeeded<V>(s: Simple<V>, loader: Loader<V>): (r: Result<Simple<V>, Error>)
    ensures s.cache.Some? ==> r == Success(s)
    ensures s.cache.None? && LoadHashesForPaths(s.localePaths, loader).Failure? ==>
              r == Failure(LoadHashesForPaths(s.localePaths, loader).error)
    ensures s.cache.None? && LoadHashesForPaths(s.localePaths, loader).Success? ==>
              r == Success(s.(cache := DeepHashMerge(LoadHashesForPaths(s.localePaths, loader).value)))
  {
    if s.cache.Some? then
      Success(s)
    else
      match LoadHashesForPaths(s.localePaths, loader)
      case Failure(e) => Failure(e)
      case Success(hashes) => Success(s.(cache := DeepHashMerge(hashes)))
  }

  /** `source = @cache[@locale]` followed by the walk of the split key. A
      locale without a tree finds nothing, and a key with no segments (such
      as "") finds the locale's whole tree. */
  function Lookup<V>(cache: Table<V>, locale: string, key: string): (r: Option<Node<V>>)
    ensures locale !in cache ==> r.None?
    ensures DottedKey.Split(key) == [] ==> r == Get(cache, locale)
  {
    Walk(Get(cache, locale), DottedKey.Split(key))
  }

  /** A lookup finds exactly the node reached by descending from the active
      locale's tree along the split key; with no tree for the locale it finds
      nothing. */
  lemma LookupFindsReachedNode<V>(cache: Table<V>, locale: string, key: string, n: Node<V>)
    ensures Lookup(cache, locale, key) == Some(n) <==>
            locale in cache && Reaches(cache[locale], DottedKey.Split(key), n)
  {
    if locale in cache {
      WalkFindsReachedNode(cache[locale], DottedKey.Split(key), n);
    } else {
      WalkFromNothing<V>(DottedKey.Split(key));
    }
  }

  /** `t(key)` / `read(key)`: makes sure the cache is present, then walks the
      dotted key from the active locale's entry. A missing locale or key is
      a normal `None` result, and so is a step into a leaf (where Ruby may
      instead return a substring or raise). Apart from that, a read fails
      only when the rebuild fails, or with `NilCache` when the paths held no
      document; a failed read leaves the store as it was. */
  function Translate<V>(s: Simple<V>, key: string, loader: Loader<V>): (r: Outcome<V>)
    ensures r.store.locale == s.locale && r.store.localePaths == s.localePaths
    ensures s.cache.Some? ==> r.store == s && r.result == Success(Lookup(s.cache.value, s.locale, key))
    ensures r.result.Failure? ==> r.store == s && s.cache.None?
    ensures r.result.Success? ==>
              r.store.cache.Some? && r.result.value == Lookup(r.store.cache.value, s.locale, key)
    ensures s.cache.None? ==>
              match LoadHashesForPaths(s.localePaths, loader)
              case Failure(e) => r.result == Failure(e)
              case Success(docs) => r.store.cache == DeepHashMerge(docs) &&
                                    (r.result.Failure? <==> |docs| == 0) &&
                                    (r.result.Failure? ==> r.result.error == NilCache)
  {
    match LoadCacheIfNeeded(s, loader)
    case Failure(e) => Outcome(s, Failure(e))
    case Success(loaded) =>
      match loaded.cache
      case None => Outcome(s, Failure(NilCache))
      case Some(table) => Outcome(loaded, Success(Lookup(table, loaded.locale, key)))
  }

  /** A read performed on `s` rebuilt the cache from `s`'s paths: it failed
      with the loader's error, or left the merge of the loaded documents in
      the cache. */
  ghost predicate Rebuilds<V>(s: Simple<V>, key: string, loader: Loader<V>)
  {
    var o := Translate(s, key, loader);
    match LoadHashesForPaths(s.localePaths, loader)
    case Failure(e) => o.result == Failure(e) && o.store == s
    case Success(docs) => o.store.cache == DeepHashMerge(docs)
  }

  /** After appending a path, switching locale or resetting, the next read
      reloads every registered path, whatever the cache held before. */
  lemma MutationsForceRebuild<V>(s: Simple<V>, path: Path, locale: string, key: string, loader: Loader<V>)
    ensures Rebuilds(AppendLocalePath(s, path), key, loader)
    ensures Rebuilds(SetLocale(s, locale), key, loader)
    ensures Rebuilds(Reset(s), key, loader)
  {
  }

  /** A registered path that does not exist makes a read on an absent cache
      fail with `PathNotFound`, and the store keeps its absent cache. */
  lemma MissingPathFailsRead<V>(s: Simple<V>, key: string, loader: Loader<V>, i: nat)
    requires s.cache.None? && i < |s.localePaths| && loader(s.localePaths[i]).None?
    ensures Translate(s, key, loader).result.Failure?
    ensures Translate(s, key, loader).result.error.PathNotFound?
    ensures Translate(s, key, loader).store.cache.None?
  {
  }

  /** A failed read changes nothing, so the next read, of any key, fails with
      the same error. */
  lemma FailedReadRepeats<V>(s: Simple<V>, key: string, key': string, loader: Loader<V>)
    requires Translate(s, key, loader).result.Failure?
    ensures Translate(Translate(s, key, loader).store, key', loader).result == Translate(s, key, loader).result
  {
  }

  /** Once a read succeeded, later reads without a mutation in between are
      served from the cache: they do not depend on the loader, leave the
      store as it is, and the same key gives the same result. */
  lemma RepeatedReadsUseCache<V>(s: Simple<V>, key: string, key': string, loader: Loader<V>, loader': Loader<V>)
    requires Translate(s, key, loader).result.Success?
    ensures var o := Translate(s, key, loader);
            Translate(o.store, key', loader').store == o.store &&
            Translate(o.store, key, loader').result == o.result
  {
  }

  /** Switching locale after a read rebuilds the same merged documents and
      answers from the new locale's tree. */
  lemma LocaleSwitchReselects<V>(s: Simple<V>, key: string, key': string, locale: string, loader: Loader<V>)
    requires s.cache.None? && Translate(s, key, loader).result.Success?
    ensures var o := Translate(s, key, loader);
            var o' := Translate(SetLocale(o.store, locale), key', loader);
            o'.result.Success? && o'.store.cache == o.store.cache && o'.store.locale == locale &&
            o'.result.value == Walk(Get(o.store.cache.value, locale), DottedKey.Split(key'))
  {
  }

  /** A dotted key made of separator-free segments walks those segments in
      turn: its lookup is the walk of the first segments followed by the
      walk of the rest. */
  lemma LookupOfJoinedKey<V>(cache: Table<V>, locale: string, p: KeyPath, q: KeyPath)
    requires DottedKey.AllPlain(p + q)
    requires |p + q| == 0 || (p + q)[|p + q| - 1] != ""
    ensures Lookup(cache, locale, DottedKey.Join(p + q)) == Walk(Walk(Get(cache, locale), p), q)
  {
    DottedKey.SplitJoin(p + q);
    WalkAppend(Get(cache, locale), p, q);
  }

  /** The table {"en": {"greeting": {"hello": "Hi"}}} used by the examples. */
  function GreetingTable(): Table<string>
  {
    map["en" := Map(map["greeting" := Map(map["hello" := Leaf("Hi")])])]
  }

  /** Under "en", "greeting.hello" finds "Hi". */
  lemma DottedLookupFoundExample()
    ensures Lookup(GreetingTable(), "en", "greeting.hello") == Some(Leaf("Hi"))
  {
    assert DottedKey.Join(["greeting", "hello"]) == "greeting.hello";
    DottedKey.SplitJoin(["greeting", "hello"]);
    assert ["greeting", "hello"][1..] == ["hello"];
    assert ["hello"][1..] == [];
  }

  /** Under "en", "greeting.bye" finds nothing: the last segment is
      missing, and no error is raised. */
  lemma DottedLookupMissingLeafExample()
    ensures Lookup(GreetingTable(), "en", "greeting.bye") == None
  {
    assert DottedKey.Join(["greeting", "bye"]) == "greeting.bye";
    DottedKey.SplitJoin(["greeting", "bye"]);
    assert ["greeting", "bye"][1..] == ["bye"];
    assert ["bye"][1..] == [];
    assert "bye" != "hello";
  }

  /** Under "en", "absent.path" finds nothing: the first segment is already
      missing and the walk stays empty. */
  lemma DottedLookupMissingBranchExample()
    ensures Lookup(GreetingTable(), "en", "absent.path") == None
  {
    assert DottedKey.Join(["absent", "path"]) == "absent.path";
    DottedKey.SplitJoin(["absent", "path"]);
    assert ["absent", "path"][1..] == ["path"];
    assert "absent" != "greeting";
    WalkFromNothing<string>(["path"]);
  }

  /** A path pushed onto the live path list does not reach reads while a
      cache is present: they keep answering from the old merge, whatever the
      new path holds. After `Reset` the next read reloads every path,
      the pushed one included. */
  lemma PushedPathNeedsReset<V>(s: Simple<V>, path: Path, key: string, loader: Loader<V>)
    requires s.cache.Some?
    ensures Translate(PushLocalePath(s, path), key, loader).result == Success(Lookup(s.cache.value, s.locale, key))
    ensures Translate(PushLocalePath(s, path), key, loader).store.cache == s.cache
    ensures Rebuilds(Reset(PushLocalePath(s, path)), key, loader)
  {
  }

  /** The store's cache is absent, or it is the merge of what the current
      paths load: it never holds data from an earlier configuration. */
  ghost predicate Fresh<V>(s: Simple<V>, loader: Loader<V>)
  {
    s.cache.None? ||
    (LoadHashesForPaths(s.localePaths, loader).Success? &&
     s.cache == DeepHashMerge(LoadHashesForPaths(s.localePaths, loader).value))
  }

  /** With a fixed loader, a new store is fresh and every operation of the
      class keeps it fresh, so a successful read always answers from the
      merge of the documents under the current paths. Anything that changes
      behind the class's back breaks this until `Reset`: an in-place change
      to the live path list (`PushLocalePath`), a write through `cache=` or
      into a returned sub-tree, or a change to the files under a path (a
      different loader). */
  lemma FreshIsInvariant<V>(s: Simple<V>, paths: seq<Path>, path: Path, locale: string, key: string, loader: Loader<V>)
    ensures Fresh(Initialize<V>(paths), loader)
    ensures Fresh(s, loader) ==>
              Fresh(AppendLocalePath(s, path), loader) && Fresh(SetLocale(s, locale), loader) &&
              Fresh(Reset(s), loader) && Fresh(Translate(s, key, loader).store, loader)
    ensures Fresh(s, loader) && Translate(s, key, loader).result.Success? ==>
              LoadHashesForPaths(s.localePaths, loader).Success? &&
              DeepHashMerge(LoadHashesForPaths(s.localePaths, loader).value).Some? &&
              Translate(s, key, loader).result.value ==
                Lookup(DeepHashMerge(LoadHashesForPaths(s.localePaths, loader).value).value, s.locale, key)
  {
  }
}
