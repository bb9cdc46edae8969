/**
 * The registry's data model: the fully qualified module name (FQMN) with its
 * slash-separated storage form, the record stored per published version, and
 * the record store seen as a map keyed by (module name, version).
 */
module Models {
  import opened Results
  import opened Strings

  /** A Terraform module's namespace/name/provider triple. Fields are stored as given. */
  datatype ModuleName = ModuleName(namespace: string, name: string, provider: string)

  /** No field holds the separator `/`, so the storage form can be parsed back. */
  predicate Unseparated(m: ModuleName) {
    '/' !in m.namespace && '/' !in m.name && '/' !in m.provider
  }

  /** The storage (hash key) form: `"/".join([namespace, name, provider])`. */
  function Serialize(m: ModuleName): (s: string)
    ensures s == m.namespace + "/" + m.name + "/" + m.provider
  {
    JoinThree(m.namespace, m.name, m.provider, '/');
    Join([m.namespace, m.name, m.provider], '/')
  }

  /** Raised by `ModuleName(*parts)` when the split does not give three parts. */
  datatype ArityError = ArityError(given: nat)

  /** `ModuleName(*value.split("/"))`: every `/` cuts, and exactly three parts are needed. */
  function Deserialize(s: string): (r: Result<ModuleName, ArityError>)
    ensures r.Ok? <==> Count(s, '/') == 2
    ensures r.Ok? ==> Unseparated(r.value)
    ensures r.Err? ==> r.error.given == Count(s, '/') + 1
  {
    var parts := Split(s, '/');
    SplitExcludes(s, '/');
    if |parts| == 3 then Ok(ModuleName(parts[0], parts[1], parts[2]))
    else Err(ArityError(|parts|))
  }

  /** The number of separators in the storage form. */
  lemma SerializeCount(m: ModuleName)
    ensures Count(Serialize(m), '/') == 2 + Count(m.namespace, '/') + Count(m.name, '/') + Count(m.provider, '/')
  {
    CountConcat(m.namespace, "/", '/');
    CountConcat(m.namespace + "/", m.name, '/');
    CountConcat(m.namespace + "/" + m.name, "/", '/');
    CountConcat(m.namespace + "/" + m.name + "/", m.provider, '/');
  }

  /** Parsing the storage form gives the name back exactly when no field holds a `/`. */
  lemma DeserializeSerialize(m: ModuleName)
    ensures Deserialize(Serialize(m)) == Ok(m) <==> Unseparated(m)
  {
    SerializeCount(m);
    if Unseparated(m) {
      var parts := [m.namespace, m.name, m.provider];
      assert parts[1..][1..] == [m.provider];
      SplitJoin(parts, '/');
    }
  }

  /** A string with exactly two separators parses, and printing the result gives the string back. */
  lemma SerializeDeserialize(s: string)
    requires Count(s, '/') == 2
    ensures Deserialize(s).Ok? && Serialize(Deserialize(s).value) == s
  {
    var parts := Split(s, '/');
    JoinSplit(s, '/');
    assert parts == [parts[0], parts[1], parts[2]];
    JoinThree(parts[0], parts[1], parts[2], '/');
  }

  /** Names without separators never share a storage key. */
  lemma SerializeInjective(a: ModuleName, b: ModuleName)
    requires Unseparated(a) && Unseparated(b)
    requires Serialize(a) == Serialize(b)
    ensures a == b
  {
    DeserializeSerialize(a);
    DeserializeSerialize(b);
  }

  /** Names with a separator in a field can share a storage key. */
  lemma SeparatedNamesCollide()
    ensures Serialize(ModuleName("a/b", "c", "d")) == Serialize(ModuleName("a", "b/c", "d"))
    ensures ModuleName("a/b", "c", "d") != ModuleName("a", "b/c", "d")
  {
  }

  /** Python's `repr` of a string, for strings without quotes, backslashes or unprintable characters. */
  function Quoted(s: string): string {
    "'" + s + "'"
  }

  /**
   * `str(m)` of the dataclass: its generated repr,
   * `ModuleName(namespace='…', name='…', provider='…')`. This is not the storage form.
   */
  function Display(m: ModuleName): (s: string)
    ensures |s| == |Serialize(m)| + 44
    ensures s != Serialize(m)
  {
    "ModuleName(namespace=" + Quoted(m.namespace) + ", name=" + Quoted(m.name)
    + ", provider=" + Quoted(m.provider) + ")"
  }

  /** One published version of a module (`ModuleModel`). */
  datatype ModuleRecord = ModuleRecord(
    moduleName: ModuleName,      // hash key
    version: string,             // range key
    source: Option<string>,      // artifact locator; required when saved, possibly absent when read
    publishedAt: int,            // set on creation from the clock
    verified: Option<bool>,
    owner: Option<string>,
    description: Option<string>,
    downloads: int)

  /** The primary key: at most one record per (module name, version). */
  type Key = (ModuleName, string)

  function KeyOf(r: ModuleRecord): Key {
    (r.moduleName, r.version)
  }

  /** The record store: what `ModuleModel.get` finds under each key. */
  type Store = map<Key, ModuleRecord>

  /** Every record sits under its own key. */
  ghost predicate WellKeyed(store: Store) {
    forall k :: k in store ==> KeyOf(store[k]) == k
  }

  /**
   * A freshly constructed record: the given keys and source, the creation time,
   * no download yet and the optional attributes left null.
   */
  function NewRecord(m: ModuleName, version: string, source: string, now: int): (r: ModuleRecord)
    ensures KeyOf(r) == (m, version) && r.source == Some(source)
    ensures r.downloads == 0 && r.publishedAt == now
    ensures r.verified == None && r.owner == None && r.description == None
  {
    ModuleRecord(m, version, Some(source), now, None, None, None, 0)
  }

  /** The versions stored for one module name. */
  function StoredVersions(store: Store, m: ModuleName): set<string> {
    set k | k in store && k.0 == m :: k.1
  }

  /**
   * `ModuleModel.query(m)`: every record stored for `m`, each once, in an order
   * the store chooses.
   */
  ghost predicate IsQuery(store: Store, m: ModuleName, q: seq<ModuleRecord>) {
    && (forall i :: 0 <= i < |q| ==> (m, q[i].version) in store && store[(m, q[i].version)] == q[i])
    && (forall i, j :: 0 <= i < j < |q| ==> q[i].version != q[j].version)
    && (forall v :: v in StoredVersions(store, m) ==> exists i :: 0 <= i < |q| && q[i].version == v)
  }

  /** The version strings of a query answer, in its order. */
  function Versions(q: seq<ModuleRecord>): (vs: seq<string>)
    ensures |vs| == |q|
    ensures forall i :: 0 <= i < |q| ==> vs[i] == q[i].version
  {
    if q == [] then [] else [q[0].version] + Versions(q[1..])
  }

  /** A sequence without repetitions has as many elements as its set. */
  lemma {:induction false} DistinctCardinality(vs: seq<string>)
    requires forall i, j :: 0 <= i < j < |vs| ==> vs[i] != vs[j]
    ensures |set i | 0 <= i < |vs| :: vs[i]| == |vs|
  {
    if vs != [] {
      var tail := vs[1..];
      DistinctCardinality(tail);
      var s := set i | 0 <= i < |vs| :: vs[i];
      var t := set i | 0 <= i < |tail| :: tail[i];
      assert s == {vs[0]} + t by {
        forall x | x in s ensures x in {vs[0]} + t {
          var i :| 0 <= i < |vs| && vs[i] == x;
          if i > 0 { assert tail[i - 1] == x; }
        }
      }
      assert vs[0] !in t;
    }
  }

  /** A query answer lists each stored version of the name exactly once. */
  lemma QueryListsStoredVersions(store: Store, m: ModuleName, q: seq<ModuleRecord>)
    requires IsQuery(store, m, q)
    ensures (set i | 0 <= i < |q| :: q[i].version) == StoredVersions(store, m)
    ensures |q| == |StoredVersions(store, m)|
  {
    var vs := Versions(q);
    var listed := set i | 0 <= i < |q| :: q[i].version;
    assert listed == StoredVersions(store, m) by {
      forall v | v in listed ensures v in StoredVersions(store, m) {
        var i :| 0 <= i < |q| && q[i].version == v;
        assert (m, v) in store;
      }
    }
    DistinctCardinality(vs);
    assert (set i | 0 <= i < |vs| :: vs[i]) == listed;
  }
}
