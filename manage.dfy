/**
 * The registry's management commands: parsing a fully qualified versioned
 * module name `<namespace>/<name>/<provider>/<version>`, creating and deleting
 * one record of the store, and copying a deployment stage's environment
 * variables into the process environment without overwriting what is set.
 */
module Manage {
  import opened Results
  import opened Strings
  import opened Models
  import opened Http
  import opened Registry

  // ---------------------------------------------------------------------------
  // <namespace>/<name>/<provider>/<version>

  /** Namespace, name, provider and version, as the argument callback returns them. */
  type Fqvmn = (string, string, string, string)

  /** Click's `BadParameter`, with its message. */
  datatype BadParameter = BadParameter(message: string)

  function FormatMessage(param: string): string {
    param + " needs to be in format <namespace>/<name>/<provider>/<version>"
  }

  /**
   * `validate_fqvmn`: `value.split("/", 4)` unpacked into four names. The
   * unpacking succeeds exactly when there are three separators; any
   * `ValueError` becomes `BadParameter`. Empty segments are accepted.
   */
  function ValidateFqvmn(param: string, value: string): (r: Result<Fqvmn, BadParameter>)
    ensures r.Ok? <==> Count(value, '/') == 3
    ensures r.Ok? ==> r.value.0 + "/" + r.value.1 + "/" + r.value.2 + "/" + r.value.3 == value
    ensures r.Ok? ==> '/' !in r.value.0 && '/' !in r.value.1 && '/' !in r.value.2 && '/' !in r.value.3
    ensures r.Err? ==> r.error == BadParameter(FormatMessage(param))
  {
    var parts := SplitMax(value, '/', 4);
    if |parts| == 4 then
      FourParts(value);
      Ok((parts[0], parts[1], parts[2], parts[3]))
    else
      Err(BadParameter(FormatMessage(param)))
  }

  /** With three separators, the limited split cuts at each of them and joins back to the string. */
  lemma FourParts(value: string)
    requires Count(value, '/') == 3
    ensures var parts := SplitMax(value, '/', 4);
      && |parts| == 4
      && parts[0] + "/" + parts[1] + "/" + parts[2] + "/" + parts[3] == value
      && forall i :: 0 <= i < 4 ==> '/' !in parts[i]
  {
    var parts := SplitMax(value, '/', 4);
    SplitMaxUnderLimit(value, '/', 4);
    SplitExcludes(value, '/');
    JoinSplitMax(value, '/', 4);
    assert parts == [parts[0], parts[1], parts[2], parts[3]];
    JoinFour(parts[0], parts[1], parts[2], parts[3], '/');
    assert "/" == ['/'];
  }

  /** The module name and version a parsed argument designates. */
  function KeyOfFqvmn(f: Fqvmn): Key {
    (ModuleName(f.0, f.1, f.2), f.3)
  }

  /** The argument text of a record: its storage name, a `/` and its version. */
  function FqvmnText(m: ModuleName, version: string): string {
    Serialize(m) + "/" + version
  }

  /** A record's argument text parses back to its name and version when no part holds a `/`. */
  lemma ValidateFqvmnText(param: string, m: ModuleName, version: string)
    requires Unseparated(m) && '/' !in version
    ensures ValidateFqvmn(param, FqvmnText(m, version)).Ok?
    ensures KeyOfFqvmn(ValidateFqvmn(param, FqvmnText(m, version)).value) == (m, version)
  {
    var s := FqvmnText(m, version);
    var parts := [m.namespace, m.name, m.provider, version];
    JoinFour(m.namespace, m.name, m.provider, version, '/');
    SplitJoin(parts, '/');
    SplitMaxUnderLimit(s, '/', 4);
  }

  // ---------------------------------------------------------------------------
  // Creating and deleting a record

  /** Put-if-absent: a record for an absent key, and nothing else changed. */
  function Created(store: Store, key: Key, source: string, now: int): (r: Store)
    ensures key in r
    ensures key in store ==> r == store
    ensures key !in store ==> r[key] == NewRecord(key.0, key.1, source, now)
    ensures forall k :: k != key ==> (k in r <==> k in store)
    ensures forall k :: k != key && k in store ==> r[k] == store[k]
  {
    if key in store then store else store[key := NewRecord(key.0, key.1, source, now)]
  }

  /** Removal of one key, and nothing else changed. */
  function Deleted(store: Store, key: Key): (r: Store)
    ensures key !in r
    ensures forall k :: k != key ==> (k in r <==> k in store)
    ensures forall k :: k != key && k in store ==> r[k] == store[k]
  {
    store - {key}
  }

  /** Creating keeps every record under its own key. */
  lemma CreatedWellKeyed(store: Store, key: Key, source: string, now: int)
    requires WellKeyed(store)
    ensures WellKeyed(Created(store, key, source, now))
  {
  }

  /** Creating twice is creating once. */
  lemma CreatedIdempotent(store: Store, key: Key, source: string, now: int, source2: string, now2: int)
    ensures Created(Created(store, key, source, now), key, source2, now2) == Created(store, key, source, now)
  {
  }

  /** Deleting twice is deleting once. */
  lemma DeletedIdempotent(store: Store, key: Key)
    ensures Deleted(Deleted(store, key), key) == Deleted(store, key)
  {
  }

  /** Deleting a record just created for an absent key gives the store back. */
  lemma DeletedUndoesCreated(store: Store, key: Key, source: string, now: int)
    requires key !in store
    ensures Deleted(Created(store, key, source, now), key) == store
  {
    assert Deleted(Created(store, key, source, now), key).Keys == store.Keys;
  }

  /** After creating a record for an absent key, downloading it answers 204 with the given source. */
  lemma DownloadAfterCreated(store: Store, key: Key, source: string, now: int)
    requires key !in store
    ensures var r := Download(Created(store, key, source, now), key.0, key.1);
      r.status == NO_CONTENT && r.headers == map["X-Terraform-Get" := source]
  {
  }

  /** After deleting a record, downloading it answers 404. */
  lemma DownloadAfterDeleted(store: Store, key: Key)
    ensures Download(Deleted(store, key), key.0, key.1).status == NOT_FOUND
  {
  }

  /** PynamoDB's refusal of a keyword that names no attribute of the model. */
  datatype UnknownAttribute = UnknownAttribute(message: string)

  /**
   * What `record_create` as written does to the store: an existing key is left
   * alone; for an absent key the model is constructed with `getter_url=`,
   * which names no attribute, so the constructor raises and nothing is saved.
   */
  function CreatedAsWritten(store: Store, key: Key): (r: Result<Store, UnknownAttribute>)
    ensures r.Err? <==> key !in store
    ensures r.Ok? ==> r.value == store
    ensures r.Err? ==> r.error.message == "Attribute getter_url specified does not exist"
  {
    if key in store then Ok(store)
    else Err(UnknownAttribute("Attribute getter_url specified does not exist"))
  }

  /**
   * The discrepancy: creating a record for an absent key and downloading it
   * answers 204 with the given locator when the locator is saved as `source`,
   * and 404 as written, where nothing is ever saved.
   */
  lemma CreateAsWrittenSavesNothing(store: Store, key: Key, source: string, now: int)
    requires key !in store
    ensures CreatedAsWritten(store, key).Err?
    ensures Download(store, key.0, key.1).status == NOT_FOUND
    ensures Download(Created(store, key, source, now), key.0, key.1).status == NO_CONTENT
  {
  }

  /** The record table behind the management commands. */
  class Table {
    var records: Store

    /** The table's invariant: every record is stored under its own key. */
    ghost predicate Valid()
      reads this
    {
      WellKeyed(records)
    }

    constructor (initial: Store)
      requires WellKeyed(initial)
      ensures Valid()
      ensures records == initial
    {
      records := initial;
    }

    /**
     * `record_create` with the locator saved as `source`: 1 when the record
     * exists (the store untouched), otherwise the new record is saved.
     */
    method Create(fqvmn: Fqvmn, getterUrl: string, now: int) returns (status: Option<int>)
      requires Valid()
      modifies this
      ensures Valid()
      ensures records == Created(old(records), KeyOfFqvmn(fqvmn), getterUrl, now)
      ensures status == Some(1) <==> KeyOfFqvmn(fqvmn) in old(records)
      ensures status.None? <==> KeyOfFqvmn(fqvmn) !in old(records)
    {
      var key := KeyOfFqvmn(fqvmn);
      if key in records {
        return Some(1);
      }
      CreatedWellKeyed(records, key, getterUrl, now);
      records := records[key := NewRecord(key.0, key.1, getterUrl, now)];
      return None;
    }

    /** `record_create` as written: 1 for an existing record, the constructor's error otherwise; nothing is saved. */
    method CreateAsWritten(fqvmn: Fqvmn, getterUrl: string, now: int) returns (status: Result<Option<int>, UnknownAttribute>)
      requires Valid()
      modifies this
      ensures Valid()
      ensures records == old(records)
      ensures status.Ok? <==> KeyOfFqvmn(fqvmn) in old(records)
      ensures status.Ok? ==> status.value == Some(1)
      ensures status.Err? ==> status.error == CreatedAsWritten(old(records), KeyOfFqvmn(fqvmn)).error
    {
      var key := KeyOfFqvmn(fqvmn);
      if key in records {
        return Ok(Some(1));
      }
      return Err(UnknownAttribute("Attribute getter_url specified does not exist"));
    }

    /** `record_delete`: removes the record when there is one, silently does nothing otherwise. */
    method Delete(fqvmn: Fqvmn)
      requires Valid()
      modifies this
      ensures Valid()
      ensures records == Deleted(old(records), KeyOfFqvmn(fqvmn))
    {
      var key := KeyOfFqvmn(fqvmn);
      if key in records {
        records := records - {key};
      }
    }
  }

  // ---------------------------------------------------------------------------
  // Applying a stage's environment variables

  /** A deployment stage of the application's configuration. */
  datatype StageConfig = StageConfig(environmentVariables: Option<seq<(string, string)>>)

  /** `stage_config.get("environment_variables", {})`, as its items in order. */
  function StageVariables(config: StageConfig): seq<(string, string)> {
    match config.environmentVariables
    case None => []
    case Some(items) => items
  }

  /** The environment after setting each item whose name is not yet set, in order. */
  function MergeAbsent(env: map<string, string>, items: seq<(string, string)>): (r: map<string, string>)
    ensures env.Keys <= r.Keys
  {
    if items == [] then env
    else
      var e := MergeAbsent(env, items[..|items| - 1]);
      var (k, v) := items[|items| - 1];
      if k in e then e else e[k := v]
  }

  /** Existing variables are never overwritten. */
  lemma {:induction false} MergeAbsentKeepsExisting(env: map<string, string>, items: seq<(string, string)>)
    ensures forall k :: k in env ==> k in MergeAbsent(env, items) && MergeAbsent(env, items)[k] == env[k]
  {
    if items != [] {
      MergeAbsentKeepsExisting(env, items[..|items| - 1]);
    }
  }

  /** The merged names are the existing ones and the stage's. */
  lemma {:induction false} MergeAbsentKeys(env: map<string, string>, items: seq<(string, string)>)
    ensures MergeAbsent(env, items).Keys == env.Keys + set i | 0 <= i < |items| :: items[i].0
  {
    if items != [] {
      var init := items[..|items| - 1];
      MergeAbsentKeys(env, init);
      assert (set i | 0 <= i < |items| :: items[i].0)
          == (set i | 0 <= i < |init| :: init[i].0) + {items[|items| - 1].0} by {
        assert forall i :: 0 <= i < |init| ==> init[i] == items[i];
      }
    }
  }

  /** A variable that was not set takes the value of the first stage item naming it. */
  lemma {:induction false} MergeAbsentFirstWins(env: map<string, string>, items: seq<(string, string)>, i: nat)
    requires i < |items| && items[i].0 !in env
    requires forall j :: 0 <= j < i ==> items[j].0 != items[i].0
    ensures items[i].0 in MergeAbsent(env, items)
    ensures MergeAbsent(env, items)[items[i].0] == items[i].1
  {
    var init := items[..|items| - 1];
    if i < |items| - 1 {
      MergeAbsentFirstWins(env, init, i);
    } else {
      assert forall j :: 0 <= j < |init| ==> init[j] == items[j];
      MergeAbsentKeys(env, init);
      assert items[i].0 !in MergeAbsent(env, init);
    }
  }

  /** Applying the same variables again changes nothing. */
  lemma MergeAbsentIdempotent(env: map<string, string>, items: seq<(string, string)>)
    ensures MergeAbsent(MergeAbsent(env, items), items) == MergeAbsent(env, items)
  {
    var e := MergeAbsent(env, items);
    MergeAbsentKeys(env, items);
    MergeAbsentKeys(e, items);
    MergeAbsentKeepsExisting(e, items);
    assert MergeAbsent(e, items).Keys == e.Keys;
  }

  /** The process environment the management commands run in. */
  class Environment {
    var vars: map<string, string>

    constructor (initial: map<string, string>)
      ensures vars == initial
    {
      vars := initial;
    }

    /**
     * `_apply_chalice_stage`: looks the stage up in the configuration and
     * sets each of its variables that is not already set. An unknown stage
     * raises `KeyError` and changes nothing.
     */
    method ApplyStage(stages: map<string, StageConfig>, stage: string) returns (found: bool)
      modifies this
      ensures found <==> stage in stages
      ensures found ==> vars == MergeAbsent(old(vars), StageVariables(stages[stage]))
      ensures !found ==> vars == old(vars)
    {
      if stage !in stages {
        return false;
      }
      var items := StageVariables(stages[stage]);
      var i := 0;
      while i < |items|
        invariant 0 <= i <= |items|
        invariant vars == MergeAbsent(old(vars), items[..i])
      {
        var (k, v) := items[i];
        assert items[..i + 1][..i] == items[..i];
        if k !in vars {
          vars := vars[k := v];
        }
        i := i + 1;
      }
      assert items[..i] == items;
      return true;
    }
  }
}
