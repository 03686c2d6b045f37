/**
 * The configuration store of `package/utils.py`: the shape of a new
 * configuration, reading it back (the override list becomes a set), and the
 * maintenance of the push-direction ledger `TIME_LAST_SYNCED_FROM_LOCAL`
 * (migration of the legacy `SYNCED_PATHS` key, then pruning to the files
 * that still exist under the local Dropbox folder).
 *
 * The JSON document is a map from key to value; the file reads and writes,
 * the token request and the directory walk are inputs or left out.
 */
module Utils {
  import opened Wrappers

  /** The values a configuration entry holds. `StrSet` only ever exists in
      memory, after `read_config`. */
  datatype Value =
    | Str(text: string)
    | StrList(items: seq<string>)
    | StrSet(members: set<string>)
    | StrMap(entries: map<string, string>)

  type Config = map<string, Value>

  const DropboxLocation: string := "DROPBOX_LOCATION"
  const AppKey: string := "APP_KEY"
  const AppSecret: string := "APP_SECRET"
  const AccessToken: string := "ACCESS_TOKEN"
  const RefreshToken: string := "REFRESH_TOKEN"
  const GitignoreOverrides: string := "GITIGNORE_OVERRIDES"
  const FromCloud: string := "TIME_LAST_SYNCED_FROM_CLOUD"
  const FromLocal: string := "TIME_LAST_SYNCED_FROM_LOCAL"
  const SyncedPaths: string := "SYNCED_PATHS"

  /** `KeyError` on a missing key; `AttributeError` when `.items()` is asked
      of a value that is not a dict. */
  datatype ConfigError = MissingKey(key: string) | NotAMapping(key: string)

  /** The document `create_config` writes; the two tokens are the answer of
      the token endpoint. */
  function CreateConfig(appKey: string, appSecret: string, dropboxLocation: string,
                        accessToken: string, refreshToken: string): (c: Config)
    ensures c.Keys == {DropboxLocation, AppKey, AppSecret, AccessToken, RefreshToken,
                       GitignoreOverrides, FromCloud, FromLocal}
  {
    map[DropboxLocation := Str(dropboxLocation),
        AppKey := Str(appKey),
        AppSecret := Str(appSecret),
        AccessToken := Str(accessToken),
        RefreshToken := Str(refreshToken),
        GitignoreOverrides := StrList([]),
        FromCloud := StrMap(map[]),
        FromLocal := StrMap(map[])]
  }

  /** Python's `set(v)`: a list's elements, a set itself, a dict's keys, a
      string's one-character substrings. */
  function AsSet(v: Value): (s: set<string>)
    ensures v.StrList? ==> forall x :: x in s <==> x in v.items
    ensures v.StrMap? ==> s == v.entries.Keys
  {
    match v
    case Str(t) => set i | 0 <= i < |t| :: [t[i]]
    case StrList(items) => set x | x in items
    case StrSet(m) => m
    case StrMap(e) => e.Keys
  }

  /** `read_config` after the JSON load: the override entry is always there,
      and always a set. */
  function ReadConfig(stored: Config): (c: Config)
    ensures c.Keys == stored.Keys + {GitignoreOverrides}
    ensures c[GitignoreOverrides].StrSet?
    ensures GitignoreOverrides !in stored ==> c[GitignoreOverrides].members == {}
    ensures GitignoreOverrides in stored ==> c[GitignoreOverrides].members == AsSet(stored[GitignoreOverrides])
    ensures forall k :: k in stored && k != GitignoreOverrides ==> c[k] == stored[k]
  {
    if GitignoreOverrides !in stored then stored[GitignoreOverrides := StrSet({})]
    else stored[GitignoreOverrides := StrSet(AsSet(stored[GitignoreOverrides]))]
  }

  /** The number of distinct elements of a list is at most its length, and
      equal to it exactly when the list has no repeats. */
  lemma {:induction false} DistinctCount(items: seq<string>)
    ensures |set x | x in items| <= |items|
    ensures |set x | x in items| == |items| <==> forall i, j :: 0 <= i < j < |items| ==> items[i] != items[j]
    decreases |items|
  {
    if items != [] {
      var rest := items[1..];
      DistinctCount(rest);
      var all, tail := set x | x in items, set x | x in rest;
      assert all == tail + {items[0]};
      if items[0] in tail {
        assert all == tail;
        assert !forall i, j :: 0 <= i < j < |items| ==> items[i] != items[j] by {
          var m :| 0 <= m < |rest| && rest[m] == items[0];
          assert items[0] == items[m + 1];
        }
      } else {
        assert |all| == |tail| + 1;
        assert (forall i, j :: 0 <= i < j < |items| ==> items[i] != items[j]) <==>
               (forall i, j :: 0 <= i < j < |rest| ==> rest[i] != rest[j]) by {
          if forall i, j :: 0 <= i < j < |rest| ==> rest[i] != rest[j] {
            forall i, j | 0 <= i < j < |items| ensures items[i] != items[j] {
              if i > 0 { assert items[i] == rest[i - 1] && items[j] == rest[j - 1]; }
              else { assert items[j] == rest[j - 1]; }
            }
          } else {
            var i, j :| 0 <= i < j < |rest| && rest[i] == rest[j];
            assert items[i + 1] == items[j + 1];
          }
        }
      }
    }
  }

  /** The stored override list keeps every element and collapses repeats. */
  lemma ReadConfigOverrides(stored: Config)
    requires GitignoreOverrides in stored && stored[GitignoreOverrides].StrList?
    ensures var items := stored[GitignoreOverrides].items;
            var members := ReadConfig(stored)[GitignoreOverrides].members;
            (forall x :: x in members <==> x in items) &&
            |members| <= |items| &&
            (|members| == |items| <==> forall i, j :: 0 <= i < j < |items| ==> items[i] != items[j])
  {
    var items := stored[GitignoreOverrides].items;
    DistinctCount(items);
    assert ReadConfig(stored)[GitignoreOverrides].members == set x | x in items;
  }

  /** `"/" + os.path.relpath(...)` for every walked file, in walk order. */
  function WalkedFiles(relative: seq<string>): (files: seq<string>)
    ensures |files| == |relative|
    ensures forall i :: 0 <= i < |files| ==> |files[i]| == |relative[i]| + 1 && files[i][0] == '/'
    ensures forall i :: 0 <= i < |files| ==> files[i][1..] == relative[i]
  {
    seq(|relative|, i requires 0 <= i < |relative| => "/" + relative[i])
  }

  /** The ledger `clean_synced_paths` prunes: `SYNCED_PATHS` when present
      (it replaces the new key outright), else `TIME_LAST_SYNCED_FROM_LOCAL`. */
  function LedgerSource(config: Config): Option<Value>
  {
    if SyncedPaths in config then Some(config[SyncedPaths])
    else if FromLocal in config then Some(config[FromLocal])
    else None
  }

  /** The in-memory part of `clean_synced_paths` on an already-read
      configuration: migrate the legacy key, then keep only ledger entries
      whose path is one of `files`. */
  function Clean(config: Config, files: seq<string>): Result<Config, ConfigError>
  {
    var migrated :=
      if SyncedPaths in config then config[FromLocal := config[SyncedPaths]] - {SyncedPaths}
      else config;
    if FromLocal !in migrated then Err(MissingKey(FromLocal))
    else if !migrated[FromLocal].StrMap? then Err(NotAMapping(FromLocal))
    else
      var ledger := migrated[FromLocal].entries;
      Ok(migrated[FromLocal := StrMap(map k | k in ledger && k in files :: ledger[k])])
  }

  /** What cleaning does: it fails exactly when there is no ledger (a
      `KeyError`) or the ledger is not a dict; otherwise the legacy key is
      gone, the ledger is the legacy map (no merge) or the current one,
      restricted to the walked files with timestamps untouched, and every
      other key keeps its value. */
  lemma CleanSpec(config: Config, files: seq<string>)
    ensures Clean(config, files) == Err(MissingKey(FromLocal)) <==> LedgerSource(config) == None
    ensures Clean(config, files).Ok? <==> LedgerSource(config).Some? && LedgerSource(config).value.StrMap?
    ensures Clean(config, files).Ok? ==>
      var c := Clean(config, files).value;
      var ledger := LedgerSource(config).value.entries;
      && c.Keys == config.Keys - {SyncedPaths} + {FromLocal}
      && c[FromLocal].StrMap?
      && (forall k :: k in c[FromLocal].entries <==> k in ledger && k in files)
      && (forall k :: k in c[FromLocal].entries ==> c[FromLocal].entries[k] == ledger[k])
      && (forall k :: k in config && k != FromLocal && k != SyncedPaths ==> c[k] == config[k])
  {
  }

  /** Cleaning twice against the same walk is cleaning once. */
  lemma CleanIdempotent(config: Config, files: seq<string>)
    requires Clean(config, files).Ok?
    ensures Clean(Clean(config, files).value, files) == Clean(config, files)
  {
    var c := Clean(config, files).value;
    assert SyncedPaths !in c;
    var ledger := c[FromLocal].entries;
    assert (map k | k in ledger && k in files :: ledger[k]) == ledger;
    assert c[FromLocal := StrMap(ledger)] == c;
  }

  /** `clean_synced_paths` up to the write-back: collect the walked files
      (given as paths relative to the local Dropbox folder), read the
      configuration, migrate and prune the push ledger. */
  method CleanSyncedPaths(relativePaths: seq<string>, stored: Config) returns (r: Result<Config, ConfigError>)
    ensures r == Clean(ReadConfig(stored), WalkedFiles(relativePaths))
    ensures r.Ok? ==> forall k :: k in r.value[FromLocal].entries ==>
      exists i :: 0 <= i < |relativePaths| && k == "/" + relativePaths[i]
    ensures r.Ok? ==> forall k :: k in stored && k !in {FromLocal, SyncedPaths, GitignoreOverrides} ==>
      k in r.value && r.value[k] == stored[k]
  {
    var files: seq<string> := [];
    for i := 0 to |relativePaths|
      invariant files == WalkedFiles(relativePaths[..i])
    {
      files := files + ["/" + relativePaths[i]];
    }
    assert relativePaths[..|relativePaths|] == relativePaths;
    var config := ReadConfig(stored);
    if SyncedPaths in config {
      config := config[FromLocal := config[SyncedPaths]];
      config := config - {SyncedPaths};
    }
    if FromLocal !in config {
      return Err(MissingKey(FromLocal));
    }
    var ledger := config[FromLocal];
    if !ledger.StrMap? {
      return Err(NotAMapping(FromLocal));
    }
    config := config[FromLocal := StrMap(map k | k in ledger.entries && k in files :: ledger.entries[k])];
    r := Ok(config);
    forall k | k in r.value[FromLocal].entries
      ensures exists i :: 0 <= i < |relativePaths| && k == "/" + relativePaths[i]
    {
      var i :| 0 <= i < |files| && files[i] == k;
      assert k == "/" + relativePaths[i];
    }
  }

  /** A freshly created configuration reads back with its arguments and
      the two tokens as given, an empty override set and empty ledgers, and
      survives cleaning unchanged, whatever the walk finds. */
  lemma FreshConfig(appKey: string, appSecret: string, dropboxLocation: string,
                    accessToken: string, refreshToken: string, files: seq<string>)
    ensures var c := ReadConfig(CreateConfig(appKey, appSecret, dropboxLocation, accessToken, refreshToken));
            && c[GitignoreOverrides] == StrSet({})
            && c[DropboxLocation] == Str(dropboxLocation)
            && c[AppKey] == Str(appKey) && c[AppSecret] == Str(appSecret)
            && c[AccessToken] == Str(accessToken) && c[RefreshToken] == Str(refreshToken)
            && c[FromCloud] == StrMap(map[]) && c[FromLocal] == StrMap(map[])
            && Clean(c, files) == Ok(c)
  {
    var c := ReadConfig(CreateConfig(appKey, appSecret, dropboxLocation, accessToken, refreshToken));
    var none: seq<string> := [];
    assert (set x | x in none) == {};
    var empty: map<string, string> := map[];
    assert c[FromLocal := StrMap(empty)] == c;
  }
}
