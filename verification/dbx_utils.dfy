/**
 * `package/dbx_utils.py`: the same paginated, sorted listing as the model
 * class but projected to dicts, and the older `create_config`, which writes
 * the credentials and the Dropbox location and no ledger.
 */
module DbxUtils {
  import opened RemoteListing
  import opened Sorting
  import Utils
  import Wrappers

  /** The values of the dicts `get_list_of_paths` returns. */
  datatype Field = Text(text: string) | Flag(flag: bool)

  const PathKey: string := "path"
  const IsFileKey: string := "is_file"

  /** `{'path': i.path_display, 'is_file': isinstance(i, FileMetadata)}` */
  function Record(m: Metadata): map<string, Field>
  {
    map[PathKey := Text(m.pathDisplay), IsFileKey := Flag(m.kind == FileKind)]
  }

  method GetListOfPaths(remote: Remote, root: string, ghost n: nat) returns (fileList: seq<map<string, Field>>)
    requires EndsAt(remote, root, n)
    ensures var received := Received(remote, root, n);
            var sorted := SortBy(received, PathLowerKey);
            && |fileList| == EntryCount(remote, root, n)
            && multiset(sorted) == multiset(received)
            && SortedBy(sorted, PathLowerKey)
            && StableFrom(sorted, received, PathLowerKey)
            && |sorted| == |fileList|
            && forall i :: 0 <= i < |fileList| ==>
                 && fileList[i].Keys == {PathKey, IsFileKey}
                 && fileList[i][PathKey] == Text(sorted[i].pathDisplay)
                 && fileList[i][IsFileKey] == Flag(sorted[i].kind == FileKind)
  {
    var entries := FetchAllEntries(remote, root, n);
    ReceivedLength(remote, root, n);
    SortByCorrect(entries, PathLowerKey);
    entries := SortBy(entries, PathLowerKey);
    fileList := seq(|entries|, i requires 0 <= i < |entries| => Record(entries[i]));
  }

  /** The document this `create_config` writes. */
  function CreateConfig(appKey: string, appSecret: string, dropboxLocation: string,
                        accessToken: string, refreshToken: string): Utils.Config
  {
    map[Utils.DropboxLocation := Utils.Str(dropboxLocation),
        Utils.AppKey := Utils.Str(appKey),
        Utils.AppSecret := Utils.Str(appSecret),
        Utils.AccessToken := Utils.Str(accessToken),
        Utils.RefreshToken := Utils.Str(refreshToken)]
  }

  /** A configuration written by this `create_config` holds exactly the
      five credential and location keys; read back it gains an empty
      override set, and ledger cleaning fails on it with a missing
      `TIME_LAST_SYNCED_FROM_LOCAL`. */
  lemma CreatedConfigHasNoLedger(appKey: string, appSecret: string, dropboxLocation: string,
                                 accessToken: string, refreshToken: string, files: seq<string>)
    ensures var stored := CreateConfig(appKey, appSecret, dropboxLocation, accessToken, refreshToken);
            && stored.Keys == {Utils.DropboxLocation, Utils.AppKey, Utils.AppSecret, Utils.AccessToken, Utils.RefreshToken}
            && stored[Utils.DropboxLocation] == Utils.Str(dropboxLocation)
            && Utils.ReadConfig(stored)[Utils.GitignoreOverrides] == Utils.StrSet({})
            && Utils.Clean(Utils.ReadConfig(stored), files) == Wrappers.Err(Utils.MissingKey(Utils.FromLocal))
  {
    var stored := CreateConfig(appKey, appSecret, dropboxLocation, accessToken, refreshToken);
    assert Utils.SyncedPaths !in Utils.ReadConfig(stored);
    assert Utils.FromLocal !in Utils.ReadConfig(stored);
  }
}
