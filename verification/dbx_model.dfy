/**
 * `DropboxModel.get_list_of_paths` (package/model/dbx_model.py): every
 * entry of every page, sorted by `path_lower`, each projected to the pair
 * (`path_display`, is a file).
 */
module DropboxModel {
  import opened RemoteListing
  import opened Sorting

  /** `(i.path_display, isinstance(i, FileMetadata))` */
  function Pair(m: Metadata): (string, bool)
  {
    (m.pathDisplay, m.kind == FileKind)
  }

  method GetListOfPaths(remote: Remote, root: string, ghost n: nat) returns (fileList: seq<(string, bool)>)
    requires EndsAt(remote, root, n)
    ensures var received := Received(remote, root, n);
            var sorted := SortBy(received, PathLowerKey);
            && |fileList| == EntryCount(remote, root, n)
            && multiset(sorted) == multiset(received)
            && SortedBy(sorted, PathLowerKey)
            && StableFrom(sorted, received, PathLowerKey)
            && |sorted| == |fileList|
            && forall i :: 0 <= i < |fileList| ==>
                 fileList[i].0 == sorted[i].pathDisplay && (fileList[i].1 <==> sorted[i].kind == FileKind)
  {
    var entries := FetchAllEntries(remote, root, n);
    ReceivedLength(remote, root, n);
    SortByCorrect(entries, PathLowerKey);
    entries := SortBy(entries, PathLowerKey);
    fileList := seq(|entries|, i requires 0 <= i < |entries| => Pair(entries[i]));
  }
}
