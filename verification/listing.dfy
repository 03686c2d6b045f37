/**
 * The paginated Dropbox folder listing shared by `DropboxModel` and
 * `dbx_utils`: list the folder, follow the cursor while the service reports
 * more, and collect every entry in the order received.
 *
 * The service is an input: `listFolder` answers `files_list_folder(root)`
 * and `listFolderContinue` answers `files_list_folder_continue(cursor)`.
 */
module RemoteListing {

  /** The metadata classes a listing yields: `FileMetadata`,
      `FolderMetadata` and `DeletedMetadata`. */
  datatype Kind = FileKind | FolderKind | DeletedKind

  datatype Metadata = Metadata(pathLower: string, pathDisplay: string, kind: Kind)

  /** The sort key of both listings, `lambda x: x.path_lower`. */
  function PathLowerKey(m: Metadata): string
  {
    m.pathLower
  }

  type Cursor = string

  /** One `ListFolderResult`. */
  datatype Page = Page(entries: seq<Metadata>, cursor: Cursor, hasMore: bool)

  datatype Remote = Remote(listFolder: string -> Page, listFolderContinue: Cursor -> Page)

  /** The k-th page received: the first answer, then each continuation asked
      with the cursor of the page before it. */
  function PageAt(remote: Remote, root: string, k: nat): Page
  {
    if k == 0 then remote.listFolder(root)
    else remote.listFolderContinue(PageAt(remote, root, k - 1).cursor)
  }

  /** The listing ends with page n: every earlier page reported more. */
  ghost predicate EndsAt(remote: Remote, root: string, n: nat)
  {
    && (forall k :: 0 <= k < n ==> PageAt(remote, root, k).hasMore)
    && !PageAt(remote, root, n).hasMore
  }

  /** The entries of pages 0..k, in the order received. */
  function Received(remote: Remote, root: string, k: nat): seq<Metadata>
  {
    if k == 0 then PageAt(remote, root, 0).entries
    else Received(remote, root, k - 1) + PageAt(remote, root, k).entries
  }

  /** The number of entries on pages 0..k. */
  function EntryCount(remote: Remote, root: string, k: nat): nat
  {
    if k == 0 then |PageAt(remote, root, 0).entries|
    else EntryCount(remote, root, k - 1) + |PageAt(remote, root, k).entries|
  }

  /** Nothing is lost or merged: the entries received are exactly the pages'
      entries, one after another, and j-th entry of page k sits at its
      offset. */
  lemma {:induction false} ReceivedHoldsEveryEntry(remote: Remote, root: string, n: nat, k: nat, j: nat)
    requires k <= n && j < |PageAt(remote, root, k).entries|
    ensures |Received(remote, root, n)| == EntryCount(remote, root, n)
    ensures var offset := if k == 0 then 0 else EntryCount(remote, root, k - 1);
            offset + j < |Received(remote, root, n)| &&
            Received(remote, root, n)[offset + j] == PageAt(remote, root, k).entries[j]
    decreases n
  {
    if n > 0 {
      if k < n {
        ReceivedHoldsEveryEntry(remote, root, n - 1, k, j);
      } else {
        ReceivedLength(remote, root, n - 1);
      }
    }
  }

  lemma {:induction false} ReceivedLength(remote: Remote, root: string, n: nat)
    ensures |Received(remote, root, n)| == EntryCount(remote, root, n)
    decreases n
  {
    if n > 0 { ReceivedLength(remote, root, n - 1); }
  }

  /** The loop of `get_list_of_paths` before the sort: list, then continue
      from the latest cursor until a page reports no more. */
  method FetchAllEntries(remote: Remote, root: string, ghost n: nat) returns (fileList: seq<Metadata>)
    requires EndsAt(remote, root, n)
    ensures fileList == Received(remote, root, n)
  {
    var files := remote.listFolder(root);
    fileList := files.entries;
    ghost var k := 0;
    while files.hasMore
      invariant k <= n
      invariant files == PageAt(remote, root, k)
      invariant fileList == Received(remote, root, k)
      decreases n - k
    {
      files := remote.listFolderContinue(files.cursor);
      k := k + 1;
      fileList := fileList + files.entries;
    }
  }
}
