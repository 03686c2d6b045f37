/**
 * The breadcrumb panels of the two explorers
 * (package/ui/widgets/explorers/dbx_explorer.py and local_explorer.py).
 * Each panel shows a path as a list of components. A click on one of
 * them navigates to the path the components up to it spell. The list
 * widget is a `seq<string>`, and a clicked item is its index.
 *
 * The Dropbox explorer also builds the upload and download targets here.
 */
module DbxExplorer {
  import opened PathText
  import opened Wrappers
  import opened Tasks
  import opened ExplorerItems
  import ItemLists

  /** The fixed first entry of the Dropbox panel, standing for the root "". */
  const Home: string := "My Dropbox"

  /** What the panel lists after displaying `path`. */
  function DisplayedItems(path: string): (items: seq<string>)
    ensures |items| == |Split(path)| && items[0] == Home
  {
    [Home] + Split(path)[1..]
  }

  /** Where a click on item `k` leads. */
  function ClickTarget(items: seq<string>, k: nat): string
    requires k < |items|
  {
    if items[k] == Home then "" else Prefixed(items[1..k + 1])
  }

  class DropboxDirectoryPanel {
    var currentDirectory: string
    var items: seq<string>

    /** The list always starts with the home entry. */
    ghost predicate Valid()
      reads this
    {
      |items| >= 1 && items[0] == Home
    }

    constructor (currentDirectory: string)
      ensures Valid()
      ensures this.currentDirectory == currentDirectory && items == [Home]
    {
      this.currentDirectory := currentDirectory;
      items := [Home];
    }

    method ChangeDisplayedDirectories(path: string)
      modifies this
      ensures Valid()
      ensures currentDirectory == path && items == DisplayedItems(path)
    {
      currentDirectory := path;
      items := [];
      items := items + [Home];
      var directories := Split(path)[1..];
      items := items + directories;
    }

    /** `change_path`: the clicked item is `items[k]`. The panel shows the
        new path before it is handed on to the explorer, which is the
        result. */
    method ChangePath(k: nat) returns (newPath: string)
      requires Valid() && k < |items|
      modifies this
      ensures newPath == ClickTarget(old(items), k)
      ensures Valid()
      ensures currentDirectory == newPath && items == DisplayedItems(newPath)
    {
      newPath := "";
      if items[k] != Home {
        var i := 1;
        while true
          invariant 1 <= i <= k
          invariant newPath == Prefixed(items[1..i])
          decreases k - i
        {
          newPath := newPath + [Sep] + items[i];
          assert items[1..i + 1][..i - 1] == items[1..i];
          if i == k {
            break;
          }
          i := i + 1;
        }
      }
      ChangeDisplayedDirectories(newPath);
    }
  }

  /** A click on an item reading like the home entry leads to the root. */
  lemma ClickHome(items: seq<string>, k: nat)
    requires k < |items| && items[k] == Home
    ensures ClickTarget(items, k) == ""
  {
  }

  /** A click on any item but the home entry leads to "/" followed by the
      items from 1 up to the clicked one, joined by "/". */
  lemma ClickJoined(items: seq<string>, k: nat)
    requires 1 <= k < |items| && items[k] != Home
    ensures ClickTarget(items, k) == [Sep] + Join(items[1..k + 1])
  {
    PrefixedIsJoin(items[1..k + 1]);
    JoinCons("", items[1..k + 1]);
  }

  /** An absolute path splits into an empty first piece and the rest, and
      "/" joined with the rest spells it again. */
  lemma AbsoluteParts(p: string)
    requires |p| >= 1 && p[0] == Sep
    ensures |Split(p)| >= 2 && Split(p)[0] == ""
    ensures Prefixed(Split(p)[1..]) == p
  {
    var parts := Split(p);
    assert parts == [""] + Split(p[1..]);
    PrefixedIsJoin(parts[1..]);
    assert [""] + parts[1..] == parts;
    JoinSplit(p);
  }

  /** Displaying the root or an absolute path whose last component is not
      named like the home entry, then clicking the last item, gives the path
      back. Only the clicked item's own text is compared with the home
      entry, so the other components may have any name. */
  lemma DisplayThenClickLast(p: string)
    requires p == "" || (p[0] == Sep && Basename(p) != Home)
    ensures ClickTarget(DisplayedItems(p), |Split(p)| - 1) == p
  {
    if p != "" {
      AbsoluteParts(p);
      var parts := Split(p);
      var n := |parts|;
      var items := DisplayedItems(p);
      assert items[1..n] == parts[1..] && items[n - 1] == parts[n - 1];
    }
  }

  /** A folder whose name is the home entry's cannot be reached: a click on
      it leads to the root. */
  lemma HomeNamedFolderLeadsToRoot(p: string)
    requires Sep in p && Basename(p) == Home
    ensures ClickTarget(DisplayedItems(p), |Split(p)| - 1) == ""
    ensures p != ""
  {
    SplitSingle(p);
    var n := |Split(p)|;
    var items := DisplayedItems(p);
    assert items[n - 1] == Home;
    ClickHome(items, n - 1);
  }

  /** The concrete case: the folder "/My Dropbox" sits right below the
      root, and a click on it leads back to the root. */
  lemma HomeNamedFolderExample()
    ensures Split("/My Dropbox") == ["", Home]
    ensures ClickTarget(DisplayedItems("/My Dropbox"), 1) == ""
  {
    var p := "/My Dropbox";
    assert p == [Sep] + Home;
    assert Split(p) == [""] + Split(Home);
    SplitNoSep(Home);
    ClickHome(DisplayedItems(p), 1);
  }

  function UploadTask(folder: bool, chosen: string, currentDirectory: string, dbxPath: string): Task
  {
    Task(if folder then "upload_folder" else "upload_file",
         map["path" := chosen, "dbx_path" := dbxPath,
             "description" := "Upload " + Quoted(chosen) + " to " + Quoted(currentDirectory)])
  }

  /** The "Upload file" (`folder` false) and "Upload folder" actions of the
      item list; `chosen` is the dialog's answer. The upload lands directly
      in the list's current directory under the chosen entry's name. */
  method Upload(list: ItemLists.ItemList, folder: bool, chosen: string) returns (task: Task)
    ensures task == UploadTask(folder, chosen, list.currentDirectory,
                               list.currentDirectory + [Sep] + Basename(chosen))
    ensures Split(task.params["dbx_path"]) == Split(list.currentDirectory) + [Basename(chosen)]
    ensures Dirname(task.params["dbx_path"]) == Split(list.currentDirectory)
    ensures Basename(task.params["dbx_path"]) == Basename(chosen)
  {
    var dbxPath := list.currentDirectory + [Sep] + Basename(chosen);
    SplitAppend(list.currentDirectory, Basename(chosen));
    SplitNoSep(Basename(chosen));
    task := UploadTask(folder, chosen, list.currentDirectory, dbxPath);
  }

  const ZipSuffix: string := ".zip"

  function DownloadTask(path: string, localPath: string): Task
  {
    Task("download", map["path" := path, "local_path" := localPath,
                         "description" := "Download " + Quoted(path) + " to " + Quoted(localPath)])
  }

  /** The "Download" action of a Dropbox item: `home` is the user's home
      directory and `chosen` the save dialog's answer ("" when cancelled).
      The suggested name is the item's basename in ~/Downloads, with ".zip"
      appended exactly for folders. */
  method Download(item: ExplorerItem, home: string, chosen: string) returns (suggested: string, task: Option<Task>)
    ensures var plain := home + "/Downloads/" + item.basename;
            && (item.isFile ==> suggested == plain)
            && (!item.isFile ==> suggested == plain + ZipSuffix)
    ensures task.Some? <==> chosen != ""
    ensures task.Some? ==> task.value == DownloadTask(item.path, chosen)
  {
    suggested := home + "/Downloads/" + item.basename;
    suggested := suggested + (if item.isFile then "" else ZipSuffix);
    if chosen != "" {
      task := Some(DownloadTask(item.path, chosen));
    } else {
      task := None;
    }
  }
}

module LocalExplorer {
  import opened PathText

  /** What the panel lists after displaying `path`: the components from the
      root's last one on (Python's clamped slice, empty past the end). */
  function Shown(path: string, rootIndex: nat): (items: seq<string>)
    requires rootIndex >= 1
    ensures |items| == if rootIndex - 1 <= |Split(path)| then |Split(path)| - (rootIndex - 1) else 0
    ensures items == Split(path)[|Split(path)| - |items|..]
  {
    var parts := Split(path);
    if rootIndex - 1 <= |parts| then parts[rootIndex - 1..] else []
  }

  /** Where a click on item `k` leads. */
  function ClickTarget(basePath: string, items: seq<string>, k: nat): string
    requires k < |items|
  {
    basePath + Prefixed(items[..k + 1])
  }

  class LocalDirectoryPanel {
    var currentDirectory: string
    const rootDirectoryIndex: nat
    const basePath: string
    var items: seq<string>

    ghost predicate Valid()
      reads this
    {
      rootDirectoryIndex >= 1
    }

    /** The panel of the explorer rooted at `currentDirectory`: it remembers
        how many components the root has and the path in front of its last
        component, and lists only that last component. */
    constructor (currentDirectory: string)
      ensures Valid()
      ensures this.currentDirectory == currentDirectory
      ensures rootDirectoryIndex == |Split(currentDirectory)|
      ensures basePath == Join(Dirname(currentDirectory))
      ensures items == [Basename(currentDirectory)]
    {
      var rootPath := Split(currentDirectory);
      this.currentDirectory := currentDirectory;
      rootDirectoryIndex := |rootPath|;
      basePath := Join(rootPath[..|rootPath| - 1]);
      items := [rootPath[|rootPath| - 1]];
    }

    method ChangeDisplayedDirectories(path: string)
      requires Valid()
      modifies this
      ensures Valid()
      ensures currentDirectory == path && items == Shown(path, rootDirectoryIndex)
    {
      currentDirectory := path;
      items := [];
      var parts := Split(path);
      var directories := if rootDirectoryIndex - 1 <= |parts| then parts[rootDirectoryIndex - 1..] else [];
      items := items + directories;
    }

    /** `change_path`: the clicked item is `items[k]`. The panel shows the
        new path before it is handed on to the explorer, which is the
        result. */
    method ChangePath(k: nat) returns (newPath: string)
      requires Valid() && k < |items|
      modifies this
      ensures newPath == ClickTarget(basePath, old(items), k)
      ensures Valid()
      ensures currentDirectory == newPath && items == Shown(newPath, rootDirectoryIndex)
    {
      newPath := basePath;
      var i := 0;
      while true
        invariant 0 <= i <= k
        invariant newPath == basePath + Prefixed(items[..i])
        decreases k - i
      {
        newPath := newPath + [Sep] + items[i];
        assert items[..i + 1][..i] == items[..i];
        if i == k {
          break;
        }
        i := i + 1;
      }
      ChangeDisplayedDirectories(newPath);
    }
  }

  /** A click on item k leads to the base path, "/", and the items up to the
      clicked one joined by "/". */
  lemma ClickJoined(basePath: string, items: seq<string>, k: nat)
    requires k < |items|
    ensures ClickTarget(basePath, items, k) == basePath + [Sep] + Join(items[..k + 1])
  {
    PrefixedIsJoin(items[..k + 1]);
    JoinCons("", items[..k + 1]);
  }

  /** Right after construction, the only item leads back to the root, as
      long as the root holds a separator. */
  lemma ClickRootAfterConstruction(root: string)
    requires Sep in root
    ensures ClickTarget(Join(Dirname(root)), [Basename(root)], 0) == root
  {
    SplitSingle(root);
    var b := Basename(root);
    assert [b][..1] == [b] && [b][..0] == [];
    assert Prefixed([b]) == [Sep] + b;
    JoinSnoc(Dirname(root), b);
    DirnameBasename(root);
    JoinSplit(root);
  }

  /** A root without a separator has an empty base path, so its only item
      leads to "/" in front of the root instead of the root itself. */
  lemma ClickMissesRootWithoutSep(root: string)
    requires Sep !in root
    ensures ClickTarget(Join(Dirname(root)), [Basename(root)], 0) == [Sep] + root
    ensures ClickTarget(Join(Dirname(root)), [Basename(root)], 0) != root
  {
    SplitNoSep(root);
    assert [root][..1] == [root] && [root][..0] == [];
    assert Prefixed([root]) == [Sep] + root;
  }

  /** The root's components begin the components of the root itself and
      of every path below it. */
  lemma {:induction false} BelowRoot(root: string, p: string)
    requires p == root || (|root| < |p| && p[..|root| + 1] == root + [Sep])
    ensures |Split(root)| <= |Split(p)| && Split(p)[..|Split(root)|] == Split(root)
  {
    if p != root {
      var rest := p[|root| + 1..];
      assert p == root + [Sep] + rest;
      SplitAppend(root, rest);
    }
  }

  /** Clicking the last of the items from component j on, with the
      components before j as base path, spells all the components. */
  lemma ClickLastOfSuffix(parts: seq<string>, j: nat)
    requires 1 <= j < |parts|
    ensures ClickTarget(Join(parts[..j]), parts[j..], |parts| - j - 1) == Join(parts)
  {
    assert parts[j..][..|parts| - j] == parts[j..];
    PrefixedJoin(parts, j);
  }

  /** Displaying a path whose components before the root's last one are
      the root's own leading components, then clicking the last item, gives
      the path back. This holds for the root, for every path below it, and
      also for the children of a root ending in "/". */
  lemma DisplayThenClickLast(root: string, p: string)
    requires Sep in root
    requires |Split(root)| <= |Split(p)| && Split(p)[..|Split(root)| - 1] == Dirname(root)
    ensures var items := Shown(p, |Split(root)|);
            && |items| >= 1
            && ClickTarget(Join(Dirname(root)), items, |items| - 1) == p
  {
    SplitSingle(root);
    var parts, n := Split(p), |Split(root)|;
    var items := Shown(p, n);
    assert items == parts[n - 1..];
    ClickLastOfSuffix(parts, n - 1);
    assert ClickTarget(Join(Dirname(root)), items, |items| - 1) == Join(parts);
    JoinSplit(p);
  }

  /** Displaying the root or a path below it, then clicking the last item,
      gives the path back. */
  lemma DisplayDescendantThenClickLast(root: string, p: string)
    requires Sep in root
    requires p == root || (|root| < |p| && p[..|root| + 1] == root + [Sep])
    ensures var items := Shown(p, |Split(root)|);
            && |items| >= 1
            && ClickTarget(Join(Dirname(root)), items, |items| - 1) == p
  {
    BelowRoot(root, p);
    var n := |Split(root)|;
    SplitSingle(root);
    assert Split(p)[..n - 1] == Dirname(root) by {
      assert Split(p)[..n][..n - 1] == Split(p)[..n - 1];
    }
    DisplayThenClickLast(root, p);
  }

  /** The file system root "/" shows its child "/x" as the single item "x",
      and a click on it leads back to "/x". */
  lemma SlashRootChild()
    ensures Split("/") == ["", ""] && Split("/x") == ["", "x"]
    ensures Shown("/x", |Split("/")|) == ["x"]
    ensures ClickTarget(Join(Dirname("/")), ["x"], 0) == "/x"
  {
    assert "/" == "" + [Sep] + "";
    SplitAppend("", "");
    assert "/x" == "" + [Sep] + "x";
    SplitAppend("", "x");
    SplitNoSep("x");
    DisplayThenClickLast("/", "/x");
  }
}
