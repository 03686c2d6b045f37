/**
 * The explorer's item widgets (package/ui/widgets/explorers/base/): an
 * `ExplorerItem` keeps its `path` and `basename` and turns the rename and
 * delete dialogs into tasks; an `ItemList` keeps the list of selected items
 * and turns the create-folder dialog into a task.
 *
 * Dialog answers are inputs; the emitted task is the method's result.
 * Painting, layouts and event filters are not modelled.
 */
module ExplorerItems {
  import opened PathText
  import opened Wrappers
  import opened Tasks
  import LocalUtils

  /** The two buttons of the delete confirmation. */
  datatype Answer = Yes | Cancel

  function RenameTask(path: string, newPath: string): Task
  {
    Task("rename", map["path" := path, "new_path" := newPath,
                       "description" := "Rename " + Quoted(path) + " to " + Quoted(newPath)])
  }

  function DeleteTask(path: string): Task
  {
    Task("delete", map["path" := path, "description" := "Delete " + Quoted(path)])
  }

  class ExplorerItem {
    var path: string
    var basename: string
    const isFile: bool

    /** The label shows the last component of the item's path. */
    ghost predicate Consistent()
      reads this
    {
      basename == Basename(path)
    }

    constructor (path: string, isFile: bool)
      ensures this.path == path && this.isFile == isFile
      ensures Consistent()
    {
      this.path := path;
      this.basename := Basename(path);
      this.isFile := isFile;
    }

    /** The "Rename" action; `text` and `ok` are the input dialog's answer.
        Nothing happens unless the dialog was accepted with some text. */
    method Rename(text: string, ok: bool) returns (task: Option<Task>)
      modifies this
      ensures !(ok && text != "") ==> task == None && path == old(path) && basename == old(basename)
      ensures ok && text != "" ==>
        && path == LocalUtils.RenameTarget(old(path), text)
        && basename == text
        && task == Some(RenameTask(old(path), path))
      ensures ok && text != "" ==> (Consistent() <==> Sep !in text)
    {
      if ok && text != "" {
        var newPath := Split(path);
        newPath := newPath[..|newPath| - 1];
        newPath := newPath + [text];
        var target := Join(newPath);
        task := Some(RenameTask(path, target));
        LocalUtils.RenameBasename(path, text);
        path := target;
        basename := text;
      } else {
        task := None;
      }
    }

    /** The "Delete" action; `answer` is the confirmation box's answer. */
    method Delete(answer: Answer) returns (task: Option<Task>)
      ensures task.Some? <==> answer == Yes
      ensures task.Some? ==> task.value == DeleteTask(path)
    {
      if answer == Yes {
        task := Some(DeleteTask(path));
      } else {
        task := None;
      }
    }
  }
}

module ItemLists {
  import opened PathText
  import opened Wrappers
  import opened Tasks
  import opened ExplorerItems

  /** Python's `list.remove(x)`: drops the first occurrence of `x`. */
  function RemoveFirst<T(==)>(s: seq<T>, x: T): (r: seq<T>)
    requires x in s
    ensures |r| == |s| - 1
  {
    if s[0] == x then s[1..] else [s[0]] + RemoveFirst(s[1..], x)
  }

  /** The selection after `item_selection_state_changed(x)`. */
  function Toggled<T(==)>(s: seq<T>, x: T): seq<T>
  {
    if x in s then RemoveFirst(s, x) else s + [x]
  }

  ghost predicate NoDuplicates<T>(s: seq<T>)
  {
    forall i, j :: 0 <= i < j < |s| ==> s[i] != s[j]
  }

  /** Removing the first occurrence at index i cuts exactly s[i] out. */
  lemma {:induction false} RemoveFirstAt<T>(s: seq<T>, x: T, i: nat)
    requires i < |s| && s[i] == x && x !in s[..i]
    ensures RemoveFirst(s, x) == s[..i] + s[i + 1..]
    decreases i
  {
    if i > 0 {
      assert s[0] != x by { assert s[0] == s[..i][0]; }
      assert s[1..][..i - 1] == s[1..i];
      RemoveFirstAt(s[1..], x, i - 1);
      assert s[..i] == [s[0]] + s[1..i];
    }
  }

  lemma IndexOf<T>(s: seq<T>, x: T) returns (i: nat)
    requires x in s && NoDuplicates(s)
    ensures i < |s| && s[i] == x && x !in s[..i] && x !in s[i + 1..]
  {
    i :| i < |s| && s[i] == x;
  }

  /** Toggling flips the membership of the toggled item only, and keeps a
      list without repeats free of repeats. */
  lemma ToggleSpec<T>(s: seq<T>, x: T)
    requires NoDuplicates(s)
    ensures NoDuplicates(Toggled(s, x))
    ensures x in Toggled(s, x) <==> x !in s
    ensures forall y :: y != x ==> (y in Toggled(s, x) <==> y in s)
  {
    if x in s {
      var i := IndexOf(s, x);
      RemoveFirstAt(s, x, i);
      var r := s[..i] + s[i + 1..];
      forall a, b | 0 <= a < b < |r| ensures r[a] != r[b] {
        var a', b' := if a < i then a else a + 1, if b < i then b else b + 1;
        assert r[a] == s[a'] && r[b] == s[b'];
      }
      forall y | y != x ensures y in r <==> y in s {
        if y in s {
          var j :| 0 <= j < |s| && s[j] == y;
          assert j != i;
          assert r[if j < i then j else j - 1] == y;
        }
      }
    }
  }

  /** Toggling an unselected item twice restores the list. */
  lemma ToggleTwiceAbsent<T>(s: seq<T>, x: T)
    requires x !in s
    ensures Toggled(Toggled(s, x), x) == s
  {
    RemoveFirstAt(s + [x], x, |s|);
    assert (s + [x])[..|s|] == s;
  }

  /** Toggling a selected item twice moves it to the end; all the others
      keep their relative order. */
  lemma ToggleTwicePresent<T>(s: seq<T>, x: T)
    requires x in s && NoDuplicates(s)
    ensures exists i :: 0 <= i < |s| && s[i] == x &&
              Toggled(Toggled(s, x), x) == s[..i] + s[i + 1..] + [x]
  {
    var i := IndexOf(s, x);
    RemoveFirstAt(s, x, i);
    assert x !in s[..i] + s[i + 1..];
  }

  /** The explorer whose current directory the item list reads. */
  class Explorer {
    var currentDirectory: string

    constructor (currentDirectory: string)
      ensures this.currentDirectory == currentDirectory
    {
      this.currentDirectory := currentDirectory;
    }
  }

  function CreateFolderTask(path: string): Task
  {
    Task("create_folder", map["path" := path, "description" := "Create folder " + Quoted(path)])
  }

  class ItemList {
    const explorer: Explorer
    var currentDirectory: string
    var selectedItems: seq<ExplorerItem>

    /** An item is selected at most once. */
    ghost predicate Valid()
      reads this
    {
      NoDuplicates(selectedItems)
    }

    constructor (explorer: Explorer, currentDirectory: string)
      ensures Valid() && selectedItems == []
      ensures this.explorer == explorer && this.currentDirectory == currentDirectory
    {
      this.explorer := explorer;
      this.currentDirectory := currentDirectory;
      selectedItems := [];
    }

    /** `item_selection_state_changed`: the item's checkbox changed; the
        result is the count the `selection_num_changed` signal carries. */
    method ItemSelectionStateChanged(item: ExplorerItem) returns (count: nat)
      requires Valid()
      modifies this`selectedItems
      ensures Valid()
      ensures selectedItems == Toggled(old(selectedItems), item)
      ensures item in selectedItems <==> item !in old(selectedItems)
      ensures forall other :: other != item ==> (other in selectedItems <==> other in old(selectedItems))
      ensures count == |selectedItems|
    {
      ToggleSpec(selectedItems, item);
      if item in selectedItems {
        selectedItems := RemoveFirst(selectedItems, item);
      } else {
        selectedItems := selectedItems + [item];
      }
      count := |selectedItems|;
    }

    /** The "Create Folder" action; `text` and `ok` are the input dialog's
        answer. The new folder goes into the explorer's current directory. */
    method CreateFolder(text: string, ok: bool) returns (task: Option<Task>)
      ensures task.Some? <==> ok && text != ""
      ensures task.Some? ==> task.value == CreateFolderTask(explorer.currentDirectory + [Sep] + text)
    {
      if ok && text != "" {
        var path := Split(explorer.currentDirectory);
        path := path + [text];
        var joined := Join(path);
        AppendComponent(explorer.currentDirectory, text);
        task := Some(CreateFolderTask(joined));
      } else {
        task := None;
      }
    }
  }
}
