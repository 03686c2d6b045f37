/**
 * The local listings: `LocalModel.get_list_of_paths`
 * (package/model/local_model.py) sorts a directory's children by their
 * lower-cased basename, the older `get_list_of_paths` of
 * package/utils/local_utils.py by the basename as it is. The children
 * (`Path(directory).iterdir()`, each resolved and asked `is_file()`) are an
 * input.
 */
module LocalModel {
  import opened PathText
  import opened Sorting

  /** A child of the listed directory: its resolved path and whether it is
      a file. */
  datatype Child = Child(resolved: string, isFile: bool)

  /** The pairs the loop appends, in iteration order. */
  function Collected(children: seq<Child>): (pairs: seq<(string, bool)>)
    ensures |pairs| == |children|
  {
    seq(|children|, i requires 0 <= i < |children| => (children[i].resolved, children[i].isFile))
  }

  /** The sort key `lambda item: item[0].split("/")[-1].lower()`. */
  function LowerBasenameKey(item: (string, bool)): string
  {
    Lower(Basename(item.0))
  }

  method GetListOfPaths(children: seq<Child>) returns (fileList: seq<(string, bool)>)
    ensures |fileList| == |children|
    ensures multiset(fileList) == multiset(Collected(children))
    ensures SortedBy(fileList, LowerBasenameKey)
    ensures StableFrom(fileList, Collected(children), LowerBasenameKey)
  {
    fileList := [];
    for i := 0 to |children|
      invariant fileList == Collected(children[..i])
    {
      fileList := fileList + [(children[i].resolved, children[i].isFile)];
    }
    assert children[..|children|] == children;
    SortByCorrect(fileList, LowerBasenameKey);
    fileList := SortBy(fileList, LowerBasenameKey);
  }

  /** Two children whose basenames differ only in ASCII case get the same
      sort key, so the sorted listing keeps all pairs with that key, these
      two among them, in iteration order. */
  lemma CaseVariantsKeepOrder(children: seq<Child>, a: (string, bool), b: (string, bool))
    requires |Basename(a.0)| == |Basename(b.0)|
    requires forall i :: 0 <= i < |Basename(a.0)| ==> SameIgnoringCase(Basename(a.0)[i], Basename(b.0)[i])
    ensures LowerBasenameKey(a) == LowerBasenameKey(b)
    ensures WithKey(SortBy(Collected(children), LowerBasenameKey), LowerBasenameKey, LowerBasenameKey(a))
            == WithKey(Collected(children), LowerBasenameKey, LowerBasenameKey(a))
  {
    var x, y := Basename(a.0), Basename(b.0);
    forall i | 0 <= i < |x| ensures Lower(x)[i] == Lower(y)[i] {
      LowerCharAlike(x[i], y[i]);
    }
    SortByCorrect(Collected(children), LowerBasenameKey);
  }

  /** One pair per child, each pair carrying its child's path and flag: the
      multiset of the result is that of the children. */
  lemma {:induction false} CollectedPairs(children: seq<Child>, c: Child)
    ensures (c.resolved, c.isFile) in multiset(Collected(children)) <==> c in children
    ensures multiset(Collected(children))[(c.resolved, c.isFile)] == multiset(children)[c]
    decreases |children|
  {
    if children != [] {
      CollectedPairs(children[1..], c);
      assert Collected(children) == [(children[0].resolved, children[0].isFile)] + Collected(children[1..]);
      assert children == [children[0]] + children[1..];
    }
  }
}

module LocalUtils {
  import opened PathText
  import opened Sorting
  import LocalModel

  /** The sort key `lambda item: item[0].split("/")[-1]`: case-sensitive. */
  function BasenameKey(item: (string, bool)): string
  {
    Basename(item.0)
  }

  method GetListOfPaths(children: seq<LocalModel.Child>) returns (fileList: seq<(string, bool)>)
    ensures |fileList| == |children|
    ensures multiset(fileList) == multiset(LocalModel.Collected(children))
    ensures SortedBy(fileList, BasenameKey)
    ensures StableFrom(fileList, LocalModel.Collected(children), BasenameKey)
  {
    fileList := [];
    for i := 0 to |children|
      invariant fileList == LocalModel.Collected(children[..i])
    {
      fileList := fileList + [(children[i].resolved, children[i].isFile)];
    }
    assert children[..|children|] == children;
    SortByCorrect(fileList, BasenameKey);
    fileList := SortBy(fileList, BasenameKey);
  }

  /** The two listings disagree: "B" sorts before "a" by code point, after
      it once lower-cased. */
  lemma CaseChangesOrder()
    ensures var pairs := [("/d/a", true), ("/d/B", true)];
            && SortBy(pairs, LocalModel.LowerBasenameKey) == pairs
            && SortBy(pairs, BasenameKey) == [pairs[1], pairs[0]]
  {
    var x, y := ("/d/a", true), ("/d/B", true);
    assert Basename(x.0) == "a" by {
      assert x.0 == [Sep] + "d" + [Sep] + "a";
      SplitAppend([Sep] + "d", "a");
      SplitNoSep("a");
    }
    assert Basename(y.0) == "B" by {
      assert y.0 == [Sep] + "d" + [Sep] + "B";
      SplitAppend([Sep] + "d", "B");
      SplitNoSep("B");
    }
    SortPair(x, y, LocalModel.LowerBasenameKey);
    assert Below(LocalModel.LowerBasenameKey(x), LocalModel.LowerBasenameKey(y)) by {
      assert Lower("a") == "a" && Lower("B") == "b";
    }
    SortPair(x, y, BasenameKey);
    assert !Below(BasenameKey(x), BasenameKey(y));
  }

  /** The target of `rename(path, new_name)`: the path with its last
      component replaced by `new_name`. */
  function RenameTarget(path: string, newName: string): (target: string)
    ensures Sep !in path ==> target == newName
    ensures Sep in path ==> target == Join(Dirname(path)) + [Sep] + newName
  {
    SplitSingle(path);
    if Sep in path then
      JoinSnoc(Dirname(path), newName);
      Join(Dirname(path) + [newName])
    else
      Join(Dirname(path) + [newName])
  }

  /** A name without a separator replaces exactly the last component: same
      parent components, same number of components, and the new name as
      basename. */
  lemma RenameKeepsParent(path: string, newName: string)
    requires Sep !in newName
    ensures Split(RenameTarget(path, newName)) == Dirname(path) + [newName]
    ensures |Split(RenameTarget(path, newName))| == |Split(path)|
    ensures Dirname(RenameTarget(path, newName)) == Dirname(path)
    ensures Basename(RenameTarget(path, newName)) == newName
  {
    var parts := Dirname(path) + [newName];
    SplitPieces(path);
    forall i | 0 <= i < |parts| ensures Sep !in parts[i] {
      if i < |parts| - 1 { assert parts[i] == Split(path)[i]; }
    }
    SplitJoin(parts);
  }

  /** Renaming to the current basename gives back the path. */
  lemma RenameToSameName(path: string)
    ensures RenameTarget(path, Basename(path)) == path
  {
    DirnameBasename(path);
    JoinSplit(path);
  }

  /** The target's basename is the new name exactly when the new name holds
      no separator. */
  lemma RenameBasename(path: string, newName: string)
    ensures Basename(RenameTarget(path, newName)) == newName <==> Sep !in newName
  {
    if Sep !in newName {
      RenameKeepsParent(path, newName);
    } else {
      var target := RenameTarget(path, newName);
      if Sep in path {
        SplitAppend(Join(Dirname(path)), newName);
      } else {
        assert target == newName;
      }
      assert Basename(target) == Basename(newName);
    }
  }
}
