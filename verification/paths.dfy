/**
 * Path strings as the explorers and the ledger handle them: Python's
 * `s.split("/")` and `"/".join(parts)`, the last component of a path, and
 * the `"/" + part` accumulation the directory panels perform.
 */
module PathText {

  const Sep: char := '/'

  /** `s.split("/")`: the pieces between separators; there is always one
      more piece than there are separators, so never zero. */
  function Split(s: string): (parts: seq<string>)
    ensures |parts| >= 1
  {
    SplitFrom(s, "")
  }

  /** The split of `s` when `piece` has already been read in front of it
      since the last separator. */
  function SplitFrom(s: string, piece: string): (parts: seq<string>)
    ensures |parts| >= 1
    decreases |s|
  {
    if s == [] then [piece]
    else if s[0] == Sep then [piece] + SplitFrom(s[1..], "")
    else SplitFrom(s[1..], piece + [s[0]])
  }

  /** No piece of a split holds a separator. */
  lemma {:induction false} SplitFromPieces(s: string, piece: string)
    requires Sep !in piece
    ensures forall i :: 0 <= i < |SplitFrom(s, piece)| ==> Sep !in SplitFrom(s, piece)[i]
    decreases |s|
  {
    if s != [] {
      if s[0] == Sep {
        SplitFromPieces(s[1..], "");
      } else {
        SplitFromPieces(s[1..], piece + [s[0]]);
      }
    }
  }

  lemma SplitPieces(s: string)
    ensures forall i :: 0 <= i < |Split(s)| ==> Sep !in Split(s)[i]
  {
    SplitFromPieces(s, "");
  }

  /** `"/".join(parts)` */
  function Join(parts: seq<string>): string
  {
    if |parts| == 0 then ""
    else if |parts| == 1 then parts[0]
    else parts[0] + [Sep] + Join(parts[1..])
  }

  /** `s.split("/")[-1]` */
  function Basename(s: string): (b: string)
    ensures Sep !in b
  {
    SplitPieces(s);
    var parts := Split(s);
    parts[|parts| - 1]
  }

  /** `s.split("/")[:-1]`: every component but the last. */
  function Dirname(s: string): seq<string>
  {
    var parts := Split(s);
    parts[..|parts| - 1]
  }

  /** The string built by starting from "" and appending `"/" + part` for each
      part in turn, as the panels' `change_path` loops do. */
  function Prefixed(parts: seq<string>): string
  {
    if parts == [] then ""
    else Prefixed(parts[..|parts| - 1]) + [Sep] + parts[|parts| - 1]
  }

  lemma {:induction false} JoinCons(p: string, parts: seq<string>)
    requires |parts| >= 1
    ensures Join([p] + parts) == p + [Sep] + Join(parts)
  {
    assert ([p] + parts)[1..] == parts;
  }

  lemma {:induction false} JoinSnoc(parts: seq<string>, x: string)
    requires |parts| >= 1
    ensures Join(parts + [x]) == Join(parts) + [Sep] + x
    decreases |parts|
  {
    if |parts| == 1 {
      assert parts + [x] == [parts[0]] + [x];
      JoinCons(parts[0], [x]);
    } else {
      assert (parts + [x])[1..] == parts[1..] + [x];
      JoinSnoc(parts[1..], x);
    }
  }

  /** A string without separators is read into the current piece. */
  lemma {:induction false} SplitFromNoSep(s: string, piece: string)
    requires Sep !in s
    ensures SplitFrom(s, piece) == [piece + s]
    decreases |s|
  {
    if s == [] {
      assert piece + s == piece;
    } else {
      assert s[0] != Sep && Sep !in s[1..];
      SplitFromNoSep(s[1..], piece + [s[0]]);
      assert piece + [s[0]] + s[1..] == piece + s;
    }
  }

  /** A string without separators is its own single piece. */
  lemma SplitNoSep(s: string)
    requires Sep !in s
    ensures Split(s) == [s]
  {
    SplitFromNoSep(s, "");
    assert "" + s == s;
  }

  lemma {:induction false} SplitFromSingle(s: string, piece: string)
    ensures |SplitFrom(s, piece)| == 1 <==> Sep !in s
    decreases |s|
  {
    if s != [] {
      if s[0] == Sep {
        assert |SplitFrom(s, piece)| >= 2;
      } else {
        SplitFromSingle(s[1..], piece + [s[0]]);
        assert Sep in s <==> Sep in s[1..];
      }
    }
  }

  /** A string splits into one piece exactly when it holds no separator. */
  lemma SplitSingle(s: string)
    ensures |Split(s)| == 1 <==> Sep !in s
  {
    SplitFromSingle(s, "");
  }

  lemma {:induction false} SplitFromAppend(a: string, b: string, piece: string)
    ensures SplitFrom(a + [Sep] + b, piece) == SplitFrom(a, piece) + Split(b)
    decreases |a|
  {
    var s := a + [Sep] + b;
    if a == [] {
      assert s[0] == Sep && s[1..] == b;
    } else {
      assert s[0] == a[0] && s[1..] == a[1..] + [Sep] + b;
      if a[0] == Sep {
        SplitFromAppend(a[1..], b, "");
      } else {
        SplitFromAppend(a[1..], b, piece + [a[0]]);
      }
    }
  }

  /** Splitting `a + "/" + b` splits the two sides independently. */
  lemma SplitAppend(a: string, b: string)
    ensures Split(a + [Sep] + b) == Split(a) + Split(b)
  {
    SplitFromAppend(a, b, "");
  }

  lemma {:induction false} JoinSplitFrom(s: string, piece: string)
    ensures Join(SplitFrom(s, piece)) == piece + s
    decreases |s|
  {
    if s != [] {
      if s[0] == Sep {
        JoinSplitFrom(s[1..], "");
        JoinCons(piece, SplitFrom(s[1..], ""));
        assert piece + [Sep] + s[1..] == piece + s;
      } else {
        JoinSplitFrom(s[1..], piece + [s[0]]);
        assert piece + [s[0]] + s[1..] == piece + s;
      }
    }
  }

  /** `"/".join(s.split("/")) == s` */
  lemma JoinSplit(s: string)
    ensures Join(Split(s)) == s
  {
    JoinSplitFrom(s, "");
  }

  /** `"/".join(parts).split("/") == parts` when no part holds a separator. */
  lemma {:induction false} SplitJoin(parts: seq<string>)
    requires |parts| >= 1
    requires forall i :: 0 <= i < |parts| ==> Sep !in parts[i]
    ensures Split(Join(parts)) == parts
    decreases |parts|
  {
    SplitNoSep(parts[0]);
    if |parts| > 1 {
      SplitJoin(parts[1..]);
      JoinCons(parts[0], parts[1..]);
      SplitAppend(parts[0], Join(parts[1..]));
      assert parts == [parts[0]] + parts[1..];
    }
  }

  /** Appending a component with the split/append/join idiom is `s + "/" + x`. */
  lemma AppendComponent(s: string, x: string)
    ensures Join(Split(s) + [x]) == s + [Sep] + x
  {
    JoinSnoc(Split(s), x);
    JoinSplit(s);
  }

  /** A path splits into its leading components and its basename. */
  lemma DirnameBasename(s: string)
    ensures Dirname(s) + [Basename(s)] == Split(s)
  {
  }

  /** Starting the accumulation from `Join(parts[..j])` and appending the rest
      reproduces the joined path. */
  lemma {:induction false} PrefixedJoin(parts: seq<string>, j: nat)
    requires 1 <= j <= |parts|
    ensures Join(parts[..j]) + Prefixed(parts[j..]) == Join(parts)
    decreases |parts|
  {
    if j == |parts| {
      assert parts[..j] == parts;
    } else {
      var n := |parts|;
      var init := parts[..n - 1];
      PrefixedJoin(init, j);
      assert init[..j] == parts[..j];
      assert parts[j..][..|parts[j..]| - 1] == init[j..];
      assert parts[j..][|parts[j..]| - 1] == parts[n - 1];
      JoinSnoc(init, parts[n - 1]);
      assert init + [parts[n - 1]] == parts;
    }
  }

  /** The accumulation from "" is the join of the parts behind a leading "". */
  lemma PrefixedIsJoin(parts: seq<string>)
    ensures Prefixed(parts) == Join([""] + parts)
  {
    PrefixedJoin([""] + parts, 1);
    assert ([""] + parts)[..1] == [""];
    assert ([""] + parts)[1..] == parts;
  }
}
