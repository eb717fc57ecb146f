/**
 * What one run of fs-lint computes, as functions of the tree it scans: the issue for
 * one path, the issues of a whole traversal in the order they are reported, and the
 * tree a fix run leaves behind.
 */
module Lint {
  import opened Wrappers
  import opened TrimString
  import opened Paths
  import opened FileSystem

  /** The run's action: report the badly named entries, or rename them. */
  datatype Mode = List | Fix

  /** One badly named entry: its path and the path it has (or would have) once trimmed. */
  datatype Issue = Issue(action: Mode, original: Path, fixed: Path)

  /** `join(dirname(path), basename(path).trimStart().trimEnd())` */
  function TrimmedPath(p: Path): Path
    requires p != []
  {
    Join(Parent(p), Trim(BaseName(p)))
  }

  /** The value `lintPath` returns: an issue when the trimmed path differs from `p`. */
  function PathIssue(mode: Mode, p: Path): Option<Issue>
    requires p != []
  {
    var t := TrimmedPath(p);
    if p != t then Some(Issue(mode, p, t)) else None
  }

  /**
   * An entry with a non-empty name has an issue exactly when trimming changes its name;
   * the issue carries the run's mode and the entry's path, and its fixed path is the
   * sibling with the trimmed, already trimmed, name. A name that is all white space
   * trims to "", and `join` then yields the directory that holds the entry.
   */
  lemma PathIssueSpec(mode: Mode, p: Path)
    requires p != [] && BaseName(p) != ""
    ensures PathIssue(mode, p).Some? <==> Trim(BaseName(p)) != BaseName(p)
    ensures PathIssue(mode, p).Some? ==>
              var issue := PathIssue(mode, p).value;
              && issue.action == mode
              && issue.original == p
              && (Trim(BaseName(p)) != "" ==>
                    && issue.fixed != []
                    && Parent(issue.fixed) == Parent(p)
                    && BaseName(issue.fixed) == Trim(BaseName(p))
                    && IsTrimmed(BaseName(issue.fixed))
                    && Trim(BaseName(issue.fixed)) == BaseName(issue.fixed))
              && (Trim(BaseName(p)) == "" ==> issue.fixed == Parent(p))
  {
    assert p == Parent(p) + [BaseName(p)];
  }

  /**
   * Renaming entry `k` of `dir` to its trimmed name, once the directory's entries are
   * the listing `cs` with entry `k` replaced by `inner` (the same entry with only its
   * insides changed): it goes through exactly when the trimmed name is valid and no
   * sibling has it, and then changes that one name.
   */
  lemma RenameToTrimmed(root: seq<Node>, dir: Path, cs: seq<Node>, inner: Node, k: nat)
    requires Listing(root, dir).Some? && k < |cs| && inner.name == cs[k].name
    requires WellFormed(cs[k := inner])
    requires Trim(cs[k].name) != cs[k].name
    ensures var p := dir + [cs[k].name];
            var t := Trim(cs[k].name);
            var state := Replace(root, dir, cs[k := inner]);
            && (CanRename(state, p, TrimmedPath(p)) <==> ValidName(t) && IndexOf(cs, t).None?)
            && (CanRename(state, p, TrimmedPath(p)) ==>
                  Renamed(state, p, BaseName(TrimmedPath(p))) == Replace(root, dir, cs[k := inner.(name := t)]))
  {
    var t := Trim(cs[k].name);
    var middle := cs[k := inner];
    assert middle[k := middle[k].(name := t)] == cs[k := inner.(name := t)];
    ChildPath(dir, cs[k].name);
    RenameInListing(root, dir, middle, k, t);
    IndexOfSameNames(middle, cs, t);
    if t != "" {
      ChildPath(dir, t);
    }
  }

  /**
   * The issues `lintDirectory(dir)` collects from the entries `cs` of `dir`: entry by
   * entry in listing order, and for a sub-directory the issues found inside it, under
   * its original path, before its own.
   */
  function Issues(mode: Mode, dir: Path, cs: seq<Node>): seq<Issue>
    decreases cs
  {
    if cs == [] then []
    else Issues(mode, dir, cs[..|cs| - 1]) + EntryIssues(mode, dir, cs[|cs| - 1])
  }

  function EntryIssues(mode: Mode, dir: Path, n: Node): seq<Issue>
    decreases n
  {
    (if n.Dir? then Issues(mode, dir + [n.name], n.children) else [])
    + (match PathIssue(mode, dir + [n.name]) case Some(issue) => [issue] case None => [])
  }

  /** Listing one more entry appends that entry's issues. */
  lemma IssuesPrefix(mode: Mode, dir: Path, cs: seq<Node>, i: nat)
    requires i < |cs|
    ensures Issues(mode, dir, cs[..i + 1]) == Issues(mode, dir, cs[..i]) + EntryIssues(mode, dir, cs[i])
  {
    assert cs[..i + 1][..i] == cs[..i];
  }

  /** The tree after a fix run. */
  function FixAll(cs: seq<Node>): (r: seq<Node>)
    ensures |r| == |cs|
    decreases cs
  {
    if cs == [] then [] else FixAll(cs[..|cs| - 1]) + [FixNode(cs[|cs| - 1])]
  }

  /** An entry once everything inside it is fixed, before it is renamed itself. */
  function InsidesFixed(n: Node): Node
  {
    if n.Dir? then Dir(n.name, FixAll(n.children)) else n
  }

  function FixNode(n: Node): Node
    decreases n
  {
    match n
    case File(name) => File(Trim(name))
    case Dir(name, ch) => Dir(Trim(name), FixAll(ch))
  }

  /**
   * A fix run renames everything it tries to: the trimmed tree is itself well-formed,
   * so no name trims to "", "." or "..", and no two siblings trim to the same name.
   */
  predicate Fixable(cs: seq<Node>) {
    WellFormed(FixAll(cs))
  }

  /**
   * The fix of entry `k` of the listing `cs` goes through: everything inside it can be
   * fixed, and its name either needs no trimming or trims to a valid name no sibling has.
   */
  predicate EntryFixable(cs: seq<Node>, k: nat)
    requires k < |cs|
  {
    var t := Trim(cs[k].name);
    && (cs[k].Dir? ==> Fixable(cs[k].children))
    && (t == cs[k].name || (ValidName(t) && IndexOf(cs, t).None?))
  }

  /** The entries of the tree whose names trimming would change. */
  function Untrimmed(cs: seq<Node>): nat
    decreases cs
  {
    if cs == [] then 0
    else
      var n := cs[|cs| - 1];
      Untrimmed(cs[..|cs| - 1])
      + (if n.Dir? then Untrimmed(n.children) else 0)
      + (if Trim(n.name) != n.name then 1 else 0)
  }

  /** Every name in the tree is already trimmed. */
  predicate AllTrimmed(cs: seq<Node>)
    decreases cs
  {
    forall k :: 0 <= k < |cs| ==> EntryTrimmed(cs[k])
  }

  /** The entry's name, and every name below it, is already trimmed. */
  predicate EntryTrimmed(n: Node)
    decreases n
  {
    && Trim(n.name) == n.name
    && (n.Dir? ==> AllTrimmed(n.children))
  }

  lemma AllTrimmedSnoc(cs: seq<Node>)
    requires cs != []
    ensures AllTrimmed(cs) <==> AllTrimmed(cs[..|cs| - 1]) && EntryTrimmed(cs[|cs| - 1])
  {
    assert forall k :: 0 <= k < |cs| - 1 ==> cs[..|cs| - 1][k] == cs[k];
  }

  /** A fix run trims every entry in place: same positions, same kinds, trimmed names. */
  lemma {:induction false} FixAllAt(cs: seq<Node>, k: nat)
    requires k < |cs|
    ensures FixAll(cs)[k] == FixNode(cs[k])
    ensures FixAll(cs)[k].name == Trim(cs[k].name) && FixAll(cs)[k].Dir? == cs[k].Dir?
    decreases cs
  {
    if k < |cs| - 1 {
      FixAllAt(cs[..|cs| - 1], k);
    }
  }

  /**
   * `current` is the listing `cs` while a fix run works through it: the entries before
   * `i` are fixed, entry `i` and those after it are as they were.
   */
  predicate FixedBefore(cs: seq<Node>, current: seq<Node>, i: nat) {
    && i <= |cs| == |current|
    && (forall k :: 0 <= k < i ==> current[k] == FixNode(cs[k]))
    && (forall k :: i <= k < |cs| ==> current[k] == cs[k])
  }

  /**
   * The listing `cs` as a walk finds it at entry `i`: a fix run has fixed the entries
   * before `i` and not yet touched the others; a list run changes nothing.
   */
  function Progress(mode: Mode, cs: seq<Node>, i: nat): (r: seq<Node>)
    requires i <= |cs|
    ensures |r| == |cs|
  {
    if mode == Fix then FixAll(cs[..i]) + cs[i..] else cs
  }

  /** Walking entry `i` finds it untouched, and a fix run then moves on with it fixed. */
  lemma ProgressStep(mode: Mode, cs: seq<Node>, i: nat)
    requires i < |cs|
    ensures Progress(mode, cs, i)[i] == cs[i]
    ensures Progress(mode, cs, i + 1) ==
            if mode == Fix then Progress(mode, cs, i)[i := FixNode(cs[i])] else Progress(mode, cs, i)
  {
    if mode == Fix {
      var done := FixAll(cs[..i]);
      assert cs[..i + 1][..i] == cs[..i];
      assert FixAll(cs[..i + 1]) == done + [FixNode(cs[i])];
      assert cs[i..] == [cs[i]] + cs[i + 1..];
      assert (done + cs[i..])[i := FixNode(cs[i])] == done + [FixNode(cs[i])] + cs[i + 1..];
    }
  }

  /** In a fix run, the entries before `i` are fixed and the others are as listed. */
  lemma ProgressFixedBefore(cs: seq<Node>, i: nat)
    requires i <= |cs|
    ensures FixedBefore(cs, Progress(Fix, cs, i), i)
  {
    forall k | 0 <= k < i
      ensures Progress(Fix, cs, i)[k] == FixNode(cs[k])
    {
      FixAllAt(cs[..i], k);
    }
  }

  /**
   * If entry `i` cannot be fixed once the entries before it are (something inside it
   * cannot be fixed, it trims to a name no directory can hold, or a sibling already has
   * the name it trims to) then the tree cannot be fixed.
   */
  lemma NotEntryFixable(cs: seq<Node>, current: seq<Node>, i: nat)
    requires i < |cs| && FixedBefore(cs, current, i) && !EntryFixable(current, i)
    ensures !Fixable(cs)
  {
    var t := Trim(cs[i].name);
    FixAllAt(cs, i);
    if cs[i].Dir? && !Fixable(cs[i].children) {
      assert FixAll(cs)[i].children == FixAll(cs[i].children);
    } else if ValidName(t) {
      var m := IndexOf(current, t).value;
      FixAllAt(cs, m);
      if m > i {
        assert Trim(cs[m].name) == Trim(t) == t;
      }
      assert NameAt(FixAll(cs), m) == NameAt(FixAll(cs), i);
    }
  }

  /**
   * A walk over the listing `cs` of the directory at `dir`, started on the tree `root`,
   * that has gone through the entries before `i`: the tree holds the listing as the
   * walk has left it, and the issues are those of the entries walked.
   */
  ghost predicate Walked(mode: Mode, root: seq<Node>, dir: Path, cs: seq<Node>, i: nat,
                         entries: seq<Node>, issues: seq<Issue>)
  {
    && Listing(root, dir) == Some(cs)
    && i <= |cs|
    && entries == Replace(root, dir, Progress(mode, cs, i))
    && issues == Issues(mode, dir, cs[..i])
  }

  /** The walk starts with nothing walked, on the tree as it is. */
  lemma WalkStart(mode: Mode, root: seq<Node>, dir: Path)
    requires Listing(root, dir).Some?
    ensures Walked(mode, root, dir, Listing(root, dir).value, 0, root, [])
  {
    var cs := Listing(root, dir).value;
    assert cs[..0] == [] && cs[0..] == cs;
    assert Progress(mode, cs, 0) == cs;
    ReplaceIdentity(root, dir);
  }

  /**
   * Before entry `i` is walked: the directory lists the walk's listing, entry `i` is as
   * it was, and the directory it names, if any, is smaller than the whole listing.
   */
  lemma EntryReady(mode: Mode, root: seq<Node>, dir: Path, cs: seq<Node>, i: nat,
                   entries: seq<Node>, issues: seq<Issue>)
    requires Walked(mode, root, dir, cs, i, entries, issues) && i < |cs|
    requires WellFormed(entries)
    ensures Listing(entries, dir) == Some(Progress(mode, cs, i))
    ensures Progress(mode, cs, i)[i] == cs[i]
    ensures ListingSize(entries, dir + [cs[i].name]) < ListingSize(root, dir)
  {
    ListingReplace(root, dir, Progress(mode, cs, i));
    ProgressStep(mode, cs, i);
    EntryOfListing(entries, dir, Progress(mode, cs, i), i);
    SizeChild(cs, i);
  }

  /**
   * After entry `i` is walked, with its issues `entry` found and, in a fix run, the
   * entry replaced by its fixed form: the walk has moved one entry on.
   */
  lemma EntryDone(mode: Mode, root: seq<Node>, dir: Path, cs: seq<Node>, i: nat,
                  entries: seq<Node>, issues: seq<Issue>, entries': seq<Node>, entry: seq<Issue>)
    requires Walked(mode, root, dir, cs, i, entries, issues) && i < |cs|
    requires entry == EntryIssues(mode, dir, cs[i])
    requires mode == List ==> entries' == entries
    requires mode == Fix ==>
               && Listing(entries, dir).Some?
               && entries' == Replace(entries, dir, Progress(mode, cs, i)[i := FixNode(cs[i])])
    ensures Walked(mode, root, dir, cs, i + 1, entries', issues + entry)
  {
    IssuesPrefix(mode, dir, cs, i);
    ProgressStep(mode, cs, i);
    if mode == Fix {
      ReplaceTwice(root, dir, Progress(mode, cs, i), Progress(mode, cs, i + 1));
    }
  }

  /** A fix run that cannot fix entry `i` of the walk has met a tree it cannot fix. */
  lemma WalkFailed(mode: Mode, cs: seq<Node>, i: nat)
    requires i < |cs| && (mode == Fix ==> !EntryFixable(Progress(mode, cs, i), i))
    ensures mode == Fix ==> !Fixable(cs)
  {
    if mode == Fix {
      ProgressFixedBefore(cs, i);
      NotEntryFixable(cs, Progress(mode, cs, i), i);
    }
  }

  /**
   * A walk that went through every entry: its issues are those of the listing; a list
   * run left the tree as it was; a fix run left the directory holding the fixed listing,
   * and a well-formed result means the listing was fixable.
   */
  lemma WalkEnd(mode: Mode, root: seq<Node>, dir: Path, cs: seq<Node>,
                entries: seq<Node>, issues: seq<Issue>)
    requires Walked(mode, root, dir, cs, |cs|, entries, issues)
    ensures issues == Issues(mode, dir, cs)
    ensures mode == List ==> entries == root
    ensures mode == Fix ==> entries == Replace(root, dir, FixAll(cs))
    ensures mode == Fix && WellFormed(entries) ==> Fixable(cs)
  {
    assert cs[..|cs|] == cs;
    if mode == Fix {
      assert cs[|cs|..] == [];
      assert Progress(mode, cs, |cs|) == FixAll(cs);
      ListingReplace(root, dir, FixAll(cs));
      if WellFormed(entries) {
        WellFormedListing(entries, dir);
      }
    } else {
      ReplaceIdentity(root, dir);
    }
  }

  /** Every name in the tree is non-empty, as in any tree a directory can list. */
  predicate Named(cs: seq<Node>)
    decreases cs
  {
    forall k :: 0 <= k < |cs| ==>
      && cs[k].name != ""
      && (cs[k].Dir? ==> Named(cs[k].children))
  }

  lemma {:induction false} WellFormedNamed(cs: seq<Node>)
    requires WellFormed(cs)
    ensures Named(cs)
    decreases cs
  {
    forall k | 0 <= k < |cs|
      ensures cs[k].name != "" && (cs[k].Dir? ==> Named(cs[k].children))
    {
      if cs[k].Dir? {
        WellFormedNamed(cs[k].children);
      }
    }
  }

  lemma NamedPrefix(cs: seq<Node>, m: nat)
    requires Named(cs) && m <= |cs|
    ensures Named(cs[..m])
  {
    forall k | 0 <= k < m
      ensures cs[..m][k].name != "" && (cs[..m][k].Dir? ==> Named(cs[..m][k].children))
    {
      assert cs[..m][k] == cs[k];
    }
  }

  /** Listing one more entry appends that entry's issues. */
  lemma IssuesSnoc(mode: Mode, dir: Path, cs: seq<Node>, n: Node)
    ensures Issues(mode, dir, cs + [n]) == Issues(mode, dir, cs) + EntryIssues(mode, dir, n)
  {
    assert (cs + [n])[..|cs|] == cs;
  }

  /**
   * Listing order: the issues of a run over the entries `a + b` are those of `a`,
   * then those of `b`.
   */
  lemma {:induction false} IssuesConcat(mode: Mode, dir: Path, a: seq<Node>, b: seq<Node>)
    ensures Issues(mode, dir, a + b) == Issues(mode, dir, a) + Issues(mode, dir, b)
    decreases |b|
  {
    if b == [] {
      assert a + b == a;
    } else {
      var init, last := b[..|b| - 1], b[|b| - 1];
      var x, y, z := Issues(mode, dir, a), Issues(mode, dir, init), EntryIssues(mode, dir, last);
      assert a + b == (a + init) + [last];
      calc {
        Issues(mode, dir, a + b);
        { IssuesSnoc(mode, dir, a + init, last); }
        Issues(mode, dir, a + init) + z;
        { IssuesConcat(mode, dir, a, init); }
        (x + y) + z;
        x + (y + z);
      }
    }
  }

  /**
   * The issues of a directory, seen from its entry `k`: those of the entries listed
   * before it, then those of entry `k`, then those of the entries listed after it.
   */
  lemma IssuesSplit(mode: Mode, dir: Path, cs: seq<Node>, k: nat)
    requires k < |cs|
    ensures Issues(mode, dir, cs) ==
            Issues(mode, dir, cs[..k]) + EntryIssues(mode, dir, cs[k]) + Issues(mode, dir, cs[k + 1..])
  {
    assert cs == cs[..k] + [cs[k]] + cs[k + 1..];
    IssuesConcat(mode, dir, cs[..k] + [cs[k]], cs[k + 1..]);
    IssuesConcat(mode, dir, cs[..k], [cs[k]]);
    assert [cs[k]][..0] == [];
  }

  /** Every issue carries the run's mode and the path of an entry strictly below `dir`. */
  predicate Below(mode: Mode, dir: Path, issues: seq<Issue>) {
    forall x :: x in issues ==> x.action == mode && IsAncestor(dir, x.original)
  }

  lemma {:induction false} IssuesBelow(mode: Mode, dir: Path, cs: seq<Node>)
    ensures Below(mode, dir, Issues(mode, dir, cs))
    decreases cs
  {
    if cs != [] {
      IssuesBelow(mode, dir, cs[..|cs| - 1]);
      EntryIssuesBelow(mode, dir, cs[|cs| - 1]);
    }
  }

  lemma {:induction false} EntryIssuesBelow(mode: Mode, dir: Path, n: Node)
    ensures Below(mode, dir, EntryIssues(mode, dir, n))
    decreases n
  {
    var p := dir + [n.name];
    assert p[..|dir|] == dir;
    if n.Dir? {
      IssuesBelow(mode, p, n.children);
      forall x | x in Issues(mode, p, n.children)
        ensures IsAncestor(dir, x.original)
      {
        AncestorOfChild(dir, n.name, x.original);
      }
    }
  }

  /**
   * Children before their parent: the issues of an entry end with its own issue, if it
   * has one, and every issue before that is of an entry strictly below it, reported
   * under its original, untrimmed path.
   */
  lemma ChildrenBeforeParent(mode: Mode, dir: Path, n: Node)
    requires n.name != ""
    ensures var es := EntryIssues(mode, dir, n);
            var p := dir + [n.name];
            var own := if Trim(n.name) != n.name then 1 else 0;
            && own <= |es|
            && (own == 1 ==> es[|es| - 1] == Issue(mode, p, TrimmedPath(p)))
            && (forall i :: 0 <= i < |es| - own ==> IsAncestor(p, es[i].original))
  {
    var p := dir + [n.name];
    ChildPath(dir, n.name);
    PathIssueSpec(mode, p);
    if n.Dir? {
      var inside := Issues(mode, p, n.children);
      IssuesBelow(mode, p, n.children);
      assert forall i :: 0 <= i < |inside| ==> EntryIssues(mode, dir, n)[i] == inside[i];
    }
  }

  /** The issue count is the number of entries whose names trimming would change. */
  lemma {:induction false} IssuesCount(mode: Mode, dir: Path, cs: seq<Node>)
    requires Named(cs)
    ensures |Issues(mode, dir, cs)| == Untrimmed(cs)
    decreases cs
  {
    if cs != [] {
      var n := cs[|cs| - 1];
      NamedPrefix(cs, |cs| - 1);
      IssuesCount(mode, dir, cs[..|cs| - 1]);
      if n.Dir? {
        IssuesCount(mode, dir + [n.name], n.children);
      }
      ChildPath(dir, n.name);
      PathIssueSpec(mode, dir + [n.name]);
    }
  }

  /** No entry is counted exactly when every name is already trimmed. */
  lemma {:induction false} UntrimmedZero(cs: seq<Node>)
    ensures Untrimmed(cs) == 0 <==> AllTrimmed(cs)
    decreases cs
  {
    if cs != [] {
      var n := cs[|cs| - 1];
      UntrimmedZero(cs[..|cs| - 1]);
      if n.Dir? {
        UntrimmedZero(n.children);
      }
      AllTrimmedSnoc(cs);
    }
  }

  /** A run reports nothing exactly when every name in the tree is already trimmed. */
  lemma IssuesEmpty(mode: Mode, dir: Path, cs: seq<Node>)
    requires Named(cs)
    ensures Issues(mode, dir, cs) == [] <==> AllTrimmed(cs)
  {
    IssuesCount(mode, dir, cs);
    UntrimmedZero(cs);
  }

  /** After a fix run every name is trimmed. */
  lemma {:induction false} FixAllTrimmed(cs: seq<Node>)
    ensures AllTrimmed(FixAll(cs))
    decreases cs
  {
    forall k | 0 <= k < |FixAll(cs)|
      ensures EntryTrimmed(FixAll(cs)[k])
    {
      FixAllAt(cs, k);
      if cs[k].Dir? {
        FixAllTrimmed(cs[k].children);
      }
    }
  }

  /**
   * A list run after a fix run that went through reports nothing: the fixed tree has no
   * name left to trim, and no entry with an empty name.
   */
  lemma FixThenListClean(dir: Path, cs: seq<Node>)
    requires Fixable(cs)
    ensures Issues(List, dir, FixAll(cs)) == []
  {
    FixAllTrimmed(cs);
    WellFormedNamed(FixAll(cs));
    IssuesEmpty(List, dir, FixAll(cs));
  }
}
