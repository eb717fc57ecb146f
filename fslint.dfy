/**
 * The `FsLint` class of scripts/fs-lint/index.ts: a run in one mode over one directory,
 * which walks the tree depth first and reports, or renames, every entry whose name has
 * white space at either end.
 */
module FsLint {
  import opened Wrappers
  import opened TrimString
  import opened Paths
  import opened FileSystem
  import opened Lint

  class FsLint {
    const action: Mode
    const directory: Path
    /** The file system the run reads and renames in. */
    const fs: FileSystem

    constructor (action: Mode, fs: FileSystem, directory: Path)
      ensures this.action == action && this.fs == fs && this.directory == directory
    {
      this.action := action;
      this.fs := fs;
      this.directory := directory;
    }

    /**
     * `lintPath(path)`: the issue of `path`, if any. In fix mode the entry is renamed
     * before the issue is returned, and a failed rename throws; in list mode nothing
     * is touched.
     */
    method LintPath(path: Path) returns (r: Result<Option<Issue>, Error>)
      requires fs.Valid() && path != []
      modifies fs
      ensures fs.Valid()
      ensures r.Ok? ==> r.value == PathIssue(action, path)
      ensures action == List || PathIssue(action, path).None? ==>
                r.Ok? && fs.entries == old(fs.entries)
      ensures action == Fix && PathIssue(action, path).Some? ==>
                && (r.Ok? <==> CanRename(old(fs.entries), path, TrimmedPath(path)))
                && (r.Ok? ==> fs.entries == Renamed(old(fs.entries), path, BaseName(TrimmedPath(path))))
                && (r.Err? ==> fs.entries == old(fs.entries))
    {
      var trimmedPath := Join(Parent(path), Trim(BaseName(path)));
      if path != trimmedPath {
        if action == Fix {
          var renamed := fs.Rename(path, trimmedPath);
          if renamed.Err? {
            return Err(renamed.error);
          }
          return Ok(Some(Issue(Fix, path, trimmedPath)));
        } else {
          return Ok(Some(Issue(List, path, trimmedPath)));
        }
      }
      return Ok(None);
    }

    /**
     * `lintDirectory(dir)`: the issues of the tree below `dir`, in the order of
     * `Issues`. List mode changes nothing. Fix mode goes through exactly when the tree
     * is `Fixable`, and then leaves it with every name trimmed; otherwise a rename
     * fails and the error ends the walk.
     */
    method LintDirectory(dir: Path) returns (r: Result<seq<Issue>, Error>)
      requires fs.Valid()
      modifies fs
      ensures fs.Valid()
      ensures Listing(old(fs.entries), dir).None? ==> r.Err? && fs.entries == old(fs.entries)
      ensures Listing(old(fs.entries), dir).Some? ==>
                var cs := Listing(old(fs.entries), dir).value;
                && (r.Ok? ==> r.value == Issues(action, dir, cs))
                && (action == List ==> r.Ok? && fs.entries == old(fs.entries))
                && (action == Fix ==> (r.Ok? <==> Fixable(cs)))
                && (action == Fix && r.Ok? ==> fs.entries == Replace(old(fs.entries), dir, FixAll(cs)))
      decreases ListingSize(fs.entries, dir), 1
    {
      var listed := fs.ReadDir(dir);
      if listed.Err? {
        return Err(listed.error);
      }
      var items := listed.value;
      ghost var root := fs.entries;
      ghost var cs := Listing(root, dir).value;
      WalkStart(action, root, dir);
      var issues: seq<Issue> := [];
      var i := 0;
      while i < |items|
        invariant 0 <= i <= |items| == |cs|
        invariant fs.Valid()
        invariant Walked(action, root, dir, cs, i, fs.entries, issues)
      {
        EntryReady(action, root, dir, cs, i, fs.entries, issues);
        ghost var before := fs.entries;
        var itemIssues := LintItem(dir, items[i], Progress(action, cs, i), i);
        if itemIssues.Err? {
          WalkFailed(action, cs, i);
          return Err(itemIssues.error);
        }
        EntryDone(action, root, dir, cs, i, before, issues, fs.entries, itemIssues.value);
        issues := issues + itemIssues.value;
        i := i + 1;
      }
      WalkEnd(action, root, dir, cs, fs.entries, issues);
      return Ok(issues);
    }

    /**
     * The callback `lintDirectory` runs for each listed `item` of `dir`: a directory is
     * linted inside first, under its original path, and then the entry itself. In fix
     * mode it succeeds exactly when the entry is `EntryFixable`, and the entry is then
     * replaced by its fixed form. When only its own rename fails, what was renamed
     * inside it stays renamed.
     */
    method LintItem(dir: Path, item: string, ghost cs: seq<Node>, ghost k: nat) returns (r: Result<seq<Issue>, Error>)
      requires fs.Valid()
      requires Listing(fs.entries, dir) == Some(cs) && k < |cs| && cs[k].name == item
      modifies fs
      ensures fs.Valid()
      ensures r.Ok? ==> r.value == EntryIssues(action, dir, cs[k])
      ensures action == List ==> r.Ok? && fs.entries == old(fs.entries)
      ensures action == Fix ==> (r.Ok? <==> EntryFixable(cs, k))
      ensures action == Fix && r.Ok? ==> fs.entries == Replace(old(fs.entries), dir, cs[k := FixNode(cs[k])])
      ensures action == Fix && r.Err? && (cs[k].Dir? ==> Fixable(cs[k].children)) ==>
                fs.entries == Replace(old(fs.entries), dir, cs[k := InsidesFixed(cs[k])])
      decreases ListingSize(fs.entries, dir + [item]), 2
    {
      ghost var root := fs.entries;
      EntryOfListing(root, dir, cs, k);
      WellFormedListing(root, dir);
      ReplaceIdentity(root, dir);
      ListingChild(root, dir, item);
      ChildPath(dir, item);
      var fullPath := Join(dir, item);
      assert fullPath == dir + [item];
      var issues: seq<Issue> := [];
      ghost var inner := cs[k];

      var stat := fs.Stat(fullPath);
      assert stat.Ok?;
      if stat.value == Directory {
        var sub := LintDirectory(fullPath);
        if sub.Err? {
          return Err(sub.error);
        }
        issues := sub.value;
        if action == Fix {
          ReplaceChild(root, dir, item, FixAll(cs[k].children));
          inner := Dir(item, FixAll(cs[k].children));
        }
      }
      assert cs[k := cs[k]] == cs;
      assert fs.entries == Replace(root, dir, cs[k := inner]);
      ListingReplace(root, dir, cs[k := inner]);
      WellFormedListing(fs.entries, dir);
      PathIssueSpec(action, fullPath);

      var issue := LintPath(fullPath);
      if Trim(item) != item && action == Fix {
        RenameToTrimmed(root, dir, cs, inner, k);
      }
      if issue.Err? {
        return Err(issue.error);
      }
      assert issues == if cs[k].Dir? then Issues(action, fullPath, cs[k].children) else [];
      if issue.value.Some? {
        issues := issues + [issue.value.value];
      }
      assert issues == EntryIssues(action, dir, cs[k]);
      if action == Fix {
        assert inner.(name := Trim(item)) == FixNode(cs[k]);
        assert Trim(item) == item ==> inner.(name := Trim(item)) == inner;
      }
      return Ok(issues);
    }

    /**
     * `run()`: lint the whole directory, then end the process. A list run that found
     * issues exits with status 1; any other run that completes ends normally. An error
     * thrown by the file system while walking ends the run instead.
     */
    method Run() returns (o: Outcome)
      requires fs.Valid()
      modifies fs
      ensures fs.Valid()
      ensures Listing(old(fs.entries), directory).None? ==> o.Crash? && fs.entries == old(fs.entries)
      ensures Listing(old(fs.entries), directory).Some? ==>
                var cs := Listing(old(fs.entries), directory).value;
                && (o.Exit? ==> o.status == ExitStatus(action, |Issues(action, directory, cs)|))
                && (action == List ==>
                      && o == Exit(if AllTrimmed(cs) then 0 else 1)
                      && fs.entries == old(fs.entries))
                && (action == Fix ==>
                      && (o.Exit? <==> Fixable(cs))
                      && (o.Exit? ==> o.status == 0
                                      && fs.entries == Replace(old(fs.entries), directory, FixAll(cs))))
    {
      ghost var root := fs.entries;
      var issues := LintDirectory(directory);
      if issues.Err? {
        return Crash(issues.error);
      }
      ghost var cs := Listing(root, directory).value;
      WellFormedListing(root, directory);
      WellFormedNamed(cs);
      IssuesEmpty(action, directory, cs);
      o := Exit(ExitStatus(action, |issues.value|));
    }
  }

  /** How a run of the command ends: the process's exit status, or an uncaught error. */
  datatype Outcome = Exit(status: int) | Crash(error: Error)

  /** `argv.includes(x)` */
  function Includes(argv: seq<string>, x: string): (b: bool)
    ensures b <==> x in argv
    decreases |argv|
  {
    if argv == [] then false
    else argv[|argv| - 1] == x || Includes(argv[..|argv| - 1], x)
  }

  /** The mode `run` picks: fix exactly when `--fix` is among the arguments. */
  function SelectMode(argv: seq<string>): (m: Mode)
    ensures m == Fix <==> "--fix" in argv
    ensures m == List <==> "--fix" !in argv
  {
    if Includes(argv, "--fix") then Fix else List
  }

  /**
   * The exit status `run` ends with: 1 for a list run that found issues
   * (`process.exit(1)`), 0 when it found none and for every fix run.
   */
  function ExitStatus(mode: Mode, issueCount: nat): (status: int)
    ensures status == 0 || status == 1
    ensures status == 1 <==> mode == List && issueCount > 0
  {
    if mode == List && issueCount > 0 then 1 else 0
  }

  /**
   * The command: the mode from the arguments, a run over the scan root ".", and how it
   * ends. A list run exits 0 exactly on a tree with every name trimmed, and changes
   * nothing; a fix run ends normally exactly on a fixable tree, and then leaves the
   * fixed tree behind.
   */
  method RunCommand(argv: seq<string>, fs: FileSystem) returns (o: Outcome)
    requires fs.Valid()
    modifies fs
    ensures fs.Valid()
    ensures "--fix" !in argv ==>
              && o == Exit(if AllTrimmed(old(fs.entries)) then 0 else 1)
              && fs.entries == old(fs.entries)
    ensures "--fix" in argv ==>
              && (o == Exit(0) <==> Fixable(old(fs.entries)))
              && (o.Crash? <==> !Fixable(old(fs.entries)))
              && (o == Exit(0) ==> fs.entries == FixAll(old(fs.entries)))
  {
    var action := SelectMode(argv);
    var linter := new FsLint(action, fs, []);
    o := linter.Run();
  }

  /**
   * A fix run followed by a list run over the same tree: when the fix run goes
   * through, the list run finds nothing and exits 0.
   */
  method FixThenList(fs: FileSystem) returns (fixed: Outcome, listed: Outcome)
    requires fs.Valid()
    modifies fs
    ensures fixed == Exit(0) <==> Fixable(old(fs.entries))
    ensures fixed == Exit(0) ==> listed == Exit(0) && fs.entries == FixAll(old(fs.entries))
  {
    ghost var before := fs.entries;
    fixed := RunCommand(["--fix"], fs);
    listed := RunCommand([], fs);
    FixAllTrimmed(before);
  }
}
