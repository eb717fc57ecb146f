/**
 * The directory tree that `node:fs` exposes to the linter: listing a directory
 * (`readdirSync`), asking whether an entry is a directory (`statSync`) and renaming an
 * entry within its directory (`renameSync`).
 */
module FileSystem {
  import opened Wrappers
  import opened Paths

  /** An entry of a directory; the order of `children` is the order `readdirSync` lists. */
  datatype Node = File(name: string) | Dir(name: string, children: seq<Node>)

  /** What `statSync(path).isDirectory()` tells apart. */
  datatype Kind = RegularFile | Directory

  /** The errors the file-system calls throw. */
  datatype Error =
    | NoSuchEntry(path: Path)    // ENOENT
    | NotADirectory(path: Path)  // ENOTDIR
    | TargetExists(path: Path)   // the rename target is already taken
    | ReservedName(path: Path)   // the rename target is "." or ".."

  /** A name a directory can list. */
  predicate ValidName(n: string) {
    n != "" && n != "." && n != ".."
  }

  /** The name of entry `k`, the term through which sibling names are compared. */
  function NameAt(cs: seq<Node>, k: nat): string
    requires k < |cs|
  {
    cs[k].name
  }

  /** Names are valid and pairwise distinct among siblings, at every level of the tree. */
  predicate WellFormed(cs: seq<Node>)
    decreases cs
  {
    && (forall k :: 0 <= k < |cs| ==> ValidName(cs[k].name))
    && (forall j, k :: 0 <= j < k < |cs| ==> NameAt(cs, j) != NameAt(cs, k))
    && (forall k :: 0 <= k < |cs| ==> cs[k].Dir? ==> WellFormed(cs[k].children))
  }

  /** The position of the first entry called `name`. */
  function IndexOf(cs: seq<Node>, name: string): (r: Option<nat>)
    ensures r.Some? ==> r.value < |cs| && cs[r.value].name == name
    ensures r.Some? ==> forall j :: 0 <= j < r.value ==> cs[j].name != name
    ensures r.None? ==> forall k :: 0 <= k < |cs| ==> cs[k].name != name
  {
    IndexFrom(cs, name, 0)
  }

  /** The position of the first entry called `name` at or after `i`. */
  function IndexFrom(cs: seq<Node>, name: string, i: nat): (r: Option<nat>)
    requires i <= |cs|
    ensures r.Some? ==> i <= r.value < |cs| && cs[r.value].name == name
    ensures r.Some? ==> forall j :: i <= j < r.value ==> cs[j].name != name
    ensures r.None? ==> forall k :: i <= k < |cs| ==> cs[k].name != name
    decreases |cs| - i
  {
    if i == |cs| then None
    else if cs[i].name == name then Some(i)
    else IndexFrom(cs, name, i + 1)
  }

  /** The entries of the sub-directory called `name`, if `cs` holds one. */
  function ChildListing(cs: seq<Node>, name: string): Option<seq<Node>> {
    match IndexOf(cs, name)
    case None => None
    case Some(k) => if cs[k].Dir? then Some(cs[k].children) else None
  }

  /** The entries of the directory at `dir`, or None when `dir` is missing or a file. */
  function Listing(root: seq<Node>, dir: Path): Option<seq<Node>>
    decreases |dir|
  {
    if dir == [] then Some(root)
    else match Listing(root, Parent(dir))
      case None => None
      case Some(cs) => ChildListing(cs, BaseName(dir))
  }

  /** The entry at a path below the root. */
  function Lookup(root: seq<Node>, p: Path): Option<Node>
    requires p != []
  {
    match Listing(root, Parent(p))
    case None => None
    case Some(cs) =>
      match IndexOf(cs, BaseName(p))
      case None => None
      case Some(k) => Some(cs[k])
  }

  /** The tree with the entries of the directory at `dir` replaced by `cs`. */
  function Replace(root: seq<Node>, dir: Path, cs: seq<Node>): seq<Node>
    requires Listing(root, dir).Some?
    decreases |dir|
  {
    if dir == [] then cs
    else
      var ps := Listing(root, Parent(dir)).value;
      var k := IndexOf(ps, BaseName(dir)).value;
      Replace(root, Parent(dir), ps[k := Dir(BaseName(dir), cs)])
  }

  /** A rename of `from` to the sibling path `to` goes through. */
  predicate CanRename(root: seq<Node>, from: Path, to: Path)
    requires from != []
  {
    && Lookup(root, from).Some?
    && to != Parent(from)
    && to != []
    && ValidName(BaseName(to))
    && Lookup(root, to).None?
  }

  /** The tree with the entry at `from` given the name `newName`. */
  function Renamed(root: seq<Node>, from: Path, newName: string): seq<Node>
    requires from != [] && Lookup(root, from).Some?
  {
    var cs := Listing(root, Parent(from)).value;
    var k := IndexOf(cs, BaseName(from)).value;
    Replace(root, Parent(from), cs[k := cs[k].(name := newName)])
  }

  /** Size of a tree, in entries. */
  function Size(cs: seq<Node>): nat
    decreases cs
  {
    if cs == [] then 0 else Size(cs[..|cs| - 1]) + NodeSize(cs[|cs| - 1])
  }

  function NodeSize(n: Node): nat
    decreases n
  {
    match n
    case File(_) => 1
    case Dir(_, ch) => 1 + Size(ch)
  }

  /** The size of the directory at `dir`; 0 when there is none. */
  function ListingSize(root: seq<Node>, dir: Path): nat {
    match Listing(root, dir)
    case None => 0
    case Some(cs) => Size(cs)
  }

  class FileSystem {
    /** The entries of the scan root. */
    var entries: seq<Node>

    ghost predicate Valid()
      reads this
    {
      WellFormed(entries)
    }

    constructor (entries: seq<Node>)
      requires WellFormed(entries)
      ensures Valid() && this.entries == entries
    {
      this.entries := entries;
    }

    /** `readdirSync(dir)`: the names of the entries of `dir`, in listing order. */
    function ReadDir(dir: Path): (r: Result<seq<string>, Error>)
      reads this
      ensures r.Ok? <==> Listing(entries, dir).Some?
      ensures r.Ok? ==> var cs := Listing(entries, dir).value;
                        |r.value| == |cs| && forall k :: 0 <= k < |cs| ==> r.value[k] == cs[k].name
    {
      match Listing(entries, dir)
      case Some(cs) => Ok(seq(|cs|, k requires 0 <= k < |cs| => cs[k].name))
      case None =>
        if dir != [] && Lookup(entries, dir).Some? then Err(NotADirectory(dir))
        else Err(NoSuchEntry(dir))
    }

    /** `statSync(p)`, reduced to whether `p` is a directory. */
    function Stat(p: Path): (r: Result<Kind, Error>)
      reads this
      ensures r.Ok? <==> p == [] || Lookup(entries, p).Some?
      ensures r == Ok(Directory) <==> Listing(entries, p).Some?
    {
      if p == [] then Ok(Directory)
      else
        ListingChild(entries, Parent(p), BaseName(p));
        assert p == Parent(p) + [BaseName(p)];
        match Lookup(entries, p)
        case None => Err(NoSuchEntry(p))
        case Some(n) => Ok(if n.Dir? then Directory else RegularFile)
    }

    /**
     * `renameSync(from, to)` for a target in the same directory as `from` (or that
     * directory itself): it fails, changing nothing, when `from` is missing or the
     * target is taken or reserved, and otherwise renames that one entry.
     */
    method Rename(from: Path, to: Path) returns (r: Result<(), Error>)
      requires Valid()
      requires from != [] && (to == Parent(from) || (to != [] && Parent(to) == Parent(from)))
      modifies this
      ensures Valid()
      ensures r.Ok? <==> CanRename(old(entries), from, to)
      ensures r.Ok? ==> entries == Renamed(old(entries), from, BaseName(to))
      ensures r.Err? ==> entries == old(entries)
    {
      if Lookup(entries, from).None? {
        return Err(NoSuchEntry(from));
      }
      if to == Parent(from) || Lookup(entries, to).Some? {
        return Err(TargetExists(to));
      }
      if !ValidName(BaseName(to)) {
        return Err(ReservedName(to));
      }
      var dir := Parent(from);
      var cs := Listing(entries, dir).value;
      var k := IndexOf(cs, BaseName(from)).value;
      WellFormedListing(entries, dir);
      var cs' := cs[k := cs[k].(name := BaseName(to))];
      WellFormedRename(cs, k, BaseName(to));
      WellFormedReplace(entries, dir, cs');
      entries := Replace(entries, dir, cs');
      r := Ok(());
    }
  }

  /** In a directory whose names are distinct, each entry is found at its own position. */
  lemma IndexOfDistinct(cs: seq<Node>, k: nat)
    requires WellFormed(cs) && k < |cs|
    ensures IndexOf(cs, cs[k].name) == Some(k)
  {
    forall j | 0 <= j < k
      ensures cs[j].name != cs[k].name
    {
      assert NameAt(cs, j) != NameAt(cs, k);
    }
  }

  /** Giving one entry a valid name that no entry has keeps the names valid and distinct. */
  lemma WellFormedRename(cs: seq<Node>, k: nat, t: string)
    requires WellFormed(cs) && k < |cs| && ValidName(t) && IndexOf(cs, t).None?
    ensures WellFormed(cs[k := cs[k].(name := t)])
  {
    var cs' := cs[k := cs[k].(name := t)];
    forall j, m | 0 <= j < m < |cs'|
      ensures NameAt(cs', j) != NameAt(cs', m)
    {
      if j != k && m != k {
        assert NameAt(cs, j) != NameAt(cs, m);
      }
    }
  }

  /** Entries with the same names, in the same order, are found at the same positions. */
  lemma IndexOfSameNames(cs: seq<Node>, ds: seq<Node>, name: string)
    requires |cs| == |ds| && forall j :: 0 <= j < |cs| ==> cs[j].name == ds[j].name
    ensures IndexOf(cs, name) == IndexOf(ds, name)
  {
    var r, q := IndexOf(cs, name), IndexOf(ds, name);
    if r.Some? && q.Some? {
      assert !(r.value < q.value) && !(q.value < r.value);
    }
  }

  /** Listing one level further down looks up the child in the listing above. */
  lemma ListingChild(root: seq<Node>, dir: Path, name: string)
    ensures Listing(root, dir + [name]) ==
            match Listing(root, dir)
            case None => None
            case Some(cs) => ChildListing(cs, name)
  {
    ChildPath(dir, name);
  }

  /** A directory of a well-formed tree holds a well-formed tree. */
  lemma {:induction false} WellFormedListing(root: seq<Node>, dir: Path)
    requires WellFormed(root) && Listing(root, dir).Some?
    ensures WellFormed(Listing(root, dir).value)
    decreases |dir|
  {
    if dir != [] {
      WellFormedListing(root, Parent(dir));
    }
  }

  /** Replacing a directory's entries by a well-formed tree keeps the tree well-formed. */
  lemma {:induction false} WellFormedReplace(root: seq<Node>, dir: Path, cs: seq<Node>)
    requires WellFormed(root) && Listing(root, dir).Some? && WellFormed(cs)
    ensures WellFormed(Replace(root, dir, cs))
    decreases |dir|
  {
    if dir != [] {
      var ps := Listing(root, Parent(dir)).value;
      var k := IndexOf(ps, BaseName(dir)).value;
      var ps' := ps[k := Dir(BaseName(dir), cs)];
      WellFormedListing(root, Parent(dir));
      assert forall j :: 0 <= j < |ps| ==> NameAt(ps', j) == NameAt(ps, j);
      WellFormedReplace(root, Parent(dir), ps');
    }
  }

  /** After replacing a directory's entries, listing that directory gives the new entries. */
  lemma {:induction false} ListingReplace(root: seq<Node>, dir: Path, cs: seq<Node>)
    requires Listing(root, dir).Some?
    ensures Listing(Replace(root, dir, cs), dir) == Some(cs)
    decreases |dir|
  {
    if dir != [] {
      var ps := Listing(root, Parent(dir)).value;
      var k := IndexOf(ps, BaseName(dir)).value;
      var ps' := ps[k := Dir(BaseName(dir), cs)];
      ListingReplace(root, Parent(dir), ps');
      IndexOfSameNames(ps, ps', BaseName(dir));
    }
  }

  /** Putting back the entries a directory already has changes nothing. */
  lemma {:induction false} ReplaceIdentity(root: seq<Node>, dir: Path)
    requires Listing(root, dir).Some?
    ensures Replace(root, dir, Listing(root, dir).value) == root
    decreases |dir|
  {
    if dir != [] {
      var ps := Listing(root, Parent(dir)).value;
      var k := IndexOf(ps, BaseName(dir)).value;
      assert ps[k := Dir(BaseName(dir), Listing(root, dir).value)] == ps;
      ReplaceIdentity(root, Parent(dir));
    }
  }

  /** Of two replacements of the same directory, the later one wins. */
  lemma {:induction false} ReplaceTwice(root: seq<Node>, dir: Path, a: seq<Node>, b: seq<Node>)
    requires Listing(root, dir).Some?
    ensures Listing(Replace(root, dir, a), dir).Some?
    ensures Replace(Replace(root, dir, a), dir, b) == Replace(root, dir, b)
    decreases |dir|
  {
    ListingReplace(root, dir, a);
    if dir != [] {
      var p, n := Parent(dir), BaseName(dir);
      var ps := Listing(root, p).value;
      var k := IndexOf(ps, n).value;
      var pa, pb := ps[k := Dir(n, a)], ps[k := Dir(n, b)];
      ListingReplace(root, p, pa);
      IndexOfSameNames(ps, pa, n);
      assert pa[k := Dir(n, b)] == pb;
      ReplaceTwice(root, p, pa, pb);
    }
  }

  /** Replacing the entries of a sub-directory replaces that one entry of its parent. */
  lemma ReplaceChild(root: seq<Node>, dir: Path, name: string, x: seq<Node>)
    requires Listing(root, dir + [name]).Some?
    ensures Listing(root, dir).Some? && IndexOf(Listing(root, dir).value, name).Some?
    ensures var cs := Listing(root, dir).value;
            var k := IndexOf(cs, name).value;
            Replace(root, dir + [name], x) == Replace(root, dir, cs[k := Dir(name, x)])
  {
    ChildPath(dir, name);
  }

  /** Every entry of a tree, and all below it, is counted in the tree's size. */
  lemma {:induction false} SizeChild(cs: seq<Node>, k: nat)
    requires k < |cs|
    ensures NodeSize(cs[k]) <= Size(cs)
    decreases cs
  {
    if k < |cs| - 1 {
      SizeChild(cs[..|cs| - 1], k);
    }
  }

  /** The directory at `dir + [name]`, for the entry `k` of `dir` called `name`, is smaller than that entry. */
  lemma ChildListingSmaller(root: seq<Node>, dir: Path, k: nat)
    requires Listing(root, dir).Some? && k < |Listing(root, dir).value|
    requires var cs := Listing(root, dir).value; IndexOf(cs, cs[k].name) == Some(k)
    ensures ListingSize(root, dir + [Listing(root, dir).value[k].name]) < NodeSize(Listing(root, dir).value[k])
  {
    ListingChild(root, dir, Listing(root, dir).value[k].name);
  }

  /**
   * Entry `k` of the directory at `dir`: it is found under its own name, and the
   * directory it names, if any, is smaller than the entry.
   */
  lemma EntryOfListing(root: seq<Node>, dir: Path, cs: seq<Node>, k: nat)
    requires WellFormed(root) && Listing(root, dir) == Some(cs) && k < |cs|
    ensures IndexOf(cs, cs[k].name) == Some(k)
    ensures ListingSize(root, dir + [cs[k].name]) < NodeSize(cs[k])
  {
    WellFormedListing(root, dir);
    IndexOfDistinct(cs, k);
    ChildListingSmaller(root, dir, k);
  }

  /**
   * Renaming entry `k` of the directory at `dir`, once its entries are `cs`, to a new
   * name `t`: it goes through exactly when `t` is a valid name no entry of `cs` has,
   * and then changes that entry's name and nothing else.
   */
  lemma RenameInListing(root: seq<Node>, dir: Path, cs: seq<Node>, k: nat, t: string)
    requires Listing(root, dir).Some? && WellFormed(cs) && k < |cs| && t != cs[k].name
    ensures var state := Replace(root, dir, cs);
            var from := dir + [cs[k].name];
            && Lookup(state, from) == Some(cs[k])
            && (CanRename(state, from, Join(dir, t)) <==> ValidName(t) && IndexOf(cs, t).None?)
            && (CanRename(state, from, Join(dir, t)) ==>
                  Renamed(state, from, t) == Replace(root, dir, cs[k := cs[k].(name := t)]))
  {
    var state := Replace(root, dir, cs);
    var from := dir + [cs[k].name];
    ListingReplace(root, dir, cs);
    assert Parent(from) == dir;
    IndexOfDistinct(cs, k);
    if t != "" {
      assert Parent(Join(dir, t)) == dir;
    }
    ReplaceTwice(root, dir, cs, cs[k := cs[k].(name := t)]);
  }
}
