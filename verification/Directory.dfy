/** Walking a directory tree: the recursive listing behind a reading job, and the sweep that removes
    links and directories without files.

    The tree is a finite map from paths, as sequences of names, to what is there. */
module Directory {

  import opened Octets

  type Name = string

  type Path = seq<Name>

  /** What a path names. A directory that cannot be read makes `read_dir` fail; a link leads to `target`, if
      that exists. */
  datatype Kind = File(size: nat) | Dir(readable: bool) | Link(target: Path)

  /** What a listing says about an entry. */
  datatype EntryType = RegularFile(size: nat) | SubDir | LinkToDir | LinkToFile

  datatype Entry = Entry(name: Name, kind: EntryType)

  /** A listed file: its name relative to the listed directory, and its size. */
  datatype Listed = Listed(name: Path, size: nat)

  type Tree = map<Path, Kind>

  /** Everything lies in a directory, up to the top. */
  ghost predicate WellFormed(t: Tree) {
    forall p | p in t && p != [] :: p[..|p| - 1] in t && t[p[..|p| - 1]].Dir?
  }

  /** Where a path leads when the links on the way are followed, but not a link at its end. `seen` are the links
      being followed already: running into one of them again is a loop, which leads no further. */
  function Find(t: Tree, p: Path, seen: set<Path>): Path
    decreases |t.Keys - seen|, |p|, 0
  {
    if p == [] then [] else Follow(t, p[..|p| - 1], seen) + [p[|p| - 1]]
  }

  /** Where a path leads when all links are followed, those in the targets of links included. */
  function Follow(t: Tree, p: Path, seen: set<Path>): Path
    decreases |t.Keys - seen|, |p|, 1
  {
    var q := Find(t, p, seen);
    if IsNewLink(t, q, seen) then
      FewerLinks(t, q, seen);
      Follow(t, t[q].target, seen + {q})
    else q
  }

  predicate IsNewLink(t: Tree, q: Path, seen: set<Path>) {
    q in t && t[q].Link? && q !in seen
  }

  lemma FewerLinks(t: Tree, q: Path, seen: set<Path>)
    requires q in t && q !in seen
    ensures |t.Keys - (seen + {q})| < |t.Keys - seen|
  {
    assert t.Keys - (seen + {q}) == (t.Keys - seen) - {q};
  }

  /** Everything the way passes through. */
  ghost function Trail(t: Tree, p: Path, seen: set<Path>): set<Path>
    decreases |t.Keys - seen|, |p|
  {
    var q := Find(t, p, seen);
    (if p == [] then {} else Trail(t, p[..|p| - 1], seen)) + {q}
    + (if IsNewLink(t, q, seen) then
         FewerLinks(t, q, seen);
         Trail(t, t[q].target, seen + {q})
       else {})
  }

  function Location(t: Tree, p: Path): Path {
    Find(t, p, {})
  }

  function Resolved(t: Tree, p: Path): Path {
    Follow(t, p, {})
  }

  /** A link that does not lead to a directory counts as one to a file, wherever it leads. */
  function TypeOf(t: Tree, p: Path): EntryType
    requires p in t
  {
    match t[p]
    case File(size) => RegularFile(size)
    case Dir(_) => SubDir
    case Link(_) => var q := Resolved(t, p); if q in t && t[q].Dir? then LinkToDir else LinkToFile
  }

  /** Behind a path that leads to a directory, an entry is found in that directory. */
  lemma ChildPath(t: Tree, path: Path, n: Name)
    ensures Location(t, path + [n]) == Resolved(t, path) + [n]
  {
    assert (path + [n])[..|path|] == path;
  }

  /** A path in the tree that is no link leads to itself, with no link on the way. */
  lemma {:induction false} PlainPath(t: Tree, p: Path)
    requires WellFormed(t) && p in t
    ensures Location(t, p) == p && (!t[p].Link? ==> Resolved(t, p) == p)
    decreases |p|
  {
    if p != [] {
      PlainPath(t, p[..|p| - 1]);
      assert p[..|p| - 1] + [p[|p| - 1]] == p;
    }
  }

  predicate IsHidden(n: Name) {
    n != "" && n[0] == '.'
  }

  predicate IsChild(dir: Path, p: Path) {
    |p| == |dir| + 1 && p[..|dir|] == dir
  }

  function Children(t: Tree, dir: Path): set<Path> {
    set p | p in t && IsChild(dir, p)
  }

  function Below(t: Tree, dir: Path): set<Path> {
    set p | p in t && dir < p
  }

  lemma ChildBelow(t: Tree, dir: Path, c: Path)
    requires c in t && IsChild(dir, c)
    ensures dir < c && Below(t, c) < Below(t, dir)
  {
    assert dir < c;
    forall p | p in Below(t, c) ensures p in Below(t, dir) {
      assert p[..|dir|] == c[..|dir|];
    }
    assert c in Below(t, dir) && c !in Below(t, c);
  }

  /** The ancestors of an entry are directories of the tree. */
  lemma {:induction false} AncestorsAreDirs(t: Tree, p: Path, k: nat)
    requires WellFormed(t) && p in t && k < |p|
    ensures p[..k] in t && t[p[..k]].Dir?
    decreases |p|
  {
    var parent := p[..|p| - 1];
    if k < |p| - 1 {
      AncestorsAreDirs(t, parent, k);
      assert parent[..k] == p[..k];
    }
  }

  // ---------------------------------------------------------------------------------------
  // Listing

  /** Every directory from `root` down to the parent of `p` can be read. */
  ghost predicate Reached(t: Tree, root: Path, p: Path) {
    forall d | root <= d < p :: d in t && t[d] == Dir(true)
  }

  ghost predicate Visible(root: Path, p: Path, hidden: bool) {
    hidden || forall k | |root| <= k < |p| :: !IsHidden(p[k])
  }

  /** The regular files a listing of `root` is to contain. */
  ghost predicate Wanted(t: Tree, root: Path, hidden: bool, p: Path): (wanted: bool)
    ensures wanted ==> root < p && p in t && t[p].File?
  {
    p in t && t[p].File? && root < p && Reached(t, root, p) && Visible(root, p, hidden)
  }

  /** The path a listed name resolves to: joined behind the root in place of the prefix. */
  function Resolve(root: Path, prefix: Path, name: Path): Path
    requires |prefix| <= |name|
  {
    root + name[|prefix|..]
  }

  ghost predicate NoDuplicates(files: seq<Listed>) {
    forall a, b | 0 <= a < b < |files| :: files[a].name != files[b].name
  }

  /** Every listed name resolves to a wanted file of the listed size. */
  ghost predicate OnlyWanted(t: Tree, root: Path, prefix: Path, hidden: bool, files: seq<Listed>) {
    forall e | e in files ::
      && prefix < e.name
      && var p := Resolve(root, prefix, e.name); Wanted(t, root, hidden, p) && t[p].size == e.size
  }

  /** `files` lists exactly once each wanted file whose first name below the root is in `done`. */
  ghost predicate Lists(t: Tree, root: Path, prefix: Path, hidden: bool, files: seq<Listed>, done: set<Name>) {
    && NoDuplicates(files)
    && OnlyWanted(t, root, prefix, hidden, files)
    && (forall e | e in files :: prefix < e.name && e.name[|prefix|] in done)
    && (forall p | Wanted(t, root, hidden, p) && p[|root|] in done ::
          Listed(prefix + p[|root|..], t[p].size) in files)
  }

  ghost predicate IsListing(t: Tree, dir: Path, hidden: bool, entries: seq<Entry>) {
    && (forall a, b | 0 <= a < b < |entries| :: entries[a].name != entries[b].name)
    && (forall e | e in entries ::
          dir + [e.name] in t && TypeOf(t, dir + [e.name]) == e.kind && (hidden || !IsHidden(e.name)))
    && (forall p | p in t && IsChild(dir, p) && (hidden || !IsHidden(p[|dir|])) ::
          Entry(p[|dir|], TypeOf(t, p)) in entries)
  }

  /** Every wanted file is listed exactly once, under a name that resolves back to it, with its size. */
  ghost predicate ListsAll(t: Tree, root: Path, prefix: Path, hidden: bool, files: seq<Listed>) {
    && NoDuplicates(files)
    && OnlyWanted(t, root, prefix, hidden, files)
    && (forall p | Wanted(t, root, hidden, p) :: Listed(prefix + p[|root|..], t[p].size) in files)
  }

  /** Main result on hidden files: without them a directory's listing has exactly the entries whose name does not begin
      with a dot, and with them all. */
  lemma ListingShows(t: Tree, dir: Path, hidden: bool, entries: seq<Entry>, n: Name)
    requires IsListing(t, dir, hidden, entries)
    ensures (exists e :: e in entries && e.name == n)
        <==> dir + [n] in t && (hidden || n == "" || n[0] != '.')
  {
    if dir + [n] in t && (hidden || n == "" || n[0] != '.') {
      assert IsChild(dir, dir + [n]);
      assert Entry(n, TypeOf(t, dir + [n])) in entries;
    }
  }

  /** And a recursive listing has a relative path exactly if it leads to a regular file through directories that can
      all be read, and, without hidden files, no name on it begins with a dot. */
  lemma RecursiveListingShows(t: Tree, root: Path, hidden: bool, files: seq<Listed>, name: Path, size: nat)
    requires ListsAll(t, root, [], hidden, files)
    ensures Listed(name, size) in files
        <==> && name != [] && root + name in t && t[root + name] == File(size)
             && (forall k | 0 <= k < |name| :: root + name[..k] in t && t[root + name[..k]] == Dir(true))
             && (hidden || forall k | 0 <= k < |name| :: name[k] == "" || name[k][0] != '.')
  {
    hide Reached, Visible;
    var p := root + name;
    assert Resolve(root, [], name) == p;
    ReachedIff(t, root, name);
    VisibleIff(root, name, hidden);
    assert [] + p[|root|..] == name;
  }

  lemma ReachedIff(t: Tree, root: Path, name: Path)
    ensures Reached(t, root, root + name)
        <==> forall k | 0 <= k < |name| :: root + name[..k] in t && t[root + name[..k]] == Dir(true)
  {
    if Reached(t, root, root + name) {
      forall k | 0 <= k < |name| ensures root + name[..k] in t && t[root + name[..k]] == Dir(true) {
        assert root <= root + name[..k] < root + name;
      }
    }
    if forall k | 0 <= k < |name| :: root + name[..k] in t && t[root + name[..k]] == Dir(true) {
      forall d | root <= d < root + name ensures d in t && t[d] == Dir(true) {
        assert d == root + name[..|d| - |root|];
      }
    }
  }

  lemma VisibleIff(root: Path, name: Path, hidden: bool)
    ensures Visible(root, root + name, hidden)
        <==> hidden || forall k | 0 <= k < |name| :: name[k] == "" || name[k][0] != '.'
  {
    if Visible(root, root + name, hidden) && !hidden {
      forall k | 0 <= k < |name| ensures name[k] == "" || name[k][0] != '.' {
        assert (root + name)[|root| + k] == name[k];
      }
    }
  }

  /** The type of an entry: a directory exactly if its path leads to one, and a link exactly if it is one itself. */
  lemma EntryTypeIs(t: Tree, p: Path)
    requires WellFormed(t) && p in t
    ensures var kind := TypeOf(t, p);
            && (kind.SubDir? || kind.LinkToDir? <==> Resolved(t, p) in t && t[Resolved(t, p)].Dir?)
            && (kind.LinkToDir? || kind.LinkToFile? <==> t[p].Link?)
            && (kind.RegularFile? <==> t[p].File?)
            && (kind.RegularFile? ==> kind.size == t[p].size)
  {
    hide Find, Follow;
    PlainPath(t, p);
  }

  /** A path one of whose links is not among those being followed leads where it led. */
  lemma {:induction false} OtherLinksSeen(t: Tree, p: Path, seen: set<Path>, q: Path)
    requires q !in Trail(t, p, seen)
    ensures Find(t, p, seen + {q}) == Find(t, p, seen) && Follow(t, p, seen + {q}) == Follow(t, p, seen)
    decreases |t.Keys - seen|, |p|
  {
    hide Find, Follow, Trail;
    OneStep(t, p, seen);
    OneStep(t, p, seen + {q});
    if p != [] { OtherLinksSeen(t, p[..|p| - 1], seen, q); }
    var x := Find(t, p, seen);
    if IsNewLink(t, x, seen) {
      FewerLinks(t, x, seen);
      OtherLinksSeen(t, t[x].target, seen + {x}, q);
      assert seen + {x} + {q} == seen + {q} + {x};
    }
  }

  /** Main result on links: a path ending in a link leads where the link's target leads, unless that comes back to the
      link itself; and so does every path that goes on behind it. */
  lemma LinkLeadsOn(t: Tree, p: Path, n: Name)
    requires var q := Location(t, p);
             q in t && t[q].Link? && q !in Trail(t, t[q].target, {})
    ensures Resolved(t, p) == Resolved(t, t[Location(t, p)].target)
    ensures Location(t, p + [n]) == Resolved(t, t[Location(t, p)].target) + [n]
  {
    hide Find, Follow, Trail;
    var q := Location(t, p);
    OneStep(t, p, {});
    OtherLinksSeen(t, t[q].target, {}, q);
    OneStep(t, p + [n], {});
    assert (p + [n])[..|p|] == p;
  }

  /** A path below a directory continues through one of its children. */
  lemma FirstStep(root: Path, p: Path)
    requires root < p
    ensures root + [p[|root|]] <= p
    ensures p[..|root| + 1] == root + [p[|root|]]
  {
  }

  /** Being wanted below a readable, visible child is being wanted below its parent. */
  lemma WantedThroughChild(t: Tree, root: Path, n: Name, hidden: bool, p: Path)
    requires t.Keys >= {root} && t[root] == Dir(true) && (hidden || !IsHidden(n))
    requires root + [n] < p
    ensures Wanted(t, root + [n], hidden, p) <==> Wanted(t, root, hidden, p)
  {
    var c := root + [n];
    assert p[|root|] == c[|root|] == n;
    assert root < c;
    if Reached(t, c, p) {
      forall d | root <= d < p ensures d in t && t[d] == Dir(true) {
        if |d| == |root| {
          assert d == root;
        } else {
          assert c <= d;
        }
      }
    }
    if Visible(c, p, hidden) && !hidden {
      forall k | |root| <= k < |p| ensures !IsHidden(p[k]) {
      }
    }
  }

  /** A name listed below child `n` resolves to the same path from its parent. */
  lemma SubdirEntry(t: Tree, root: Path, prefix: Path, n: Name, hidden: bool, name: Path)
    requires root in t && t[root] == Dir(true) && (hidden || !IsHidden(n)) && prefix + [n] < name
    requires Wanted(t, root + [n], hidden, Resolve(root + [n], prefix + [n], name))
    ensures prefix < name && name[|prefix|] == n
    ensures Resolve(root, prefix, name) == Resolve(root + [n], prefix + [n], name)
    ensures Wanted(t, root, hidden, Resolve(root, prefix, name))
  {
    hide Wanted;
    assert (prefix + [n])[|prefix|] == n;
    assert name[|prefix|..] == [n] + name[|prefix| + 1..];
    assert Resolve(root, prefix, name) == Resolve(root + [n], prefix + [n], name);
    WantedThroughChild(t, root, n, hidden, Resolve(root, prefix, name));
  }

  lemma SubdirWanted(t: Tree, root: Path, prefix: Path, hidden: bool, p: Path)
    requires root in t && t[root] == Dir(true) && Wanted(t, root, hidden, p)
    requires var c := root + [p[|root|]]; c in t && !t[c].File? && (hidden || !IsHidden(p[|root|]))
    ensures var n := p[|root|];
            var c := root + [n];
            c < p && Wanted(t, c, hidden, p) && prefix + p[|root|..] == (prefix + [n]) + p[|c|..]
  {
    hide Wanted;
    var c := root + [p[|root|]];
    FirstStep(root, p);
    assert c <= p && c != p;
    WantedThroughChild(t, root, p[|root|], hidden, p);
  }

  lemma AddSubdir(t: Tree, root: Path, prefix: Path, hidden: bool, files: seq<Listed>, done: set<Name>,
                  n: Name, sub: seq<Listed>)
    requires Lists(t, root, prefix, hidden, files, done) && n !in done
    requires root in t && t[root] == Dir(true) && (hidden || !IsHidden(n)) && root + [n] in t && !t[root + [n]].File?
    requires ListsAll(t, root + [n], prefix + [n], hidden, sub)
    ensures Lists(t, root, prefix, hidden, files + sub, done + {n})
  {
    hide Wanted, Resolve, NoDuplicates, OnlyWanted;
    SubdirNames(t, root, prefix, hidden, n, sub);
    forall e | e in files + sub ensures prefix < e.name && e.name[|prefix|] in done + {n} {
    }
    forall p | Wanted(t, root, hidden, p) && p[|root|] in done + {n}
      ensures Listed(prefix + p[|root|..], t[p].size) in files + sub
    {
      if p[|root|] == n { SubdirWanted(t, root, prefix, hidden, p); }
    }
    JoinedOnlyWanted(t, root, prefix, hidden, files, sub);
    JoinedNoDuplicates(prefix, files, sub, done, n);
  }

  lemma SubdirNames(t: Tree, root: Path, prefix: Path, hidden: bool, n: Name, sub: seq<Listed>)
    requires root in t && t[root] == Dir(true) && (hidden || !IsHidden(n))
    requires OnlyWanted(t, root + [n], prefix + [n], hidden, sub)
    ensures OnlyWanted(t, root, prefix, hidden, sub)
    ensures forall e | e in sub :: prefix < e.name && e.name[|prefix|] == n
  {
    hide Wanted, Resolve;
    forall e | e in sub
      ensures prefix < e.name && e.name[|prefix|] == n
      ensures var p := Resolve(root, prefix, e.name); Wanted(t, root, hidden, p) && t[p].size == e.size
    {
      SubdirEntry(t, root, prefix, n, hidden, e.name);
    }
  }

  lemma JoinedOnlyWanted(t: Tree, root: Path, prefix: Path, hidden: bool, files: seq<Listed>, sub: seq<Listed>)
    requires OnlyWanted(t, root, prefix, hidden, files) && OnlyWanted(t, root, prefix, hidden, sub)
    ensures OnlyWanted(t, root, prefix, hidden, files + sub)
  {
    hide Wanted, Resolve;
  }

  lemma JoinedNoDuplicates(prefix: Path, files: seq<Listed>, sub: seq<Listed>, done: set<Name>, n: Name)
    requires NoDuplicates(files) && NoDuplicates(sub) && n !in done
    requires forall e | e in files :: prefix < e.name && e.name[|prefix|] in done
    requires forall e | e in sub :: prefix < e.name && e.name[|prefix|] == n
    ensures NoDuplicates(files + sub)
  {
    forall a, b | 0 <= a < |files| && 0 <= b < |sub| ensures files[a].name != sub[b].name {
      assert files[a] in files && sub[b] in sub;
    }
  }

  lemma FileIsWanted(t: Tree, root: Path, hidden: bool, n: Name)
    requires root in t && t[root] == Dir(true) && (hidden || !IsHidden(n)) && root + [n] in t && t[root + [n]].File?
    ensures Wanted(t, root, hidden, root + [n])
  {
    var c := root + [n];
    forall d | root <= d < c ensures d in t && t[d] == Dir(true) {
      assert d == root;
    }
  }

  /** Wanted files lie at or below a child that is a file or a readable directory. */
  lemma WantedUnder(t: Tree, root: Path, hidden: bool, p: Path)
    requires WellFormed(t) && Wanted(t, root, hidden, p)
    ensures var c := root + [p[|root|]];
            c in t && (t[c].File? || t[c] == Dir(true)) && (t[c].File? ==> p == c)
  {
    FirstStep(root, p);
    var c := root + [p[|root|]];
    if |p| > |c| {
      AncestorsAreDirs(t, p, |c|);
      assert p[..|c|] == c && root <= c < p;
      assert t[c] == Dir(true);
    } else {
      assert p == c;
    }
  }

  lemma AddFile(t: Tree, root: Path, prefix: Path, hidden: bool, files: seq<Listed>, done: set<Name>, n: Name)
    requires Lists(t, root, prefix, hidden, files, done) && n !in done && WellFormed(t)
    requires root in t && t[root] == Dir(true) && (hidden || !IsHidden(n)) && root + [n] in t && t[root + [n]].File?
    ensures Lists(t, root, prefix, hidden, files + [Listed(prefix + [n], t[root + [n]].size)], done + {n})
  {
    hide Wanted, WellFormed;
    var c := root + [n];
    var e := Listed(prefix + [n], t[c].size);
    assert Resolve(root, prefix, e.name) == c;
    FileIsWanted(t, root, hidden, n);
    forall p | Wanted(t, root, hidden, p) && p[|root|] == n ensures p == c {
      WantedUnder(t, root, hidden, p);
    }
    assert prefix + c[|root|..] == e.name;
    assert forall x :: x in files + [e] <==> x in files || x == e;
    forall a | 0 <= a < |files| ensures files[a].name != e.name {
      assert files[a] in files;
    }
  }

  /** Links and unreadable directories contribute nothing. */
  lemma AddNothing(t: Tree, root: Path, prefix: Path, hidden: bool, files: seq<Listed>, done: set<Name>, n: Name)
    requires Lists(t, root, prefix, hidden, files, done) && n !in done && WellFormed(t)
    requires root + [n] in t && !t[root + [n]].File? && t[root + [n]] != Dir(true)
    ensures Lists(t, root, prefix, hidden, files, done + {n})
  {
    hide Wanted, WellFormed;
    forall p | Wanted(t, root, hidden, p) ensures p[|root|] != n {
      WantedUnder(t, root, hidden, p);
    }
  }

  /** What the recursive listing returns: an error, also for a loop of links, the single file without a name, or all
      wanted files. */
  ghost predicate IsRecursiveListing(t: Tree, path: Path, prefix: Path, hidden: bool, r: Option<seq<Listed>>) {
    if path !in t || t[path] == Dir(false) || t[path].Link? then r == None
    else if t[path].File? then r == Some([Listed([], t[path].size)])
    else r.Some? && ListsAll(t, path, prefix, hidden, r.value)
  }

  lemma AllDone(t: Tree, root: Path, prefix: Path, hidden: bool, files: seq<Listed>,
                entries: seq<Entry>, done: set<Name>)
    requires WellFormed(t) && IsListing(t, root, hidden, entries) && Lists(t, root, prefix, hidden, files, done)
    requires forall e | e in entries :: e.name in done
    ensures ListsAll(t, root, prefix, hidden, files)
  {
    forall p | Wanted(t, root, hidden, p) ensures p[|root|] in done {
      FirstStep(root, p);
      var c := p[..|root| + 1];
      if |c| < |p| { AncestorsAreDirs(t, p, |c|); } else { assert c == p; }
      assert IsChild(root, c) && c[|root|] == p[|root|];
      assert Entry(c[|root|], TypeOf(t, c)) in entries;
    }
  }

  // ---------------------------------------------------------------------------------------
  // Sweeping

  /** What a sweep never removes: regular files, and directories it cannot read. */
  predicate Anchor(k: Kind) {
    k.File? || k == Dir(false)
  }

  /** The sweep does not get to `p`: a directory on the way cannot be read. */
  ghost predicate Blocked(t: Tree, root: Path, p: Path) {
    exists d | d in t :: root <= d < p && t[d] == Dir(false)
  }

  ghost predicate AnchorBelow(t: Tree, p: Path) {
    exists q | q in t :: p < q && Anchor(t[q])
  }

  ghost predicate Keeps(t: Tree, root: Path, p: Path)
    requires p in t
  {
    Blocked(t, root, p) || Anchor(t[p]) || (t[p].Dir? && AnchorBelow(t, p))
  }

  /** The tree after a sweep of `root`. */
  ghost function Swept(t: Tree, root: Path): Tree {
    map p | p in t && (root <= p ==> Keeps(t, root, p)) :: t[p]
  }

  /** The tree when the children with a name in `done` have been swept. */
  ghost function PartlySwept(t: Tree, root: Path, done: set<Name>): Tree {
    map p | p in t && (root < p && p[|root|] in done ==> Keeps(t, root, p)) :: t[p]
  }

  /** Main result: when every directory can be read, a sweep keeps every regular file and nothing but
      files and the directories above them; so the root itself goes exactly if it holds no file. */
  lemma SweepKeepsExactly(t: Tree, root: Path, p: Path)
    requires forall d | d in t && root <= d :: t[d] != Dir(false)
    requires p in t && root <= p
    ensures p in Swept(t, root) <==> t[p].File? || (t[p].Dir? && exists q | q in t :: p < q && t[q].File?)
    ensures p in Swept(t, root) ==> Swept(t, root)[p] == t[p]
  {
    if AnchorBelow(t, p) {
      var q :| q in t && p < q && Anchor(t[q]);
      assert root <= q;
    }
  }

  /** Nothing outside the root changes. */
  lemma SweepElsewhere(t: Tree, root: Path, p: Path)
    requires !(root <= p)
    ensures p in Swept(t, root) <==> p in t
    ensures p in t ==> Swept(t, root)[p] == t[p]
  {
  }

  /** Main result: a second sweep changes nothing. */
  lemma SweepTwice(t: Tree, root: Path)
    ensures Swept(Swept(t, root), root) == Swept(t, root)
  {
    var u := Swept(t, root);
    forall p | p in u && root <= p ensures Keeps(u, root, p) {
      if Blocked(t, root, p) {
        var d :| d in t && root <= d < p && t[d] == Dir(false);
        assert d in u;
      } else if t[p].Dir? && AnchorBelow(t, p) {
        var q :| q in t && p < q && Anchor(t[q]);
        assert root <= q && q in u;
      }
    }
    assert Swept(u, root) == u;
  }

  /** Whether a path below child `n` is kept depends only on what is below that child. */
  lemma KeepsLocally(t: Tree, u: Tree, root: Path, n: Name, p: Path)
    requires root in t && t[root] == Dir(true) && root + [n] <= p && p in t && p in u
    requires forall q | root + [n] <= q :: (q in t <==> q in u) && (q in t ==> t[q] == u[q])
    ensures Keeps(u, root + [n], p) <==> Keeps(t, root, p)
  {
    var c := root + [n];
    if Blocked(t, root, p) {
      var d :| d in t && root <= d < p && t[d] == Dir(false);
      BetweenRootAndPath(root, n, d, p);
      assert d in u && c <= d;
    }
    if Blocked(u, c, p) {
      var d :| d in u && c <= d < p && u[d] == Dir(false);
      assert d in t && root <= d;
    }
    if AnchorBelow(t, p) {
      var q :| q in t && p < q && Anchor(t[q]);
      assert c <= q && q in u;
    }
    if AnchorBelow(u, p) {
      var q :| q in u && p < q && Anchor(u[q]);
      assert c <= q && q in t;
    }
  }

  lemma BetweenRootAndPath(root: Path, n: Name, d: Path, p: Path)
    requires root <= d < p && root + [n] <= p
    ensures d == root || root + [n] <= d
  {
    if |d| == |root| {
      assert d == root;
    } else {
      assert d[|root|] == p[|root|] == (root + [n])[|root|];
    }
  }

  lemma NotYetSwept(t: Tree, root: Path, done: set<Name>, n: Name)
    requires n !in done
    ensures forall q | root + [n] <= q :: (q in t <==> q in PartlySwept(t, root, done))
  {
    forall q | root + [n] <= q ensures q in t <==> q in PartlySwept(t, root, done) {
      assert q[|root|] == (root + [n])[|root|] == n;
    }
  }

  lemma SubdirSwept(t: Tree, root: Path, done: set<Name>, n: Name)
    requires root in t && t[root] == Dir(true) && n !in done
    ensures Swept(PartlySwept(t, root, done), root + [n]) == PartlySwept(t, root, done + {n})
  {
    hide Keeps;
    var c := root + [n];
    var u := PartlySwept(t, root, done);
    NotYetSwept(t, root, done, n);
    forall p | p in t
      ensures p in Swept(u, c) <==> p in PartlySwept(t, root, done + {n})
    {
      if c <= p {
        KeepsLocally(t, u, root, n, p);
        assert p[|root|] == c[|root|] == n;
      } else if root < p && p[|root|] == n {
        FirstStep(root, p);
      }
    }
  }

  /** A child that is a file or an unreadable directory stays, with all below it. */
  lemma ChildStays(t: Tree, root: Path, done: set<Name>, n: Name)
    requires WellFormed(t) && root + [n] in t && Anchor(t[root + [n]])
    ensures PartlySwept(t, root, done + {n}) == PartlySwept(t, root, done)
  {
    var c := root + [n];
    forall p | p in t && root < p && p[|root|] == n ensures Keeps(t, root, p) {
      FirstStep(root, p);
      if p != c {
        AncestorsAreDirs(t, p, |c|);
        assert p[..|c|] == c && root <= c < p;
      }
    }
  }

  /** A child that is a link goes, and there is nothing below it. */
  lemma LinkGoes(t: Tree, root: Path, done: set<Name>, n: Name)
    requires WellFormed(t) && root in t && t[root] == Dir(true)
    requires root + [n] in t && t[root + [n]].Link?
    ensures PartlySwept(t, root, done + {n}) == PartlySwept(t, root, done) - {root + [n]}
  {
    hide WellFormed;
    var c := root + [n];
    assert c[|root|] == n && root < c;
    forall p | p in t && root < p && p[|root|] == n ensures p == c {
      FirstStep(root, p);
      LeafHasNothingBelow(t, c, p);
    }
    if Blocked(t, root, c) {
      var d :| d in t && root <= d < c && t[d] == Dir(false);
      BetweenRootAndPath(root, n, d, c);
    }
  }

  lemma LeafHasNothingBelow(t: Tree, c: Path, p: Path)
    requires WellFormed(t) && c in t && p in t && !t[c].Dir? && c <= p
    ensures p == c
  {
    hide WellFormed;
    assert p[..|c|] == c;
    if |c| < |p| {
      AncestorsAreDirs(t, p, |c|);
    }
  }

  lemma PartlySweptWellFormed(t: Tree, root: Path, done: set<Name>)
    requires WellFormed(t)
    ensures WellFormed(PartlySwept(t, root, done))
  {
    var u := PartlySwept(t, root, done);
    forall p | p in u && p != [] ensures p[..|p| - 1] in u && u[p[..|p| - 1]].Dir? {
      var parent := p[..|p| - 1];
      if root < parent && parent[|root|] in done {
        assert root < p && p[|root|] == parent[|root|];
        ParentKept(t, root, p);
      }
    }
  }

  lemma ParentKept(t: Tree, root: Path, p: Path)
    requires WellFormed(t) && p in t && p != [] && root < p[..|p| - 1] && Keeps(t, root, p)
    ensures Keeps(t, root, p[..|p| - 1])
  {
    var parent := p[..|p| - 1];
    if Blocked(t, root, p) {
      var d :| d in t && root <= d < p && t[d] == Dir(false);
      assert d < parent || d == parent;
    } else if AnchorBelow(t, p) {
      var q :| q in t && p < q && Anchor(t[q]);
      assert parent < q;
    } else {
      assert parent < p;
    }
  }

  /** With all children swept, the root is empty exactly if there was nothing to keep below it. */
  lemma RootEmptyIff(t: Tree, root: Path, done: set<Name>)
    requires WellFormed(t) && root in t && t[root] == Dir(true)
    requires forall p | p in t && root < p :: p[|root|] in done
    ensures Children(PartlySwept(t, root, done), root) != {} <==> AnchorBelow(t, root)
  {
    hide WellFormed, AnchorBelow;
    var u := PartlySwept(t, root, done);
    if AnchorBelow(t, root) {
      var c := AnchoredChild(t, root);
      assert c in Children(u, root);
    }
    if c :| c in Children(u, root) {
      assert root < c;
      ChildHasAnchor(t, root, c);
    }
  }

  lemma AnchoredChild(t: Tree, root: Path) returns (c: Path)
    requires WellFormed(t) && AnchorBelow(t, root)
    ensures c in t && IsChild(root, c) && root < c && Keeps(t, root, c)
  {
    var q :| q in t && root < q && Anchor(t[q]);
    FirstStep(root, q);
    c := q[..|root| + 1];
    if c != q { AncestorsAreDirs(t, q, |c|); }
  }

  lemma ChildHasAnchor(t: Tree, root: Path, c: Path)
    requires root in t && t[root] == Dir(true) && c in t && IsChild(root, c) && Keeps(t, root, c)
    ensures AnchorBelow(t, root)
  {
    assert root < c;
    assert forall d | d in t && root <= d < c :: d == root;
    if AnchorBelow(t, c) {
      var q :| q in t && c < q && Anchor(t[q]);
      assert root < q;
    }
  }

  lemma RootLast(t: Tree, root: Path, done: set<Name>)
    requires WellFormed(t) && root in t && t[root] == Dir(true)
    requires forall p | p in t && root < p :: p[|root|] in done
    ensures var u := PartlySwept(t, root, done);
            Swept(t, root) == if Children(u, root) == {} then u - {root} else u
  {
    hide WellFormed, AnchorBelow, Children;
    RootEmptyIff(t, root, done);
    var u := PartlySwept(t, root, done);
    assert Keeps(t, root, root) <==> AnchorBelow(t, root);
    RestOfRoot(t, root, done);
  }

  lemma RestOfRoot(t: Tree, root: Path, done: set<Name>)
    requires root in t && forall p | p in t && root < p :: p[|root|] in done
    ensures var u := PartlySwept(t, root, done);
            Swept(t, root) == if Keeps(t, root, root) then u else u - {root}
  {
    hide Keeps;
    forall p | p in t && root <= p && p != root ensures root < p {
    }
  }

  class FileTree {
    var entries: Tree

    constructor (entries: Tree)
      ensures this.entries == entries
    {
      this.entries := entries;
    }

    /** The entries of a directory, in whatever order the system returns them. */
    method ReadDir(path: Path, hidden: bool) returns (r: Option<seq<Entry>>)
      ensures var dir := Resolved(entries, path);
              && (r.Some? <==> dir in entries && entries[dir] == Dir(true))
              && (r.Some? ==> IsListing(entries, dir, hidden, r.value))
    {
      hide Resolved;
      var dir := Resolved(entries, path);
      if dir !in entries || entries[dir] != Dir(true) {
        return None;
      }
      var todo := Children(entries, dir);
      var list: seq<Entry> := [];
      while todo != {}
        invariant todo <= Children(entries, dir)
        invariant forall e | e in list :: dir + [e.name] in entries && dir + [e.name] !in todo
        invariant forall e | e in list :: TypeOf(entries, dir + [e.name]) == e.kind && (hidden || !IsHidden(e.name))
        invariant forall a, b | 0 <= a < b < |list| :: list[a].name != list[b].name
        invariant forall p | p in Children(entries, dir) - todo && (hidden || !IsHidden(p[|dir|])) ::
                    Entry(p[|dir|], TypeOf(entries, p)) in list
        decreases |todo|
      {
        var c :| c in todo;
        todo := todo - {c};
        var name := c[|dir|];
        assert dir + [name] == c;
        if !IsHidden(name) || hidden {
          assert forall e | e in list :: e.name != name;
          ghost var before := list;
          list := list + [Entry(name, TypeOf(entries, c))];
          assert forall e | e in list :: e in before || e == Entry(name, TypeOf(entries, c));
        }
      }
      AllListed(entries, dir, hidden, list);
      return Some(list);
    }

    method ReadDirRecursive(path: Path, prefix: Path, hidden: bool) returns (r: Option<seq<Listed>>)
      requires WellFormed(entries)
      ensures IsRecursiveListing(entries, Resolved(entries, path), prefix, hidden, r)
      decreases Below(entries, Resolved(entries, path))
    {
      hide WellFormed, Lists, ListsAll, Below, IsListing, Resolved, Location;
      var dir := Resolved(entries, path);
      if dir in entries && entries[dir].Dir? {
        var fd := ReadDir(path, hidden);
        if fd.None? {
          return None;
        }
        var files: seq<Listed> := [];
        ghost var done: set<Name> := {};
        NothingListed(entries, dir, prefix, hidden);
        for k := 0 to |fd.value|
          invariant Lists(entries, dir, prefix, hidden, files, done)
          invariant forall e | e in fd.value[..k] :: e.name in done
          invariant forall e | e in fd.value[k..] :: e.name !in done
        {
          var entry := fd.value[k];
          ListedEntry(entries, dir, hidden, fd.value, k);
          match entry.kind {
            case RegularFile(size) =>
              AddFile(entries, dir, prefix, hidden, files, done, entry.name);
              files := files + [Listed(prefix + [entry.name], size)];
            case SubDir =>
              ChildDir(entries, path, entry.name);
              var sub := ReadDirRecursive(path + [entry.name], prefix + [entry.name], hidden);
              if sub.Some? {
                AddSubdir(entries, dir, prefix, hidden, files, done, entry.name, sub.value);
                files := files + sub.value;
              } else {
                AddNothing(entries, dir, prefix, hidden, files, done, entry.name);
              }
            case _ =>
              AddNothing(entries, dir, prefix, hidden, files, done, entry.name);
          }
          done := done + {entry.name};
        }
        assert fd.value[..|fd.value|] == fd.value;
        AllDone(entries, dir, prefix, hidden, files, fd.value, done);
        return Some(files);
      } else if dir in entries && entries[dir].File? {
        return Some([Listed([], entries[dir].size)]);
      } else {
        return None;
      }
    }

    /** Removes what is not a directory; a link itself, not what it leads to. */
    method RemoveFile(path: Path)
      modifies this
      ensures var q := Location(old(entries), path);
              entries == if q in old(entries) && !old(entries)[q].Dir? then old(entries) - {q} else old(entries)
    {
      var q := Location(entries, path);
      if q in entries && !entries[q].Dir? {
        entries := entries - {q};
      }
    }

    /** Removes an empty directory; fails on a link to one. */
    method RemoveDir(path: Path)
      modifies this
      ensures var q := Location(old(entries), path);
              entries == if q in old(entries) && old(entries)[q].Dir? && Children(old(entries), q) == {}
                         then old(entries) - {q} else old(entries)
    {
      var q := Location(entries, path);
      if q in entries && entries[q].Dir? && Children(entries, q) == {} {
        entries := entries - {q};
      }
    }

    /** Removes links, and directories in which nothing is left. Whatever links the path takes, at most what an
        exact sweep removes is removed, so no regular file and nothing outside the directory the path
        leads to; and unless the path runs through that very directory, it is swept exactly. */
    method RemoveAllEmptyDir(path: Path) returns (ok: bool)
      requires WellFormed(entries)
      modifies this
      ensures var dir := Resolved(old(entries), path);
              ok == (dir in old(entries) && old(entries)[dir] == Dir(true))
      ensures Loses(old(entries), entries)
      ensures !ok ==> entries == old(entries)
      ensures Spares(old(entries), entries, Resolved(old(entries), path))
      ensures ok && Outside(old(entries), path) ==> entries == SweptThrough(old(entries), path)
      decreases Below(entries, Resolved(entries, path))
    {
      hide WellFormed, Swept, PartlySwept, Below, IsListing, Children, Resolved, Location, Loses, Outside, Spares;
      var fd := ReadDir(path, true);
      LosesNothing(entries);
      NothingRemoved(entries, Resolved(entries, path));
      if fd.None? {
        return false;
      }
      ghost var t := entries;
      ghost var dir := Resolved(t, path);
      ghost var done: set<Name> := {};
      NothingSwept(t, dir);
      for k := 0 to |fd.value|
        invariant Loses(t, entries) && Spares(t, entries, dir)
        invariant Outside(t, path) ==> entries == PartlySwept(t, dir, done)
        invariant forall e | e in fd.value[..k] :: e.name in done
        invariant forall e | e in fd.value[k..] :: e.name !in done
      {
        var entry := fd.value[k];
        ListedEntry(t, dir, true, fd.value, k);
        ghost var u := entries;
        ghost var c := dir + [entry.name];
        LosesWellFormed(t, u);
        EntryLater(t, u, path, entry.name);
        if Outside(t, path) {
          SweepNext(t, dir, done, entry.name);
          StaysOutside(t, path, done, entry.name);
        }
        match entry.kind {
          case SubDir =>
            var _ := RemoveAllEmptyDir(path + [entry.name]);
          case LinkToDir =>
            RemoveFile(path + [entry.name]);
            LeafRemoved(u, c);
          case LinkToFile =>
            RemoveFile(path + [entry.name]);
            LeafRemoved(u, c);
          case RegularFile(_) =>
            LosesNothing(u);
        }
        LosesMore(t, u, entries);
        EntrySpared(t, u, entries, dir, entry.name);
        done := done + {entry.name};
      }
      assert fd.value[..|fd.value|] == fd.value;
      ghost var u := entries;
      LosesWellFormed(t, u);
      if Outside(t, path) {
        AllSwept(t, dir, fd.value, done);
        DirLast(t, path, done);
      }
      RemoveDir(path);
      LeafRemoved(u, Location(u, path));
      LosesMore(t, u, entries);
      DirSpared(t, u, path);
      return true;
    }
  }

  // ---------------------------------------------------------------------------------------
  // Sweeping through links

  /** `u` is `t` without some links and directories. */
  ghost predicate Loses(t: Tree, u: Tree) {
    && WellFormed(u)
    && (forall p | p in u :: p in t && u[p] == t[p])
    && (forall p | p in t && t[p].File? :: p in u)
  }

  /** What a sweep of `dir` keeps of `t` is still there in `u`. */
  ghost predicate Spares(t: Tree, u: Tree, dir: Path) {
    forall p | p in Swept(t, dir) :: p in u
  }

  /** Leaving entry `n` of the swept directory, removing it as a link or sweeping it as a directory spares what a
      sweep of the whole directory keeps. */
  lemma EntrySpared(t: Tree, u: Tree, v: Tree, dir: Path, n: Name)
    requires Loses(t, u) && Spares(t, u, dir)
    requires dir in t && t[dir] == Dir(true) && dir + [n] in t
    requires var c := dir + [n];
             v == u || (t[c].Link? && v == u - {c}) || (t[c].Dir? && Spares(u, v, c))
    ensures Spares(t, v, dir)
  {
    hide WellFormed;
    var c := dir + [n];
    forall p | p in Swept(t, dir) ensures p in v {
      if t[c].Dir? && Spares(u, v, c) {
        if c <= p { StillKept(t, u, dir, n, p); }
        assert p in Swept(u, c);
      } else if p == c && t[c].Link? {
        LinkNotKept(t, dir, n);
      }
    }
  }

  lemma LinkNotKept(t: Tree, dir: Path, n: Name)
    requires dir in t && t[dir] == Dir(true) && dir + [n] in t && t[dir + [n]].Link?
    ensures dir + [n] !in Swept(t, dir)
  {
    var c := dir + [n];
    assert dir <= c;
    forall d | d in t && dir <= d < c ensures d == dir {
      BetweenRootAndPath(dir, n, d, c);
    }
  }

  /** What the sweep of a directory keeps below an entry, the sweep of the entry keeps. */
  lemma StillKept(t: Tree, u: Tree, dir: Path, n: Name, p: Path)
    requires Loses(t, u) && Spares(t, u, dir) && dir in t && t[dir] == Dir(true)
    requires dir + [n] <= p && p in Swept(t, dir)
    ensures p in u && Keeps(u, dir + [n], p)
  {
    hide WellFormed;
    var c := dir + [n];
    assert dir <= p;
    forall q | q in t && dir <= q && Anchor(t[q]) ensures q in u && u[q] == t[q] {
      assert q in Swept(t, dir);
    }
    if Blocked(t, dir, p) {
      var d :| d in t && dir <= d < p && t[d] == Dir(false);
      BetweenRootAndPath(dir, n, d, p);
      assert c <= d && d in u;
    } else if AnchorBelow(t, p) {
      var q :| q in t && p < q && Anchor(t[q]);
      assert dir <= q && q in u;
    }
  }

  /** Removing the swept directory itself, once nothing is left in it. */
  lemma DirSpared(t: Tree, u: Tree, path: Path)
    requires WellFormed(t) && Loses(t, u) && Spares(t, u, Resolved(t, path))
    requires Resolved(t, path) in t && t[Resolved(t, path)] == Dir(true)
    ensures var q := Location(u, path);
            q in u && u[q].Dir? && Children(u, q) == {} ==> Spares(t, u - {q}, Resolved(t, path))
  {
    hide WellFormed, Find;
    var dir, q := Resolved(t, path), Location(u, path);
    LosesWellFormed(t, u);
    SameOrNowhere(t, u, path, {});
    if q in u && u[q].Dir? {
      assert q == dir;
      if AnchorBelow(t, dir) {
        var a :| a in t && dir < a && Anchor(t[a]);
        assert a in Swept(t, dir);
        HasChild(u, dir, a);
      }
    }
  }

  lemma HasChild(u: Tree, dir: Path, a: Path)
    requires WellFormed(u) && a in u && dir < a
    ensures Children(u, dir) != {}
  {
    FirstStep(dir, a);
    var c := a[..|dir| + 1];
    if c != a { AncestorsAreDirs(u, a, |c|); }
    assert c in Children(u, dir);
  }

  /** The path does not run through the inside of the directory it leads to. */
  ghost predicate Outside(t: Tree, path: Path) {
    forall q | q in Trail(t, path, {}) :: !(Resolved(t, path) < q)
  }

  /** The tree after a sweep of what `path` leads to: a directory reached through a link stays, even if empty. */
  ghost function SweptThrough(t: Tree, path: Path): Tree
    requires Resolved(t, path) in t
  {
    var dir := Resolved(t, path);
    if Location(t, path) == dir then Swept(t, dir) else Swept(t, dir)[dir := t[dir]]
  }

  /** A directory named without links is swept as it is. */
  lemma PlainSweep(t: Tree, path: Path)
    requires WellFormed(t) && path in t && t[path].Dir?
    ensures Resolved(t, path) == path && Outside(t, path) && SweptThrough(t, path) == Swept(t, path)
  {
    hide Swept, WellFormed, Find, Follow, Trail;
    PlainPath(t, path);
    PlainTrail(t, path);
  }

  lemma {:induction false} PlainTrail(t: Tree, p: Path)
    requires WellFormed(t) && p in t && !t[p].Link?
    ensures forall q | q in Trail(t, p, {}) :: q <= p
    decreases |p|
  {
    PlainPath(t, p);
    if p != [] { PlainTrail(t, p[..|p| - 1]); }
  }

  lemma NothingRemoved(t: Tree, dir: Path)
    ensures Spares(t, t, dir)
  {
  }

  lemma LosesNothing(t: Tree)
    requires WellFormed(t)
    ensures Loses(t, t)
  {
  }

  lemma LosesWellFormed(t: Tree, u: Tree)
    requires Loses(t, u)
    ensures WellFormed(u)
  {
  }

  lemma LosesMore(t: Tree, u: Tree, v: Tree)
    requires Loses(t, u) && Loses(u, v)
    ensures Loses(t, v)
  {
    hide WellFormed;
  }

  lemma LeafRemoved(u: Tree, c: Path)
    requires WellFormed(u)
    ensures c in u && (u[c].Link? || (u[c].Dir? && Children(u, c) == {})) ==> Loses(u, u - {c})
    ensures Loses(u, u)
  {
    forall p | p in u && p != [] ensures p[..|p| - 1] in u && (p[..|p| - 1] == c ==> p in Children(u, c)) {
    }
  }

  /** With some links and directories gone, a path leads where it led or nowhere. */
  lemma {:induction false} SameOrNowhere(t: Tree, u: Tree, p: Path, seen: set<Path>)
    requires WellFormed(t) && Loses(t, u)
    ensures Follow(u, p, seen) == Follow(t, p, seen) || Follow(u, p, seen) !in u
    decreases |t.Keys - seen|, |p|
  {
    if p != [] {
      var parent := p[..|p| - 1];
      SameOrNowhere(t, u, parent, seen);
      var q := Find(u, p, seen);
      assert q[..|q| - 1] == Follow(u, parent, seen);
    }
    var q := Find(u, p, seen);
    if IsNewLink(u, q, seen) {
      FewerLinks(t, q, seen);
      SameOrNowhere(t, u, u[q].target, seen + {q});
    }
  }

  /** A path that leads somewhere finds everything on its way. */
  lemma {:induction false} TrailPresent(t: Tree, p: Path, seen: set<Path>)
    requires WellFormed(t) && Follow(t, p, seen) in t
    ensures Trail(t, p, seen) <= t.Keys
    decreases |t.Keys - seen|, |p|
  {
    var q := Find(t, p, seen);
    if IsNewLink(t, q, seen) {
      FewerLinks(t, q, seen);
      TrailPresent(t, t[q].target, seen + {q});
    }
    if p != [] {
      assert q[..|q| - 1] == Follow(t, p[..|p| - 1], seen);
      TrailPresent(t, p[..|p| - 1], seen);
    }
  }

  /** With everything on the way still there, a path leads where it led, by the same way. */
  lemma {:induction false} SameWay(t: Tree, u: Tree, p: Path, seen: set<Path>)
    requires Loses(t, u) && Trail(t, p, seen) <= u.Keys
    ensures Find(u, p, seen) == Find(t, p, seen) && Follow(u, p, seen) == Follow(t, p, seen)
    ensures Trail(u, p, seen) == Trail(t, p, seen)
    decreases |t.Keys - seen|, |p|
  {
    hide WellFormed, Find, Follow, Trail;
    OneStep(t, p, seen);
    OneStep(u, p, seen);
    if p != [] { SameWay(t, u, p[..|p| - 1], seen); }
    var q := Find(t, p, seen);
    assert q in Trail(t, p, seen);
    if IsNewLink(t, q, seen) {
      FewerLinks(t, q, seen);
      SameWay(t, u, t[q].target, seen + {q});
    }
  }

  lemma OneStep(t: Tree, p: Path, seen: set<Path>)
    ensures var q := Find(t, p, seen);
            && q == (if p == [] then [] else Follow(t, p[..|p| - 1], seen) + [p[|p| - 1]])
            && Follow(t, p, seen) == (if IsNewLink(t, q, seen) then Follow(t, t[q].target, seen + {q}) else q)
            && Trail(t, p, seen)
               == (if p == [] then {} else Trail(t, p[..|p| - 1], seen)) + {q}
                  + (if IsNewLink(t, q, seen) then Trail(t, t[q].target, seen + {q}) else {})
  {
  }

  lemma ChildDir(t: Tree, path: Path, n: Name)
    requires var c := Resolved(t, path) + [n]; c in t && !t[c].Link?
    ensures Resolved(t, path + [n]) == Resolved(t, path) + [n]
    ensures Below(t, Resolved(t, path) + [n]) < Below(t, Resolved(t, path))
  {
    hide Below;
    ChildPath(t, path, n);
    ChildBelow(t, Resolved(t, path), Resolved(t, path) + [n]);
  }

  /** An entry of a directory, looked up again later: it is found where it was or not at all. */
  lemma EntryLater(t: Tree, u: Tree, path: Path, n: Name)
    requires WellFormed(t) && Loses(t, u) && Resolved(t, path) + [n] in t
    ensures var c := Resolved(t, path) + [n];
            && (Location(u, path + [n]) in u ==> Location(u, path + [n]) == c && u[c] == t[c])
            && (t[c].Dir? ==>
                  && Below(u, Resolved(u, path + [n])) < Below(t, Resolved(t, path))
                  && (Resolved(u, path + [n]) in u ==> Resolved(u, path + [n]) == c))
  {
    hide Below;
    var dir := Resolved(t, path);
    var c := dir + [n];
    LosesWellFormed(t, u);
    SameOrNowhere(t, u, path, {});
    ChildPath(u, path, n);
    ChildBelow(t, dir, c);
    var q := Location(u, path + [n]);
    assert q[..|q| - 1] == Resolved(u, path);
    if q in u {
      FewerBelow(t, u, c);
    } else {
      NothingBelow(u, q);
    }
  }

  lemma FewerBelow(t: Tree, u: Tree, c: Path)
    requires Loses(t, u)
    ensures Below(u, c) <= Below(t, c)
  {
    hide WellFormed;
  }

  lemma NothingBelow(u: Tree, q: Path)
    requires WellFormed(u) && q !in u
    ensures Below(u, q) == {}
  {
    forall p | p in u ensures q < p ==> q in u {
      if q < p { AncestorPresent(u, p, q); }
    }
  }

  lemma AncestorPresent(u: Tree, p: Path, q: Path)
    requires WellFormed(u) && p in u && q < p
    ensures q in u
  {
    AncestorsAreDirs(u, p, |q|);
    assert p[..|q|] == q;
  }

  /** Sweeping the inside of a directory leaves a path from outside as it was. */
  lemma PathStays(t: Tree, path: Path, done: set<Name>)
    requires WellFormed(t) && Resolved(t, path) in t && Outside(t, path)
    requires Loses(t, PartlySwept(t, Resolved(t, path), done))
    ensures var u := PartlySwept(t, Resolved(t, path), done);
            && Location(u, path) == Location(t, path) && Trail(u, path, {}) == Trail(t, path, {})
            && Resolved(u, path) == Resolved(t, path) && Resolved(t, path) in u
            && (Location(t, path) != Resolved(t, path) ==> Location(t, path) in t && t[Location(t, path)].Link?)
  {
    hide WellFormed, Loses, Keeps, Find, Trail;
    var dir := Resolved(t, path);
    var u := PartlySwept(t, dir, done);
    TrailPresent(t, path, {});
    forall q | q in Trail(t, path, {}) ensures q in u {
      assert q in t && !(dir < q);
    }
    SameWay(t, u, path, {});
  }

  /** So the next entry is found where it was, and swept exactly if it is a directory. */
  lemma StaysOutside(t: Tree, path: Path, done: set<Name>, n: Name)
    requires WellFormed(t) && Resolved(t, path) in t && Outside(t, path)
    requires Loses(t, PartlySwept(t, Resolved(t, path), done))
    requires var c := Resolved(t, path) + [n]; c in t && c in PartlySwept(t, Resolved(t, path), done)
    ensures var u, c := PartlySwept(t, Resolved(t, path), done), Resolved(t, path) + [n];
            && Location(u, path + [n]) == c
            && (t[c].Dir? ==> Resolved(u, path + [n]) == c && Outside(u, path + [n])
                              && SweptThrough(u, path + [n]) == Swept(u, c))
  {
    hide WellFormed, Loses, Keeps, PartlySwept, Swept, Find, Trail;
    var dir := Resolved(t, path);
    var u, c := PartlySwept(t, dir, done), dir + [n];
    SameEntry(t, dir, done, c);
    PathStays(t, path, done);
    ChildPath(u, path, n);
    if t[c].Dir? {
      ChildTrail(u, path, n);
      forall q | q in Trail(u, path + [n], {}) ensures !(c < q) {
        BelowChild(dir, n, q);
      }
    }
  }

  lemma ChildTrail(u: Tree, path: Path, n: Name)
    requires var c := Resolved(u, path) + [n]; c in u && !u[c].Link?
    ensures Trail(u, path + [n], {}) == Trail(u, path, {}) + {Resolved(u, path) + [n]}
    ensures Resolved(u, path + [n]) == Resolved(u, path) + [n]
  {
    assert (path + [n])[..|path|] == path;
  }

  lemma SameEntry(t: Tree, dir: Path, done: set<Name>, c: Path)
    requires c in PartlySwept(t, dir, done)
    ensures c in t && PartlySwept(t, dir, done)[c] == t[c]
  {
  }

  lemma BelowChild(dir: Path, n: Name, q: Path)
    ensures dir + [n] < q ==> dir < q
  {
  }

  /** Removing what the path names, last of all. */
  lemma DirLast(t: Tree, path: Path, done: set<Name>)
    requires WellFormed(t) && Resolved(t, path) in t && t[Resolved(t, path)] == Dir(true) && Outside(t, path)
    requires Loses(t, PartlySwept(t, Resolved(t, path), done))
    requires forall p | p in t && Resolved(t, path) < p :: p[|Resolved(t, path)|] in done
    ensures var u := PartlySwept(t, Resolved(t, path), done);
            var q := Location(u, path);
            SweptThrough(t, path) == if q in u && u[q].Dir? && Children(u, q) == {} then u - {q} else u
  {
    hide WellFormed, Loses, PartlySwept, Swept, Location, Resolved, Children, Trail;
    var dir := Resolved(t, path);
    var u := PartlySwept(t, dir, done);
    RootLast(t, dir, done);
    PathStays(t, path, done);
    var q := Location(u, path);
    assert q == Location(t, path);
    SameEntry(t, dir, done, dir);
    if q != dir {
      if q in u { SameEntry(t, dir, done, q); }
      assert (u - {dir})[dir := t[dir]] == u;
      assert u[dir := t[dir]] == u;
    }
  }

  lemma AllListed(t: Tree, dir: Path, hidden: bool, list: seq<Entry>)
    requires forall a, b | 0 <= a < b < |list| :: list[a].name != list[b].name
    requires forall e | e in list ::
               dir + [e.name] in t && TypeOf(t, dir + [e.name]) == e.kind && (hidden || !IsHidden(e.name))
    requires forall p | p in Children(t, dir) && (hidden || !IsHidden(p[|dir|])) ::
               Entry(p[|dir|], TypeOf(t, p)) in list
    ensures IsListing(t, dir, hidden, list)
  {
    hide IsHidden, TypeOf;
    assert forall p | p in t && IsChild(dir, p) :: p in Children(t, dir);
  }

  lemma NothingSwept(t: Tree, root: Path)
    ensures PartlySwept(t, root, {}) == t
  {
  }

  /** The next child, before and after its turn. */
  lemma SweepNext(t: Tree, root: Path, done: set<Name>, n: Name)
    requires WellFormed(t) && root in t && t[root] == Dir(true) && root + [n] in t && n !in done
    ensures var u := PartlySwept(t, root, done);
            var c := root + [n];
            var next := PartlySwept(t, root, done + {n});
            && WellFormed(u) && c in u && u[c] == t[c]
            && Below(u, c) < Below(t, root)
            && match t[c]
               case File(_) => next == u
               case Dir(readable) => next == (if readable then Swept(u, c) else u)
               case _ => next == u - {c}
  {
    hide Keeps, Swept, WellFormed;
    var c := root + [n];
    PartlySweptWellFormed(t, root, done);
    NotYetSwept(t, root, done, n);
    ChildBelow(t, root, c);
    var u := PartlySwept(t, root, done);
    assert Below(u, c) <= Below(t, c);
    if Anchor(t[c]) {
      ChildStays(t, root, done, n);
    } else if t[c].Dir? {
      SubdirSwept(t, root, done, n);
    } else {
      LinkGoes(t, root, done, n);
    }
  }

  lemma AllSwept(t: Tree, root: Path, entries: seq<Entry>, done: set<Name>)
    requires WellFormed(t) && IsListing(t, root, true, entries)
    requires forall e | e in entries :: e.name in done
    ensures forall p | p in t && root < p :: p[|root|] in done
  {
    forall p | p in t && root < p ensures p[|root|] in done {
      FirstStep(root, p);
      var c := p[..|root| + 1];
      if |c| < |p| { AncestorsAreDirs(t, p, |c|); } else { assert c == p; }
      assert IsChild(root, c) && c[|root|] == p[|root|];
      assert Entry(c[|root|], TypeOf(t, c)) in entries;
    }
  }

  lemma NothingListed(t: Tree, root: Path, prefix: Path, hidden: bool)
    ensures Lists(t, root, prefix, hidden, [], {})
  {
  }

  lemma ListedEntry(t: Tree, dir: Path, hidden: bool, entries: seq<Entry>, k: nat)
    requires IsListing(t, dir, hidden, entries) && k < |entries|
    ensures dir + [entries[k].name] in t && TypeOf(t, dir + [entries[k].name]) == entries[k].kind
    ensures hidden || !IsHidden(entries[k].name)
    ensures IsChild(dir, dir + [entries[k].name])
    ensures forall e | e in entries[k + 1..] :: e.name != entries[k].name
    ensures forall e | e in entries[..k + 1] :: e in entries[..k] || e == entries[k]
    ensures forall e | e in entries[k + 1..] :: e in entries[k..]
  {
    assert entries[k] in entries;
  }
}
