/** From the tree to the job: the names a recursive listing gives its files, as the strings `Path::join`
    makes of them, and the reading job built from such a listing. */
module Listing {
  import opened Octets
  import D = Directory
  import opened Transfer

  /** A name as the file system has it. */
  ghost predicate IsName(n: string) {
    n != "" && '/' !in n
  }

  ghost predicate AreNames(p: D.Path) {
    forall n | n in p :: IsName(n)
  }

  /** A path as a string. */
  function Render(p: D.Path): string {
    if p == [] then ""
    else if |p| == 1 then p[0]
    else p[0] + "/" + Render(p[1..])
  }

  lemma {:induction false} RenderEnds(p: D.Path)
    requires AreNames(p) && p != []
    ensures var s := Render(p); s != "" && s[0] != '/' && s[|s| - 1] != '/'
  {
    assert p[0] in p;
    if |p| > 1 { RenderEnds(p[1..]); }
  }

  /** Joining relative paths is joining their strings; so a listing's `prefix.join(name)` spells the path. */
  lemma {:induction false} RenderJoin(a: D.Path, b: D.Path)
    requires AreNames(a) && AreNames(b) && b != []
    ensures Render(b) != "" && JoinPath(Render(a), Render(b)) == Render(a + b)
    decreases |a|
  {
    RenderEnds(b);
    if a == [] {
      assert a + b == b;
    } else {
      RenderEnds(a);
      assert (a + b)[0] == a[0] && (a + b)[1..] == a[1..] + b;
      if |a| == 1 {
        assert a[1..] + b == b;
      } else {
        RenderEnds(a[1..]);
        RenderJoin(a[1..], b);
        Reassociate(a[0], Render(a[1..]), Render(b));
      }
    }
  }

  lemma Reassociate(x: string, y: string, z: string)
    ensures (x + "/" + y) + "/" + z == x + "/" + (y + "/" + z)
  {
  }

  /** Names are told apart by the first slash. */
  lemma {:induction false} RenderInjective(a: D.Path, b: D.Path)
    requires AreNames(a) && AreNames(b) && Render(a) == Render(b)
    ensures a == b
    decreases |a|
  {
    if a == [] {
      if b != [] { RenderEnds(b); }
    } else if b == [] {
      RenderEnds(a);
    } else {
      assert a[0] in a && b[0] in b;
      FirstName(a);
      FirstName(b);
      assert a[0] == b[0];
      if |a| > 1 && |b| > 1 {
        assert Render(a)[|a[0]| + 1..] == Render(a[1..]);
        assert Render(b)[|b[0]| + 1..] == Render(b[1..]);
        RenderInjective(a[1..], b[1..]);
      }
      assert a == [a[0]] + a[1..] && b == [b[0]] + b[1..];
    }
  }

  /** The first name is what comes before the first slash. */
  lemma FirstName(p: D.Path)
    requires AreNames(p) && p != []
    ensures p[0] == Before(Render(p))
    ensures |p| > 1 <==> '/' in Render(p)
  {
    assert p[0] in p;
    if |p| == 1 {
      BeforeSlash(p[0], "");
      assert p[0] + "" == p[0];
    } else {
      BeforeSlash(p[0], "/" + Render(p[1..]));
      assert Render(p) == p[0] + ("/" + Render(p[1..]));
      assert Render(p)[|p[0]|] == '/';
    }
  }

  function Before(s: string): string {
    if s == "" || s[0] == '/' then "" else [s[0]] + Before(s[1..])
  }

  lemma {:induction false} BeforeSlash(n: string, rest: string)
    requires '/' !in n && (rest == "" || rest[0] == '/')
    ensures Before(n + rest) == n
    decreases |n|
  {
    if n == "" {
      assert n + rest == rest;
    } else {
      assert (n + rest)[0] == n[0] && (n + rest)[1..] == n[1..] + rest;
      BeforeSlash(n[1..], rest);
      assert n == [n[0]] + n[1..];
    }
  }

  // ---------------------------------------------------------------------------------------
  // The job

  function Entries(files: seq<D.Listed>): (r: seq<FileEntry>)
    ensures |r| == |files|
    ensures forall k | 0 <= k < |files| :: r[k] == FileEntry(Render(files[k].name), files[k].size)
  {
    if files == [] then [] else [FileEntry(Render(files[0].name), files[0].size)] + Entries(files[1..])
  }

  ghost predicate NamedTree(t: D.Tree) {
    forall p | p in t :: AreNames(p)
  }

  /** The sizes of some files of the tree together. */
  ghost function SizeOf(t: D.Tree, s: set<D.Path>): nat
    requires forall p | p in s :: p in t && t[p].File?
  {
    if s == {} then 0
    else
      var p :| p in s;
      t[p].size + SizeOf(t, s - {p})
  }

  lemma {:induction false} SizeOfTake(t: D.Tree, s: set<D.Path>, p: D.Path)
    requires (forall p | p in s :: p in t && t[p].File?) && p in s
    ensures SizeOf(t, s) == t[p].size + SizeOf(t, s - {p})
    decreases |s|
  {
    var q :| q in s && SizeOf(t, s) == t[q].size + SizeOf(t, s - {q});
    if q != p {
      SizeOfTake(t, s - {q}, p);
      SizeOfTake(t, s - {p}, q);
      assert s - {q} - {p} == s - {p} - {q};
    }
  }

  ghost function Sources(root: D.Path, files: seq<D.Listed>): set<D.Path> {
    set e | e in files :: root + e.name
  }

  ghost function WantedFiles(t: D.Tree, root: D.Path, hidden: bool): set<D.Path> {
    set p | p in t && D.Wanted(t, root, hidden, p)
  }

  lemma SourcesCons(root: D.Path, e: D.Listed, rest: seq<D.Listed>)
    requires D.NoDuplicates([e] + rest)
    ensures Sources(root, [e] + rest) - {root + e.name} == Sources(root, rest)
    ensures root + e.name in Sources(root, [e] + rest)
  {
    var files := [e] + rest;
    assert forall x :: x in files <==> x == e || x in rest;
    forall x | x in rest ensures root + x.name != root + e.name {
      assert (root + x.name)[|root|..] == x.name && (root + e.name)[|root|..] == e.name;
      var k :| 0 <= k < |rest| && rest[k] == x;
      assert files[k + 1].name != files[0].name;
    }
  }

  lemma {:induction false} TotalOfDistinct(t: D.Tree, root: D.Path, files: seq<D.Listed>)
    requires D.NoDuplicates(files)
    requires forall e | e in files :: root + e.name in t && t[root + e.name] == D.File(e.size)
    ensures TotalSize(Entries(files)) == SizeOf(t, Sources(root, files))
    decreases files
  {
    hide SizeOf, Render;
    if files == [] {
      assert Sources(root, files) == {};
      NothingIsZero(t);
    } else {
      var e, rest := files[0], files[1..];
      assert files == [e] + rest;
      SourcesCons(root, e, rest);
      TotalOfDistinct(t, root, rest);
      assert Entries(files)[1..] == Entries(rest);
      SizeOfTake(t, Sources(root, files), root + e.name);
    }
  }

  lemma NothingIsZero(t: D.Tree)
    ensures SizeOf(t, {}) == 0
  {
  }

  /** The string of a root: relative, or absolute from the top. */
  function RootString(absolute: bool, p: D.Path): string {
    if absolute then "/" + Render(p) else Render(p)
  }

  lemma RootJoin(absolute: bool, a: D.Path, b: D.Path)
    requires AreNames(a) && AreNames(b) && (absolute || a != [])
    ensures Join(RootString(absolute, a), Render(b)) == RootString(absolute, a + b)
  {
    hide Render;
    RenderNothing();
    if b == [] {
      assert a + b == a;
    } else {
      RenderEnds(b);
      if a == [] {
        assert a + b == b;
        assert "/" + "" == "/";
      } else {
        RenderEnds(a);
        RenderJoin(a, b);
        SlashFirst(Render(a), Render(b));
      }
    }
  }

  lemma RenderNothing()
    ensures Render([]) == ""
  {
  }

  lemma SlashFirst(x: string, y: string)
    ensures ("/" + x) + "/" + y == "/" + (x + "/" + y)
    ensures x != "" ==> ("/" + x)[|x|] == x[|x| - 1]
  {
  }

  lemma RootInjective(absolute: bool, a: D.Path, b: D.Path)
    requires AreNames(a) && AreNames(b) && RootString(absolute, a) == RootString(absolute, b)
    ensures a == b
  {
    assert absolute ==> Render(a) == RootString(absolute, a)[1..] && Render(b) == RootString(absolute, b)[1..];
    RenderInjective(a, b);
  }

  /** Behind a path, whatever links it takes, names lead down the tree. */
  lemma {:induction false} ResolvedBehind(t: D.Tree, path: D.Path, name: D.Path)
    requires D.WellFormed(t) && D.Resolved(t, path) + name in t && !t[D.Resolved(t, path) + name].Link?
    ensures D.Resolved(t, path + name) == D.Resolved(t, path) + name
    decreases |name|
  {
    hide D.Resolved, D.Location, D.WellFormed;
    var dir := D.Resolved(t, path);
    if name == [] {
      assert path + name == path && dir + name == dir;
    } else {
      var front, last := name[..|name| - 1], name[|name| - 1];
      assert (dir + name)[..|dir + name| - 1] == dir + front;
      ParentIsDir(t, dir + name);
      ResolvedBehind(t, path, front);
      assert (path + front) + [last] == path + name && (dir + front) + [last] == dir + name;
      D.ChildPath(t, path + front, last);
      NoLinkAtEnd(t, path + name);
    }
  }

  lemma ParentIsDir(t: D.Tree, p: D.Path)
    requires D.WellFormed(t) && p in t && p != []
    ensures p[..|p| - 1] in t && t[p[..|p| - 1]].Dir?
  {
  }

  lemma NoLinkAtEnd(t: D.Tree, p: D.Path)
    requires D.Location(t, p) in t && !t[D.Location(t, p)].Link?
    ensures D.Resolved(t, p) == D.Location(t, p)
  {
    hide D.Find, D.Follow;
    D.OneStep(t, p, {});
  }

  /** The files a job of `dir` is to send: all the wanted ones, or `dir` itself if it is a file. */
  ghost function JobFiles(t: D.Tree, dir: D.Path, hidden: bool): set<D.Path>
    requires dir in t
  {
    if t[dir].File? then {dir} else WantedFiles(t, dir, hidden)
  }

  ghost predicate NamedEntries(files: seq<D.Listed>) {
    D.NoDuplicates(files) && forall e | e in files :: AreNames(e.name)
  }

  /** A job made of a listing under any root, the one listed or that of the receiving side, has distinct
      destinations. */
  lemma UnderAnyRoot(absolute: bool, root: D.Path, files: seq<D.Listed>, id: int)
    requires NamedEntries(files) && AreNames(root) && (absolute || root != [])
    ensures var j := NewJob(id, RootString(absolute, root), Entries(files));
            && (forall k | 0 <= k < |files| :: FinalPath(j, k) == RootString(absolute, root + files[k].name))
            && DistinctFinals(j)
  {
    hide Render, TotalSize, RootString, Join, AreNames;
    var j := NewJob(id, RootString(absolute, root), Entries(files));
    forall k | 0 <= k < |files| ensures FinalPath(j, k) == RootString(absolute, root + files[k].name) {
      assert files[k] in files;
      RootJoin(absolute, root, files[k].name);
    }
    forall a, b | 0 <= a < b < |files| ensures FinalPath(j, a) != FinalPath(j, b) {
      assert files[a] in files && files[b] in files;
      SameRootInjective(absolute, root, files[a].name, files[b].name);
    }
  }

  lemma SameRootInjective(absolute: bool, root: D.Path, a: D.Path, b: D.Path)
    requires AreNames(root) && AreNames(a) && AreNames(b) && a != b
    ensures RootString(absolute, root + a) != RootString(absolute, root + b)
  {
    hide AreNames, RootString;
    NamesTogether(root, a);
    NamesTogether(root, b);
    assert (root + a)[|root|..] == a && (root + b)[|root|..] == b;
    if RootString(absolute, root + a) == RootString(absolute, root + b) {
      RootInjective(absolute, root + a, root + b);
    }
  }

  /** Main result: the reading job made of the listing of any path, relative or absolute, to a file or a
      directory, through links or not, has one file for each regular file wanted, under distinct
      names that join to a path leading to that file; its total size is that of those files
      together. */
  lemma ListingMakesJob(t: D.Tree, absolute: bool, path: D.Path, hidden: bool, files: seq<D.Listed>, id: int)
    requires D.WellFormed(t) && NamedTree(t) && AreNames(path) && (absolute || path != [])
    requires D.IsRecursiveListing(t, D.Resolved(t, path), [], hidden, Some(files))
    ensures D.Resolved(t, path) in t && NamedEntries(files)
    ensures var j := NewJob(id, RootString(absolute, path), Entries(files));
            var dir := D.Resolved(t, path);
            && (forall k | 0 <= k < |files| ::
                  && FinalPath(j, k) == RootString(absolute, path + files[k].name)
                  && D.Resolved(t, path + files[k].name) == dir + files[k].name
                  && dir + files[k].name in JobFiles(t, dir, hidden))
            && DistinctFinals(j)
            && j.totalSize == SizeOf(t, JobFiles(t, dir, hidden))
  {
    hide Render, TotalSize, SizeOf, D.Wanted, RootString, D.Resolved, D.Location, D.WellFormed, D.IsRecursiveListing,
         DistinctFinals;
    var dir := D.Resolved(t, path);
    ListedAreJobFiles(t, dir, hidden, files);
    forall e | e in files
      ensures AreNames(e.name) && D.Resolved(t, path + e.name) == dir + e.name
    {
      NamesOfParts(dir, e.name);
      ResolvedBehind(t, path, e.name);
    }
    UnderAnyRoot(absolute, path, files, id);
    TotalOfDistinct(t, dir, files);
  }

  lemma ListedAreJobFiles(t: D.Tree, dir: D.Path, hidden: bool, files: seq<D.Listed>)
    requires D.IsRecursiveListing(t, dir, [], hidden, Some(files))
    ensures dir in t && Sources(dir, files) == JobFiles(t, dir, hidden) && D.NoDuplicates(files)
    ensures forall e | e in files :: dir + e.name in JobFiles(t, dir, hidden) && dir + e.name in t
                                     && t[dir + e.name] == D.File(e.size)
  {
    hide D.Wanted;
    if t[dir].File? {
      assert dir + [] == dir;
    } else {
      forall e | e in files ensures D.Wanted(t, dir, hidden, dir + e.name) && t[dir + e.name] == D.File(e.size) {
        assert D.Resolve(dir, [], e.name) == dir + e.name;
      }
      forall p | D.Wanted(t, dir, hidden, p) ensures p in Sources(dir, files) {
        assert D.Listed([] + p[|dir|..], t[p].size) in files;
        assert dir + ([] + p[|dir|..]) == p;
      }
      assert Sources(dir, files) == WantedFiles(t, dir, hidden);
    }
  }

  lemma NamesOfParts(a: D.Path, b: D.Path)
    requires AreNames(a + b)
    ensures AreNames(a) && AreNames(b)
  {
    forall n | n in a ensures IsName(n) { assert n in a + b; }
    forall n | n in b ensures IsName(n) { assert n in a + b; }
  }

  lemma NamesTogether(a: D.Path, b: D.Path)
    requires AreNames(a) && AreNames(b)
    ensures AreNames(a + b)
  {
  }
}
