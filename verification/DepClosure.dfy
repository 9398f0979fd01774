/**
 Which libraries of an image are needed: the worklist of `dep_closure`, and the list of those that can
 be removed.
 */
module DepClosure {

  /** What the script has read: the paths of the binaries, the names in the library directory, the names
      each of these files needs, and which paths exist. */
  datatype Image = Image(
    libdir: string, bins: seq<string>, files: seq<string>,
    deps: map<string, set<string>>, onDisk: set<string>, keep: set<string>)

  /** The library directory is `<root>/system/lib64`; directory listings give plain names. */
  predicate ValidImage(s: Image) {
    && s.libdir != "" && s.libdir[|s.libdir| - 1] != '/'
    && forall f :: f in s.files ==> Plain(f)
  }

  predicate Plain(name: string) {
    name != "" && '/' !in name
  }

  /** `os.path.join(libdir, name)`: an absolute name replaces the directory. */
  function Join(libdir: string, name: string): (path: string)
    ensures path != ""
  {
    if name != "" && name[0] == '/' then name else libdir + "/" + name
  }

  /** `os.path.basename`. */
  function Basename(path: string): string {
    if path == "" || path[|path| - 1] == '/' then ""
    else Basename(path[..|path| - 1]) + [path[|path| - 1]]
  }

  /** `dep_map.get(path, set())`. */
  function Needs(s: Image, path: string): set<string> {
    if path in s.deps then s.deps[path] else {}
  }

  // ----- What is reachable ---------------------------------------------------------------------

  /** Names of which the first is needed by a binary, and each by the library on disk before it. */
  ghost predicate IsChain(s: Image, chain: seq<string>) {
    && chain != []
    && (exists b :: b in s.bins && chain[0] in Needs(s, b))
    && forall i :: 0 < i < |chain| ==> IsLink(s, chain, i)
  }

  predicate IsLink(s: Image, chain: seq<string>, i: nat)
    requires 0 < i < |chain|
  {
    var n := chain[i - 1];
    var path := if n != "" && n[0] == '/' then n else s.libdir + "/" + n;
    path in s.onDisk && chain[i] in Needs(s, path)
  }

  ghost predicate Reachable(s: Image, name: string) {
    exists chain :: IsChain(s, chain) && chain[|chain| - 1] == name
  }

  /** Contains what the binaries need, and with a library on disk also what that needs. */
  ghost predicate Closed(s: Image, names: set<string>) {
    && (forall b :: b in s.bins ==> Needs(s, b) <= names)
    && forall n :: n in names && Join(s.libdir, n) in s.onDisk ==> Needs(s, Join(s.libdir, n)) <= names
  }

  lemma FromBinary(s: Image, b: string, name: string)
    requires b in s.bins && name in Needs(s, b)
    ensures Reachable(s, name)
  {
    assert IsChain(s, [name]) && [name][|[name]| - 1] == name;
  }

  lemma FromLibrary(s: Image, n: string, name: string)
    requires Reachable(s, n) && Join(s.libdir, n) in s.onDisk && name in Needs(s, Join(s.libdir, n))
    ensures Reachable(s, name)
  {
    var chain :| IsChain(s, chain) && chain[|chain| - 1] == n;
    var longer := chain + [name];
    assert longer[0] == chain[0];
    forall i | 0 < i < |longer|
      ensures IsLink(s, longer, i)
    {
      if i < |chain| {
        assert IsLink(s, chain, i);
      }
    }
    assert IsChain(s, longer) && longer[|longer| - 1] == name;
  }

  lemma {:induction false} ChainInside(s: Image, names: set<string>, chain: seq<string>, i: nat)
    requires Closed(s, names) && IsChain(s, chain) && i < |chain|
    ensures chain[i] in names
  {
    if i > 0 {
      assert IsLink(s, chain, i);
      ChainInside(s, names, chain, i - 1);
    }
  }

  lemma ReachableInside(s: Image, names: set<string>, n: string)
    requires Closed(s, names) && Reachable(s, n)
    ensures n in names
  {
    hide Closed;
    var chain :| IsChain(s, chain) && chain[|chain| - 1] == n;
    ChainInside(s, names, chain, |chain| - 1);
  }

  /** A closed set of reachable names is the set of reachable names, and the least closed set. */
  lemma LeastFixpoint(s: Image, names: set<string>)
    requires Closed(s, names) && forall n :: n in names ==> Reachable(s, n)
    ensures forall n :: n in names <==> Reachable(s, n)
    ensures forall other :: Closed(s, other) ==> names <= other
  {
    hide Closed, Reachable;
    forall n | Reachable(s, n)
      ensures n in names
    {
      ReachableInside(s, names, n);
    }
    forall other | Closed(s, other)
      ensures names <= other
    {
      forall n | n in names
        ensures n in other
      {
        ReachableInside(s, other, n);
      }
    }
  }

  // ----- The worklist --------------------------------------------------------------------------

  function AllNames(s: Image): set<string> {
    set p, d | p in s.deps && d in s.deps[p] :: d
  }

  /** Whatever is found in the file is reachable. */
  ghost predicate Reaches(s: Image, path: string) {
    forall d :: d in Needs(s, path) ==> Reachable(s, d)
  }

  /** A file has been looked at, or waits in the queue. */
  ghost predicate Seen(s: Image, closure: set<string>, queue: seq<string>, path: string) {
    path in queue || Needs(s, path) <= closure
  }

  /** The worklist: what is collected is reachable, and what it leads to is collected or waits. `p` is the
      file being looked at, of which `todo` is left. */
  ghost predicate Working(s: Image, closure: set<string>, queue: seq<string>, p: string, todo: set<string>) {
    && closure <= AllNames(s) && (forall n :: n in closure ==> Reachable(s, n))
    && (forall q :: q in queue ==> Reaches(s, q))
    && todo <= Needs(s, p) && Reaches(s, p) && Needs(s, p) <= closure + todo
    && (forall b :: b in s.bins ==> Seen(s, closure, queue, b) || b == p)
    && forall n :: n in closure && Join(s.libdir, n) in s.onDisk ==>
         Seen(s, closure, queue, Join(s.libdir, n)) || Join(s.libdir, n) == p
  }

  /** The worklist between two files. */
  ghost predicate Idle(s: Image, closure: set<string>, queue: seq<string>) {
    && closure <= AllNames(s) && (forall n :: n in closure ==> Reachable(s, n))
    && (forall q :: q in queue ==> Reaches(s, q))
    && (forall b :: b in s.bins ==> Seen(s, closure, queue, b))
    && forall n :: n in closure && Join(s.libdir, n) in s.onDisk ==> Seen(s, closure, queue, Join(s.libdir, n))
  }

  lemma StartIdle(s: Image)
    ensures Idle(s, {}, s.bins)
  {
    forall b | b in s.bins
      ensures Reaches(s, b)
    {
      forall d | d in Needs(s, b)
        ensures Reachable(s, d)
      {
        FromBinary(s, b, d);
      }
    }
  }

  lemma TakeLast(s: Image, closure: set<string>, queue: seq<string>)
    requires Idle(s, closure, queue) && queue != []
    ensures var p := queue[|queue| - 1]; Working(s, closure, queue[..|queue| - 1], p, Needs(s, p))
  {
    hide Reachable, Reaches, Join, Needs;
    var p := queue[|queue| - 1];
    assert queue == queue[..|queue| - 1] + [p];
  }

  lemma KnownName(s: Image, closure: set<string>, queue: seq<string>, p: string, todo: set<string>, d: string)
    requires Working(s, closure, queue, p, todo) && d in closure
    ensures Working(s, closure, queue, p, todo - {d})
  {
    hide Reachable, Reaches, Join, Needs, Seen;
  }

  lemma NewName(s: Image, closure: set<string>, queue: seq<string>, p: string, todo: set<string>, d: string)
    requires Working(s, closure, queue, p, todo) && d in todo
    ensures var lp := Join(s.libdir, d);
            Working(s, closure + {d}, if lp in s.onDisk then queue + [lp] else queue, p, todo - {d})
  {
    hide Reachable, Join;
    var lp := Join(s.libdir, d);
    var queue' := if lp in s.onDisk then queue + [lp] else queue;
    assert Reachable(s, d);
    if lp in s.onDisk {
      forall x | x in Needs(s, lp)
        ensures Reachable(s, x)
      {
        FromLibrary(s, d, x);
      }
      assert Reaches(s, lp);
      assert lp == queue'[|queue|];
    }
    forall path | Seen(s, closure, queue, path)
      ensures Seen(s, closure + {d}, queue', path)
    {
      assert queue <= queue';
    }
  }

  lemma NothingLeft(s: Image, closure: set<string>, queue: seq<string>, p: string)
    requires Working(s, closure, queue, p, {})
    ensures Idle(s, closure, queue)
  {
    hide Reachable, Reaches, Join, Needs;
  }

  lemma Finished(s: Image, closure: set<string>)
    requires Idle(s, closure, [])
    ensures Closed(s, closure)
  {
    hide Reachable, Reaches, Join, Needs;
  }

  /** Collects what the binaries need, directly or through libraries on disk. The order in which the names
      of one file are looked at does not matter. */
  method Closure(s: Image) returns (closure: set<string>)
    ensures forall n :: n in closure <==> Reachable(s, n)
    ensures Closed(s, closure)
    ensures forall other :: Closed(s, other) ==> closure <= other
  {
    hide Reachable, Idle, Working, Closed, Join, Needs;
    closure := {};
    var queue := s.bins;
    StartIdle(s);
    while queue != []
      invariant Idle(s, closure, queue)
      decreases AllNames(s) - closure, |queue|
    {
      TakeLast(s, closure, queue);
      ghost var closure0, queue0 := closure, queue[..|queue| - 1];
      var p := queue[|queue| - 1];
      queue := queue[..|queue| - 1];
      var todo := Needs(s, p);
      while todo != {}
        invariant Working(s, closure, queue, p, todo)
        invariant closure0 <= closure && (closure == closure0 ==> queue == queue0)
        decreases todo
      {
        var d :| d in todo;
        if d !in closure {
          NewName(s, closure, queue, p, todo, d);
          closure := closure + {d};
          var lp := Join(s.libdir, d);
          if lp in s.onDisk {
            queue := queue + [lp];
          }
        } else {
          KnownName(s, closure, queue, p, todo, d);
        }
        todo := todo - {d};
      }
      NothingLeft(s, closure, queue, p);
      IdleNames(s, closure, queue);
      if closure != closure0 {
        var n :| n in closure && n !in closure0;
        assert n in AllNames(s) - closure0 && n !in AllNames(s) - closure;
      }
    }
    Finished(s, closure);
    IdleNames(s, closure, []);
    LeastFixpoint(s, closure);
  }

  lemma IdleNames(s: Image, closure: set<string>, queue: seq<string>)
    requires Idle(s, closure, queue)
    ensures closure <= AllNames(s) && forall n :: n in closure ==> Reachable(s, n)
  {
    hide Reachable;
  }

  // ----- What can be removed -------------------------------------------------------------------

  /** The paths of those of the first `i` files that are neither in the closure nor to be kept. */
  function RemovableOf(s: Image, closure: set<string>, i: nat): seq<string>
    requires i <= |s.files|
  {
    if i == 0 then []
    else
      var f := s.files[i - 1];
      RemovableOf(s, closure, i - 1) + if f in closure || f in s.keep then [] else [Join(s.libdir, f)]
  }

  lemma {:induction false} BasenameOfJoin(dir: string, f: string)
    requires '/' !in f
    ensures Basename(dir + "/" + f) == f
    decreases |f|
  {
    var path := dir + "/" + f;
    if f == "" {
      assert path[|path| - 1] == '/';
    } else {
      assert path[..|path| - 1] == dir + "/" + f[..|f| - 1];
      BasenameOfJoin(dir, f[..|f| - 1]);
      assert path[|path| - 1] == f[|f| - 1];
    }
  }

  method Removable(s: Image, closure: set<string>) returns (removable: seq<string>)
    requires ValidImage(s)
    ensures removable == RemovableOf(s, closure, |s.files|)
    ensures forall f :: f in s.files && f !in closure && f !in s.keep ==> s.libdir + "/" + f in removable
    ensures forall p :: p in removable ==> Removes(s, closure, p)
    ensures Distinct(s.files) ==> Distinct(removable)
  {
    removable := [];
    var i := 0;
    while i < |s.files|
      invariant 0 <= i <= |s.files| && removable == RemovableOf(s, closure, i)
    {
      assert s.files[i] in s.files;
      BasenameOfJoin(s.libdir, s.files[i]);
      var p := Join(s.libdir, s.files[i]);
      var base := Basename(p);
      if base !in closure && base !in s.keep {
        removable := removable + [p];
      }
      i := i + 1;
    }
    RemovableAre(s, closure, |s.files|);
  }

  /** A path in the library directory of a file that is neither in the closure nor to be kept. */
  ghost predicate Removes(s: Image, closure: set<string>, p: string) {
    exists f :: f in s.files && f !in closure && f !in s.keep && p == s.libdir + "/" + f
  }

  predicate Distinct(names: seq<string>) {
    forall i, j :: 0 <= i < j < |names| ==> names[i] != names[j]
  }

  lemma {:induction false} RemovableAre(s: Image, closure: set<string>, i: nat)
    requires ValidImage(s) && i <= |s.files|
    ensures forall f :: f in s.files[..i] && f !in closure && f !in s.keep ==>
              s.libdir + "/" + f in RemovableOf(s, closure, i)
    ensures forall p :: p in RemovableOf(s, closure, i) ==> Removes(s, closure, p)
    ensures Distinct(s.files[..i]) ==> Distinct(RemovableOf(s, closure, i))
  {
    if i > 0 {
      var g, front := s.files[i - 1], RemovableOf(s, closure, i - 1);
      assert g in s.files && g[0] in g;
      RemovableAre(s, closure, i - 1);
      assert s.files[..i] == s.files[..i - 1] + [g];
      if Distinct(s.files[..i]) && g !in closure && g !in s.keep {
        NotYet(s, closure, i - 1, g);
      }
    }
  }

  lemma NotYet(s: Image, closure: set<string>, i: nat, g: string)
    requires ValidImage(s) && i < |s.files| && g == s.files[i] && Distinct(s.files[..i + 1])
    ensures Distinct(s.files[..i]) && Join(s.libdir, g) !in RemovableOf(s, closure, i)
  {
    hide RemovableOf;
    assert g in s.files;
    RemovableWhen(s, closure, i, g);
    var all := s.files[..i + 1];
    assert all[i] == g && forall k :: 0 <= k < i ==> all[k] == s.files[..i][k];
  }

  lemma JoinInjective(libdir: string, f: string, n: string)
    requires Plain(f) && libdir != "" && libdir[|libdir| - 1] != '/' && Join(libdir, n) == Join(libdir, f)
    ensures n == f || (n == Join(libdir, f) && n[0] == '/')
  {
    assert f[0] in f;
    if n == "" || n[0] != '/' {
      assert n == (libdir + "/" + n)[|libdir| + 1..];
      assert f == (libdir + "/" + f)[|libdir| + 1..];
    }
  }

  lemma {:induction false} RemovableWhen(s: Image, closure: set<string>, i: nat, f: string)
    requires ValidImage(s) && i <= |s.files| && Plain(f)
    ensures Join(s.libdir, f) in RemovableOf(s, closure, i) <==> f in s.files[..i] && f !in closure && f !in s.keep
  {
    if i > 0 {
      var g := s.files[i - 1];
      assert g in s.files && f[0] in f;
      RemovableWhen(s, closure, i - 1, f);
      assert s.files[..i] == s.files[..i - 1] + [g];
      if Join(s.libdir, g) == Join(s.libdir, f) {
        JoinInjective(s.libdir, f, g);
        assert g[0] in g;
      }
    }
  }

  // ----- Files -----------------------------------------------------------------------------------

  /** The disk: the file that each existing path leads to, through symbolic links and the like, and the
      names that each file needs. */
  datatype Disk = Disk(leadsTo: map<string, string>, needs: map<string, set<string>>)

  function FileNeeds(k: Disk, path: string): set<string> {
    if path in k.leadsTo && k.leadsTo[path] in k.needs then k.needs[k.leadsTo[path]] else {}
  }

  /** The paths of the binaries and libraries. */
  function Listed(libdir: string, bins: seq<string>, files: seq<string>): set<string> {
    (set b | b in bins) + (set f | f in files :: Join(libdir, f))
  }

  /** The script has read the disk: it asks of any path whether it exists, but has looked only into the
      binaries and the listed libraries. */
  predicate HasRead(s: Image, k: Disk) {
    && s.onDisk == k.leadsTo.Keys
    && s.deps.Keys == Listed(s.libdir, s.bins, s.files)
    && forall p :: p in s.deps ==> s.deps[p] == FileNeeds(k, p)
  }

  /** What the script would have read had it looked everywhere, as the loader does. */
  function Everywhere(s: Image, k: Disk): Image {
    s.(deps := map p | p in k.leadsTo :: FileNeeds(k, p))
  }

  /** A name that the loader looks for. */
  ghost predicate Wanted(s: Image, k: Disk, name: string) {
    Reachable(Everywhere(s, k), name)
  }

  /** Libraries that were found but not looked into need nothing new. */
  predicate NothingUnlisted(s: Image, k: Disk, names: set<string>) {
    forall n :: n in names && Join(s.libdir, n) !in s.deps ==> FileNeeds(k, Join(s.libdir, n)) <= names
  }

  lemma NeedsAre(s: Image, k: Disk, p: string)
    requires HasRead(s, k)
    ensures Needs(Everywhere(s, k), p) == FileNeeds(k, p)
    ensures Needs(s, p) == if p in s.deps then FileNeeds(k, p) else {}
  {
  }

  lemma BinariesAreRead(s: Image, k: Disk, b: string)
    requires HasRead(s, k) && b in s.bins
    ensures Needs(s, b) == Needs(Everywhere(s, k), b)
  {
    NeedsAre(s, k, b);
  }

  /** The closure is closed for the loader exactly when it lacks nothing that unlisted libraries need. */
  lemma ClosedEverywhere(s: Image, k: Disk, names: set<string>)
    requires HasRead(s, k) && Closed(s, names)
    ensures Closed(Everywhere(s, k), names) <==> NothingUnlisted(s, k, names)
  {
    hide HasRead, Everywhere, FileNeeds, Needs;
    var w := Everywhere(s, k);
    EverywhereKeeps(s, k);
    forall b | b in s.bins
      ensures Needs(w, b) <= names
    {
      BinariesAreRead(s, k, b);
    }
    forall n
      ensures var p := Join(s.libdir, n);
              && Needs(w, p) == FileNeeds(k, p) && (p in s.deps ==> Needs(s, p) == FileNeeds(k, p))
              && (p !in s.onDisk ==> FileNeeds(k, p) == {})
    {
      NeedsAre(s, k, Join(s.libdir, n));
      if Join(s.libdir, n) !in s.onDisk {
        NothingThere(s, k, Join(s.libdir, n));
      }
    }
  }

  lemma EverywhereKeeps(s: Image, k: Disk)
    ensures var w := Everywhere(s, k); w.bins == s.bins && w.libdir == s.libdir && w.onDisk == s.onDisk
  {
  }

  lemma NothingThere(s: Image, k: Disk, p: string)
    requires HasRead(s, k) && p !in s.onDisk
    ensures FileNeeds(k, p) == {}
  {
  }

  lemma {:induction false} ChainEverywhere(s: Image, k: Disk, chain: seq<string>)
    requires HasRead(s, k) && IsChain(s, chain)
    ensures IsChain(Everywhere(s, k), chain)
  {
    hide HasRead, Everywhere, FileNeeds, Needs;
    var w := Everywhere(s, k);
    EverywhereKeeps(s, k);
    var b :| b in s.bins && chain[0] in Needs(s, b);
    BinariesAreRead(s, k, b);
    forall i | 0 < i < |chain|
      ensures IsLink(w, chain, i)
    {
      assert IsLink(s, chain, i);
      NeedsAre(s, k, Join(s.libdir, chain[i - 1]));
    }
  }

  /** What the worklist collects is wanted; and it is everything that is wanted exactly when the libraries
      that it found outside the listing need nothing new. */
  lemma ClosureIsWanted(s: Image, k: Disk, closure: set<string>)
    requires HasRead(s, k) && Closed(s, closure) && forall n :: n in closure <==> Reachable(s, n)
    ensures forall n :: n in closure ==> Wanted(s, k, n)
    ensures (forall n :: Wanted(s, k, n) ==> n in closure) <==> NothingUnlisted(s, k, closure)
  {
    hide HasRead, Everywhere, NothingUnlisted, Closed, FileNeeds, Needs;
    var w := Everywhere(s, k);
    forall n | n in closure
      ensures Reachable(w, n)
    {
      var chain :| IsChain(s, chain) && chain[|chain| - 1] == n;
      ChainEverywhere(s, k, chain);
    }
    ClosedEverywhere(s, k, closure);
    if Closed(w, closure) {
      LeastFixpoint(w, closure);
    } else if forall n :: Wanted(s, k, n) ==> n in closure {
      WantedIsClosed(s, k, closure);
      assert false;
    }
  }

  lemma WantedIsClosed(s: Image, k: Disk, names: set<string>)
    requires forall n :: n in names <==> Wanted(s, k, n)
    ensures Closed(Everywhere(s, k), names)
  {
    hide Everywhere, IsChain, Needs, Join;
    var w := Everywhere(s, k);
    forall b, d | b in w.bins && d in Needs(w, b)
      ensures d in names
    {
      FromBinary(w, b, d);
      assert Wanted(s, k, d);
    }
    forall n, d | n in names && Join(w.libdir, n) in w.onDisk && d in Needs(w, Join(w.libdir, n))
      ensures d in names
    {
      assert Wanted(s, k, n);
      FromLibrary(w, n, d);
      assert Wanted(s, k, d);
    }
  }

  // ----- When removing is safe -------------------------------------------------------------------

  predicate SameFile(k: Disk, p: string, q: string) {
    p in k.leadsTo && q in k.leadsTo && k.leadsTo[p] == k.leadsTo[q]
  }

  /** The loader finds the file at `path`, by whatever name. */
  ghost predicate Loaded(s: Image, k: Disk, path: string) {
    exists n :: Wanted(s, k, n) && SameFile(k, Join(s.libdir, n), path)
  }

  /** Some other name in the closure leads to the file of the library `f`. */
  predicate Aliased(s: Image, k: Disk, closure: set<string>, f: string) {
    exists n :: n in closure && n != f && SameFile(k, Join(s.libdir, n), Join(s.libdir, f))
  }

  /** Every library on disk that any file names is in the listing, and no two libraries of the listing are
      the same file. */
  predicate Straight(s: Image, k: Disk) {
    && (forall n :: n in AllNames(s) && Join(s.libdir, n) in s.onDisk ==> n in s.files)
    && forall f, g :: f in s.files && g in s.files && SameFile(k, Join(s.libdir, f), Join(s.libdir, g)) ==> f == g
  }

  /** A library that is not in the closure is loaded exactly when another name in the closure leads to it. */
  lemma LoadedWhen(s: Image, k: Disk, closure: set<string>, f: string)
    requires forall n :: n in closure <==> Wanted(s, k, n)
    requires f !in closure
    ensures Loaded(s, k, Join(s.libdir, f)) <==> Aliased(s, k, closure, f)
  {
    hide Wanted, SameFile;
    if Loaded(s, k, Join(s.libdir, f)) {
      var n :| Wanted(s, k, n) && SameFile(k, Join(s.libdir, n), Join(s.libdir, f));
      assert n in closure && n != f;
    }
    if Aliased(s, k, closure, f) {
      var n :| n in closure && n != f && SameFile(k, Join(s.libdir, n), Join(s.libdir, f));
      assert Wanted(s, k, n);
    }
  }

  /** If different paths lead to different files, a library is loaded exactly when it is there and its name
      is wanted, or its whole path, as a name. */
  lemma LoadedByPath(s: Image, k: Disk, f: string)
    requires ValidImage(s) && Plain(f) && forall p, q :: SameFile(k, p, q) ==> p == q
    ensures var p := Join(s.libdir, f);
            Loaded(s, k, p) <==> p in k.leadsTo && (Wanted(s, k, f) || (p[0] == '/' && Wanted(s, k, p)))
  {
    hide Wanted;
    var p := Join(s.libdir, f);
    if Loaded(s, k, p) {
      var n :| Wanted(s, k, n) && SameFile(k, Join(s.libdir, n), p);
      JoinInjective(s.libdir, f, n);
    }
    if p in k.leadsTo && p[0] == '/' && Wanted(s, k, p) {
      assert Join(s.libdir, p) == p;
    }
  }

  /** In a straight image the closure is all that is wanted, and no library in it has another name. */
  lemma StraightIsSafe(s: Image, k: Disk, closure: set<string>)
    requires HasRead(s, k) && Straight(s, k) && closure <= AllNames(s)
    ensures NothingUnlisted(s, k, closure)
    ensures forall f :: f in s.files ==> !Aliased(s, k, closure, f)
  {
    hide AllNames;
    forall n | n in closure && Join(s.libdir, n) !in s.deps
      ensures FileNeeds(k, Join(s.libdir, n)) <= closure
    {
      assert Join(s.libdir, n) !in s.onDisk;
    }
    forall f, n | f in s.files && n in closure && SameFile(k, Join(s.libdir, n), Join(s.libdir, f))
      ensures n == f
    {
      assert n in s.files;
    }
  }

  /** What the script prints. Of the libraries listed, the removable ones are those that are not to be kept
      and whose names no chain from a binary reaches. Provided that the libraries found outside the listing
      need nothing new, removing one takes nothing away that is loaded, unless another name in the closure
      leads to the same file; and in a straight image, neither can happen: no removable library is loaded, and
      any other on disk is loaded or to be kept. */
  method RemovableLibraries(s: Image, ghost k: Disk) returns (closure: set<string>, removable: seq<string>)
    requires ValidImage(s) && HasRead(s, k)
    ensures forall n :: n in closure <==> Reachable(s, n)
    ensures forall f :: Plain(f) ==>
              (Join(s.libdir, f) in removable <==> f in s.files && !Reachable(s, f) && f !in s.keep)
    ensures forall f :: f in s.files && !Reachable(s, f) && f !in s.keep ==> s.libdir + "/" + f in removable
    ensures forall p :: p in removable ==>
              exists f :: f in s.files && !Reachable(s, f) && f !in s.keep && p == s.libdir + "/" + f
    ensures Distinct(s.files) ==> Distinct(removable)
    ensures NothingUnlisted(s, k, closure) <==> forall n :: Wanted(s, k, n) ==> n in closure
    ensures NothingUnlisted(s, k, closure) ==>
              forall f :: f in s.files && Join(s.libdir, f) in removable ==>
                (Loaded(s, k, Join(s.libdir, f)) <==> Aliased(s, k, closure, f))
    ensures Straight(s, k) ==>
              forall f :: f in s.files && Join(s.libdir, f) in s.onDisk ==>
                && (Join(s.libdir, f) in removable ==> !Loaded(s, k, Join(s.libdir, f)))
                && (Join(s.libdir, f) !in removable ==> f in s.keep || Loaded(s, k, Join(s.libdir, f)))
  {
    hide Reachable, Closed, Loaded, Join, RemovableOf, Wanted, Aliased, NothingUnlisted, Straight, HasRead, AllNames;
    closure := Closure(s);
    removable := Removable(s, closure);
    ClosureIsWanted(s, k, closure);
    forall f | Plain(f)
      ensures Join(s.libdir, f) in removable <==> f in s.files && !Reachable(s, f) && f !in s.keep
    {
      RemovableWhen(s, closure, |s.files|, f);
      assert s.files[..|s.files|] == s.files;
    }
    if NothingUnlisted(s, k, closure) {
      forall f | f in s.files && f !in closure
        ensures Loaded(s, k, Join(s.libdir, f)) <==> Aliased(s, k, closure, f)
      {
        LoadedWhen(s, k, closure, f);
      }
    }
    if Straight(s, k) {
      ReachableIsNamed(s, closure);
      StraightIsSafe(s, k, closure);
      forall f | f in s.files && f in closure && Join(s.libdir, f) in s.onDisk
        ensures Loaded(s, k, Join(s.libdir, f))
      {
        LoadedByName(s, k, f);
      }
    }
  }

  lemma LoadedByName(s: Image, k: Disk, f: string)
    requires HasRead(s, k) && Wanted(s, k, f) && Join(s.libdir, f) in s.onDisk
    ensures Loaded(s, k, Join(s.libdir, f))
  {
    hide Wanted;
  }

  lemma ReachableIsNamed(s: Image, names: set<string>)
    requires forall n :: n in names ==> Reachable(s, n)
    ensures names <= AllNames(s)
  {
    forall n | n in names
      ensures n in AllNames(s)
    {
      var chain :| IsChain(s, chain) && chain[|chain| - 1] == n;
      if |chain| > 1 {
        assert IsLink(s, chain, |chain| - 1);
      }
    }
  }

  // ----- When it is not --------------------------------------------------------------------------

  const LIBDIR := "/system/lib64"
  const PROGRAM := "/system/bin/x"

  /** An image of the root directory with one program. */
  function OneProgram(files: seq<string>, k: Disk): Image {
    Image(LIBDIR, [PROGRAM], files, map p | p in Listed(LIBDIR, [PROGRAM], files) :: FileNeeds(k, p), k.leadsTo.Keys,
      {})
  }

  /** `f` can be removed, and is loaded. */
  ghost predicate WronglyRemovable(s: Image, k: Disk, f: string) {
    f in s.files && !Reachable(s, f) && f !in s.keep && Loaded(s, k, Join(s.libdir, f))
  }

  lemma OneProgramRead(files: seq<string>, k: Disk)
    requires forall f :: f in files ==> Plain(f)
    ensures ValidImage(OneProgram(files, k)) && HasRead(OneProgram(files, k), k)
  {
    assert Join(LIBDIR, "") != "";
  }

  lemma NotReached(s: Image, names: set<string>, f: string)
    requires Closed(s, names) && f !in names
    ensures !Reachable(s, f)
  {
    hide Closed, Reachable;
    if Reachable(s, f) {
      ReachableInside(s, names, f);
    }
  }

  /** The program needs the library "a" by its whole path. */
  lemma RemovedThoughLoaded()
    ensures var a := Join(LIBDIR, "a");
            var k := Disk(map[PROGRAM := "x", a := "a"], map["x" := {a}]);
            var s := OneProgram(["a"], k);
            ValidImage(s) && HasRead(s, k) && WronglyRemovable(s, k, "a")
  {
    hide Wanted;
    var a := Join(LIBDIR, "a");
    var k := Disk(map[PROGRAM := "x", a := "a"], map["x" := {a}]);
    var s := OneProgram(["a"], k);
    OneProgramRead(["a"], k);
    assert |a| == 15 && |PROGRAM| == 13 && Join(LIBDIR, a) == a;
    NotReached(s, {a}, "a");
    WantedByProgram(s, k, a);
    assert SameFile(k, Join(LIBDIR, a), Join(LIBDIR, "a"));
  }

  lemma WantedByProgram(s: Image, k: Disk, n: string)
    requires PROGRAM in s.bins && n in FileNeeds(k, PROGRAM)
    ensures Wanted(s, k, n)
  {
    FromBinary(Everywhere(s, k), PROGRAM, n);
  }

  lemma PathsDiffer()
    ensures var a, b, c, d := Join(LIBDIR, "a"), Join(LIBDIR, "b"), Join(LIBDIR, "a.1"), Join(LIBDIR, "./a");
            a != b && a != c && a != d && b != c && b != d && c != d && PROGRAM !in {a, b, c, d}
  {
    var a, b, c, d := Join(LIBDIR, "a"), Join(LIBDIR, "b"), Join(LIBDIR, "a.1"), Join(LIBDIR, "./a");
    assert |a| == |b| == 15 && |c| == |d| == 17 && |PROGRAM| == 13;
    assert a[14] == 'a' && b[14] == 'b' && c[14] == 'a' && d[14] == '.';
  }

  /** The program needs "a", which is a symbolic link to "a.1". */
  lemma RemovedBehindLink()
    ensures var a, b := Join(LIBDIR, "a"), Join(LIBDIR, "a.1");
            var k := Disk(map[PROGRAM := "x", a := "a.1", b := "a.1"], map["x" := {"a"}]);
            var s := OneProgram(["a", "a.1"], k);
            ValidImage(s) && HasRead(s, k) && WronglyRemovable(s, k, "a.1")
  {
    hide Wanted, WronglyRemovable, Join, Reachable;
    var a, b := Join(LIBDIR, "a"), Join(LIBDIR, "a.1");
    var k := Disk(map[PROGRAM := "x", a := "a.1", b := "a.1"], map["x" := {"a"}]);
    var s := OneProgram(["a", "a.1"], k);
    OneProgramRead(["a", "a.1"], k);
    PathsDiffer();
    WantedByProgram(s, k, "a");
    LinkClosed(s, a);
    Wrong(s, k, "a.1", "a");
  }

  lemma LinkClosed(s: Image, a: string)
    requires s.bins == [PROGRAM] && a == Join(s.libdir, "a") && a in s.deps && s.deps[a] == {}
    requires PROGRAM in s.deps && s.deps[PROGRAM] == {"a"}
    ensures !Reachable(s, "a.1")
  {
    hide Reachable;
    NotReached(s, {"a"}, "a.1");
  }

  /** The program needs "./a", which leads to "a", which needs "b"; the script does not look into "./a". */
  lemma RemovedBehindUnlisted()
    ensures var a, b, c := Join(LIBDIR, "a"), Join(LIBDIR, "b"), Join(LIBDIR, "./a");
            var k := Disk(map[PROGRAM := "x", a := "a", b := "b", c := "a"], map["x" := {"./a"}, "a" := {"b"}]);
            var s := OneProgram(["a", "b"], k);
            ValidImage(s) && HasRead(s, k) && WronglyRemovable(s, k, "a") && WronglyRemovable(s, k, "b")
  {
    hide Wanted, WronglyRemovable, Join, Reachable;
    var a, b, c := Join(LIBDIR, "a"), Join(LIBDIR, "b"), Join(LIBDIR, "./a");
    var k := Disk(map[PROGRAM := "x", a := "a", b := "b", c := "a"], map["x" := {"./a"}, "a" := {"b"}]);
    var s := OneProgram(["a", "b"], k);
    OneProgramRead(["a", "b"], k);
    PathsDiffer();
    WantedByProgram(s, k, "./a");
    WantedNext(s, k, "./a", "b");
    UnlistedClosed(s, k, c);
    Wrong(s, k, "a", "./a");
    Wrong(s, k, "b", "b");
  }

  lemma UnlistedClosed(s: Image, k: Disk, c: string)
    requires s.bins == [PROGRAM] && c == Join(s.libdir, "./a") && c !in s.deps
    requires PROGRAM in s.deps && s.deps[PROGRAM] == {"./a"}
    ensures !Reachable(s, "a") && !Reachable(s, "b")
  {
    hide Reachable;
    NotReached(s, {"./a"}, "a");
    NotReached(s, {"./a"}, "b");
  }

  lemma WantedNext(s: Image, k: Disk, n: string, d: string)
    requires Wanted(s, k, n) && Join(s.libdir, n) in k.leadsTo && s.onDisk == k.leadsTo.Keys
    requires d in FileNeeds(k, Join(s.libdir, n))
    ensures Wanted(s, k, d)
  {
    hide Reachable;
    FromLibrary(Everywhere(s, k), n, d);
  }

  lemma Wrong(s: Image, k: Disk, f: string, n: string)
    requires f in s.files && !Reachable(s, f) && f !in s.keep
    requires Wanted(s, k, n) && SameFile(k, Join(s.libdir, n), Join(s.libdir, f))
    ensures WronglyRemovable(s, k, f)
  {
    hide Wanted, Reachable;
  }
}
