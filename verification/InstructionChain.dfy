/** Discovery of the instruction files that govern a directory, over a file tree
    given by its real paths and by how every path resolves. */
module InstructionChain {
  import opened Outcomes
  import opened AgentFiles

  datatype InstructionFile = InstructionFile(source: Path, resolved: Path)

  function Candidate(directory: Path): Path {
    directory + [CANONICAL_NAME]
  }

  /** The candidate exists or is at least a link. */
  predicate Present(tree: FileTree, directory: Path) {
    tree.Exists(Candidate(directory)) || Candidate(directory) in tree.links
  }

  /** Why a present candidate cannot be used. */
  function Defect(tree: FileTree, directory: Path): Option<ValidationError> {
    var c := Candidate(directory);
    if !Present(tree, directory) then None
    else if tree.Resolve(c) == None then Some(CannotResolve(c))
    else if !tree.IsFile(c) then Some(NotAFile(c))
    else if !tree.Readable(c) then Some(Unreadable(c))
    else None
  }

  /** A dangling link cannot be resolved, what leads to a directory is not a file,
      and an unreadable file cannot be read; nothing else is complained of. */
  lemma DefectExact(tree: FileTree, directory: Path, e: ValidationError)
    requires tree.Valid()
    ensures var c := directory + [CANONICAL_NAME];
            Defect(tree, directory) == Some(e) <==>
            if c in tree.realPath then
              match tree.nodes[tree.realPath[c]]
              case Directory => e == NotAFile(c)
              case File(readable, _, _) => !readable && e == Unreadable(c)
            else c in tree.links && e == CannotResolve(c)
  {
  }

  /** The ancestor k levels below the root; the directory itself is its own
      deepest ancestor. */
  function Ancestor(directory: Path, k: nat): Path
    requires k <= |directory|
  {
    directory[..k]
  }

  /** On the way up, whatever exists under the canonical name, or is a link of
      that name, leads to a readable file: no dangling link, no directory. */
  predicate AllUsable(tree: FileTree, directory: Path) {
    forall k :: 0 <= k <= |directory| ==>
      var c := Candidate(Ancestor(directory, k));
      c in tree.links || tree.Exists(c) ==> tree.Readable(c)
  }

  lemma UsableMeansNoDefect(tree: FileTree, directory: Path)
    ensures AllUsable(tree, directory) <==>
            forall k :: 0 <= k <= |directory| ==> Defect(tree, Ancestor(directory, k)) == None
  {
  }

  // ---------------------------------------------------------------------
  // What the chain of a directory is.
  // ---------------------------------------------------------------------

  /** The real file the ancestor at depth k leads to, if any. */
  function RealAt(tree: FileTree, directory: Path, k: nat): Option<Path>
    requires k <= |directory|
  {
    var ancestor := Ancestor(directory, k);
    if Present(tree, ancestor) then tree.Resolve(Candidate(ancestor)) else None
  }

  function Resolved(s: seq<InstructionFile>): set<Path> {
    set i | 0 <= i < |s| :: s[i].resolved
  }

  /** The entry comes from the ancestor at depth k, and no deeper ancestor leads
      to the same real file. */
  ghost predicate Deepest(tree: FileTree, directory: Path, e: InstructionFile, k: nat) {
    && k <= |directory|
    && e.source == Candidate(Ancestor(directory, k))
    && RealAt(tree, directory, k) == Some(e.resolved)
    && forall j :: k < j <= |directory| ==> RealAt(tree, directory, j) != Some(e.resolved)
  }

  ghost predicate DistinctFiles(chain: seq<InstructionFile>) {
    forall i, j :: 0 <= i < j < |chain| ==> chain[i].resolved != chain[j].resolved
  }

  ghost predicate Covers(tree: FileTree, directory: Path, level: nat, files: set<Path>) {
    forall k :: level <= k <= |directory| && RealAt(tree, directory, k).Some? ==>
      RealAt(tree, directory, k).value in files
  }

  ghost predicate AllDeepest(tree: FileTree, directory: Path, level: nat, chain: seq<InstructionFile>) {
    forall i :: 0 <= i < |chain| ==> Depth(chain[i]) >= level && Deepest(tree, directory, chain[i], Depth(chain[i]))
  }

  /** The chain: strictly from root to leaf, each real file once and by its
      deepest occurrence, and no ancestor's file missing. */
  ghost predicate IsChain(tree: FileTree, directory: Path, chain: seq<InstructionFile>) {
    && AllDeepest(tree, directory, 0, chain)
    && (forall i, j :: 0 <= i < j < |chain| ==> Depth(chain[i]) < Depth(chain[j]))
    && DistinctFiles(chain)
    && Covers(tree, directory, 0, Resolved(chain))
  }

  /** How far below the root the entry's directory lies. */
  function Depth(e: InstructionFile): nat {
    if e.source == [] then 0 else |e.source| - 1
  }

  // ---------------------------------------------------------------------
  // The walk.
  // ---------------------------------------------------------------------

  function Reversed<T>(s: seq<T>): (r: seq<T>)
    ensures |r| == |s|
    ensures forall i :: 0 <= i < |s| ==> r[i] == s[|s| - 1 - i]
  {
    if s == [] then [] else Reversed(s[1..]) + [s[0]]
  }

  /** What the leaf-to-root walk has found once it has passed every ancestor at
      depth `level` or more: the chain read backwards. */
  ghost predicate WalkedTo(tree: FileTree, directory: Path, level: nat, found: seq<InstructionFile>) {
    && AllDeepest(tree, directory, level, found)
    && (forall i, j :: 0 <= i < j < |found| ==> Depth(found[i]) > Depth(found[j]))
    && DistinctFiles(found)
    && Covers(tree, directory, level, Resolved(found))
  }

  lemma ResolvedAppend(found: seq<InstructionFile>, e: InstructionFile)
    ensures Resolved(found + [e]) == Resolved(found) + {e.resolved}
  {
    var longer := found + [e];
    forall p | p in Resolved(found) + {e.resolved}
      ensures p in Resolved(longer)
    {
      if p == e.resolved {
        assert longer[|found|].resolved == p;
      } else {
        var i :| 0 <= i < |found| && found[i].resolved == p;
        assert longer[i].resolved == p;
      }
    }
  }

  lemma DistinctAppend(found: seq<InstructionFile>, e: InstructionFile)
    requires DistinctFiles(found) && e.resolved !in Resolved(found)
    ensures DistinctFiles(found + [e])
  {
  }

  /** An ancestor without a file, or whose file a deeper one already gave. */
  lemma WalkPast(tree: FileTree, directory: Path, level: nat, found: seq<InstructionFile>)
    requires level <= |directory| && WalkedTo(tree, directory, level + 1, found)
    requires RealAt(tree, directory, level).Some? ==> RealAt(tree, directory, level).value in Resolved(found)
    ensures WalkedTo(tree, directory, level, found)
  {
  }

  lemma WalkAdds(tree: FileTree, directory: Path, level: nat, found: seq<InstructionFile>, e: InstructionFile)
    requires level <= |directory| && WalkedTo(tree, directory, level + 1, found)
    requires e.source == Candidate(Ancestor(directory, level))
    requires RealAt(tree, directory, level) == Some(e.resolved) && e.resolved !in Resolved(found)
    ensures WalkedTo(tree, directory, level, found + [e])
    ensures Resolved(found + [e]) == Resolved(found) + {e.resolved}
  {
    assert Depth(e) == level;
    ResolvedAppend(found, e);
    DistinctAppend(found, e);
    hide RealAt, Depth, DistinctFiles, Resolved, Ancestor, Candidate;
    assert Deepest(tree, directory, e, level);
    hide Deepest;
  }

  lemma ResolvedReversed(found: seq<InstructionFile>)
    ensures Resolved(Reversed(found)) == Resolved(found)
  {
    var chain := Reversed(found);
    hide Reversed;
    forall i | 0 <= i < |found|
      ensures found[i].resolved in Resolved(chain) && chain[i].resolved in Resolved(found)
    {
      assert chain[|found| - 1 - i] == found[i];
      assert chain[i] == found[|found| - 1 - i];
    }
  }

  lemma WalkReversed(tree: FileTree, directory: Path, found: seq<InstructionFile>)
    requires WalkedTo(tree, directory, 0, found)
    ensures IsChain(tree, directory, Reversed(found))
  {
    ResolvedReversed(found);
    hide Reversed, Deepest, Depth, Covers, Resolved;
  }

  /** The start must resolve; a file stands for its directory. */
  function StartDirectory(tree: FileTree, start: Path): Result<Path, ValidationError> {
    match tree.Resolve(start)
    case None => Err(CannotResolveStart)
    case Some(target) =>
      var current := if tree.IsFile(target) && target != [] then target[..|target| - 1] else target;
      if tree.IsDir(current) then Ok(current) else Err(NotADirectory(current))
  }

  ghost predicate IsRealDirectory(tree: FileTree, p: Path) {
    p in tree.realPath && tree.realPath[p] in tree.nodes && tree.nodes[tree.realPath[p]].Directory?
  }

  /** The directory of a path: the path without its last component; the root is
      its own. */
  ghost predicate IsParent(p: Path, parent: Path) {
    if p == [] then parent == [] else exists name :: p == parent + [name]
  }

  /** A start that leads to a directory gives that directory; one that leads to a
      file gives the directory holding the file; a start that leads nowhere, and a
      file held by no directory, are errors. */
  lemma StartExactly(tree: FileTree, start: Path, directory: Path)
    requires tree.Valid()
    ensures StartDirectory(tree, start) == Ok(directory) <==>
            && start in tree.realPath
            && var p := tree.realPath[start];
               && (tree.nodes[p].Directory? ==> directory == p)
               && (tree.nodes[p].File? ==> IsParent(p, directory) && IsRealDirectory(tree, directory))
    ensures StartDirectory(tree, start) == Err(CannotResolveStart) <==> start !in tree.realPath
    ensures StartDirectory(tree, start) == Err(NotADirectory(directory)) <==>
            && start in tree.realPath
            && var p := tree.realPath[start];
               tree.nodes[p].File? && IsParent(p, directory) && !IsRealDirectory(tree, directory)
    ensures StartDirectory(tree, start).Err? ==>
              StartDirectory(tree, start).error.CannotResolveStart? || StartDirectory(tree, start).error.NotADirectory?
  {
    if start in tree.realPath {
      var p := tree.realPath[start];
      if p != [] {
        var n := |p| - 1;
        assert p == p[..n] + [p[n]];
        assert IsParent(p, directory) <==> directory == p[..n];
      }
    }
  }

  /** Some ancestor's candidate is unusable, and this is the complaint about the
      deepest such. */
  ghost predicate DeepestDefect(tree: FileTree, directory: Path, e: ValidationError) {
    exists k ::
      && 0 <= k <= |directory|
      && Defect(tree, Ancestor(directory, k)) == Some(e)
      && forall j :: k < j <= |directory| ==> Defect(tree, Ancestor(directory, j)) == None
  }

  /** The walk from the leaf to the root, and the reversal. */
  method DiscoverInstructionChain(tree: FileTree, start: Path)
    returns (r: Result<seq<InstructionFile>, ValidationError>)
    ensures StartDirectory(tree, start).Err? ==> r == Err(StartDirectory(tree, start).error)
    ensures StartDirectory(tree, start).Ok? ==>
              var directory := StartDirectory(tree, start).value;
              && (r.Ok? <==> AllUsable(tree, directory))
              && (r.Ok? ==> IsChain(tree, directory, r.value))
              && (r.Err? ==> DeepestDefect(tree, directory, r.error))
  {
    var begin := StartDirectory(tree, start);
    if begin.Err? {
      return Err(begin.error);
    }
    hide WalkedTo, IsChain, StartDirectory, Present, Resolved, AllUsable;
    var current := begin.value;
    var discovered: seq<InstructionFile> := [];
    var seen: set<Path> := {};
    UsableMeansNoDefect(tree, current);
    NothingWalked(tree, current);
    for level := |current| + 1 downto 0
      invariant WalkedTo(tree, current, level, discovered)
      invariant seen == Resolved(discovered)
      invariant forall k :: level <= k <= |current| ==> Defect(tree, Ancestor(current, k)) == None
    {
      var directory := Ancestor(current, level);
      var candidate := Candidate(directory);
      if Present(tree, directory) {
        var resolved := tree.Resolve(candidate);
        if resolved == None {
          return Err(CannotResolve(candidate));
        }
        if !tree.IsFile(candidate) {
          return Err(NotAFile(candidate));
        }
        if !tree.Readable(candidate) {
          return Err(Unreadable(candidate));
        }
        if resolved.value in seen {
          WalkPast(tree, current, level, discovered);
        } else {
          var entry := InstructionFile(candidate, resolved.value);
          WalkAdds(tree, current, level, discovered, entry);
          seen := seen + {resolved.value};
          discovered := discovered + [entry];
        }
      } else {
        WalkPast(tree, current, level, discovered);
      }
    }
    WalkReversed(tree, current, discovered);
    discovered := Reversed(discovered);
    return Ok(discovered);
  }

  lemma NothingWalked(tree: FileTree, directory: Path)
    ensures WalkedTo(tree, directory, |directory| + 1, [])
    ensures Resolved([]) == {}
  {
  }

  // ---------------------------------------------------------------------
  // The chain is determined.
  // ---------------------------------------------------------------------

  /** The ancestor at depth k leads to a file that no deeper ancestor repeats. */
  ghost predicate Represents(tree: FileTree, directory: Path, k: nat) {
    && k <= |directory| && RealAt(tree, directory, k).Some?
    && forall j :: k < j <= |directory| ==> RealAt(tree, directory, j) != RealAt(tree, directory, k)
  }

  /** The chain has an entry at exactly the representing depths. */
  lemma ChainDepths(tree: FileTree, directory: Path, chain: seq<InstructionFile>, k: nat)
    requires IsChain(tree, directory, chain)
    ensures Represents(tree, directory, k) <==> exists i :: 0 <= i < |chain| && Depth(chain[i]) == k
  {
  }

  function Depths(chain: seq<InstructionFile>): (d: seq<nat>)
    ensures |d| == |chain| && forall i :: 0 <= i < |chain| ==> d[i] == Depth(chain[i])
  {
    seq(|chain|, i requires 0 <= i < |chain| => Depth(chain[i]))
  }

  ghost predicate Increasing(s: seq<nat>) {
    forall i, j :: 0 <= i < j < |s| ==> s[i] < s[j]
  }

  /** Increasing sequences with the same members are equal. */
  lemma {:induction false} IncreasingUnique(x: seq<nat>, y: seq<nat>)
    requires Increasing(x) && Increasing(y)
    requires forall n :: n in x <==> n in y
    ensures x == y
  {
    assert x != [] ==> x[0] in y;
    assert y != [] ==> y[0] in x;
    if x != [] {
      assert x[0] == y[0] && x[0] !in x[1..] && y[0] !in y[1..];
      TailMembers(x);
      TailMembers(y);
      IncreasingUnique(x[1..], y[1..]);
      assert x == [x[0]] + x[1..] && y == [y[0]] + y[1..];
    }
  }

  lemma TailMembers(s: seq<nat>)
    requires s != [] && s[0] !in s[1..]
    ensures forall n :: n in s[1..] <==> n in s && n != s[0]
  {
  }

  /** One directory has one chain. */
  lemma ChainUnique(tree: FileTree, directory: Path, chain: seq<InstructionFile>, chain': seq<InstructionFile>)
    requires IsChain(tree, directory, chain) && IsChain(tree, directory, chain')
    ensures chain == chain'
  {
    var d, d' := Depths(chain), Depths(chain');
    forall n
      ensures n in d <==> n in d'
    {
      if n >= 0 {
        ChainDepths(tree, directory, chain, n);
        ChainDepths(tree, directory, chain', n);
      }
      DepthsMembers(chain, n);
      DepthsMembers(chain', n);
    }
    IncreasingUnique(d, d');
    hide RealAt, Candidate, Depth;
    forall i | 0 <= i < |chain|
      ensures chain[i] == chain'[i]
    {
      assert Deepest(tree, directory, chain[i], d[i]);
      assert Deepest(tree, directory, chain'[i], d[i]);
    }
  }

  lemma DepthsMembers(chain: seq<InstructionFile>, n: int)
    ensures n in Depths(chain) <==> exists i :: 0 <= i < |chain| && Depth(chain[i]) == n
  {
  }

  // ---------------------------------------------------------------------
  // The self-test on a temporary tree.
  // ---------------------------------------------------------------------

  function ResolvedPaths(chain: seq<InstructionFile>): (paths: seq<Path>)
    ensures |paths| == |chain| && forall i :: 0 <= i < |chain| ==> paths[i] == chain[i].resolved
  {
    seq(|chain|, i requires 0 <= i < |chain| => chain[i].resolved)
  }

  function Service(root: Path): Path {
    root + ["service"]
  }

  function Deep(root: Path): Path {
    root + ["service", "src", "nested"]
  }

  /** The files the self-test expects, from the root down. */
  function ExpectedFiles(root: Path): seq<Path> {
    [Candidate(root), Candidate(Service(root))]
  }

  /** The tree the self-test writes: readable files of their own in root and
      service, none in src, and in nested a link back to the service's file,
      unless the platform refused the link. */
  ghost predicate IsFixture(tree: FileTree, root: Path) {
    && tree.Resolve(Deep(root)) == Some(Deep(root)) && tree.IsDir(Deep(root))
    && tree.Resolve(Candidate(root)) == Some(Candidate(root)) && tree.Readable(Candidate(root))
    && tree.Resolve(Candidate(Service(root))) == Some(Candidate(Service(root)))
    && tree.Readable(Candidate(Service(root)))
    && !Present(tree, root + ["service", "src"])
    && (|| tree.Resolve(Candidate(Deep(root))) == Some(Candidate(Service(root)))
        || !Present(tree, Deep(root)))
  }

  function AssertChain(actual: seq<InstructionFile>, expected: seq<Path>): Option<ValidationError> {
    if ResolvedPaths(actual) != expected then Some(ChainMismatch(expected, ResolvedPaths(actual))) else None
  }

  /** Above depth n the directory's ancestors bring in no file but these. */
  ghost predicate OnlyTheseAbove(tree: FileTree, directory: Path, n: nat, files: set<Path>)
    requires n <= |directory|
  {
    forall k :: 0 <= k < n && RealAt(tree, directory, k).Some? ==> RealAt(tree, directory, k).value in files
  }

  /** No directory above the temporary root brings in a third file. */
  ghost predicate NoThirdFile(tree: FileTree, root: Path) {
    OnlyTheseAbove(tree, Deep(root), |root|, {Candidate(root), Candidate(Service(root))})
  }

  /** The self-test: discovery from the deepest directory, then the comparison.
      It passes exactly when every instruction file on the way up is usable and
      no directory above the temporary root brings in a third one. */
  method ValidateDiscoveryFixture(tree: FileTree, root: Path) returns (r: Option<ValidationError>)
    ensures IsFixture(tree, root) ==> (r == None <==> AllUsable(tree, Deep(root)) && NoThirdFile(tree, root))
    ensures r.Some? ==> !r.value.NotExactlyOnce?
  {
    var chain := DiscoverInstructionChain(tree, Deep(root));
    if chain.Err? {
      if IsFixture(tree, root) {
        FixtureStart(tree, root);
      }
      return Some(chain.error);
    }
    r := AssertChain(chain.value, ExpectedFiles(root));
    if IsFixture(tree, root) {
      FixtureStart(tree, root);
      FixtureChainExact(tree, root, chain.value);
    }
  }

  lemma FixtureStart(tree: FileTree, root: Path)
    requires IsFixture(tree, root)
    ensures StartDirectory(tree, Deep(root)) == Ok(Deep(root))
  {
  }

  lemma FixtureFiles(tree: FileTree, root: Path)
    requires IsFixture(tree, root)
    ensures var n, deep := |root|, Deep(root);
            && RealAt(tree, deep, n) == Some(Candidate(root))
            && RealAt(tree, deep, n + 1) == Some(Candidate(Service(root)))
            && RealAt(tree, deep, n + 2) == None
            && RealAt(tree, deep, n + 3) in {None, Some(Candidate(Service(root)))}
            && Candidate(root) != Candidate(Service(root))
  {
    var n, deep := |root|, Deep(root);
    assert deep[..n] == root && deep[..n + 1] == Service(root);
    assert deep[..n + 2] == root + ["service", "src"] && deep[..n + 3] == deep;
    assert |Candidate(root)| < |Candidate(Service(root))|;
  }

  /** Where discovery succeeds, its chain is the expected one exactly when no
      directory above brings in a third file. */
  lemma FixtureChainExact(tree: FileTree, root: Path, chain: seq<InstructionFile>)
    requires IsFixture(tree, root) && IsChain(tree, Deep(root), chain)
    ensures ResolvedPaths(chain) == ExpectedFiles(root) <==> NoThirdFile(tree, root)
  {
    FixtureFiles(tree, root);
    assert |Deep(root)| == |root| + 3;
    hide RealAt, Candidate, Service, Deep, IsFixture, IsChain, OnlyTheseAbove;
    if ResolvedPaths(chain) == ExpectedFiles(root) {
      FixtureForward(tree, Deep(root), |root|, chain, Candidate(root), Candidate(Service(root)));
    }
    if NoThirdFile(tree, root) {
      FixtureBackward(tree, Deep(root), |root|, chain, Candidate(root), Candidate(Service(root)));
    }
  }

  lemma FixtureForward(tree: FileTree, deep: Path, n: nat, chain: seq<InstructionFile>,
                       rootFile: Path, serviceFile: Path)
    requires n <= |deep| && IsChain(tree, deep, chain)
    requires ResolvedPaths(chain) == [rootFile, serviceFile]
    ensures OnlyTheseAbove(tree, deep, n, {rootFile, serviceFile})
  {
    hide RealAt, Depth, AllDeepest;
    forall k | 0 <= k < n && RealAt(tree, deep, k).Some?
      ensures RealAt(tree, deep, k).value in {rootFile, serviceFile}
    {
      assert RealAt(tree, deep, k).value in Resolved(chain);
      var i :| 0 <= i < |chain| && chain[i].resolved == RealAt(tree, deep, k).value;
      assert ResolvedPaths(chain)[i] == chain[i].resolved;
    }
  }

  lemma FixtureBackward(tree: FileTree, deep: Path, n: nat, chain: seq<InstructionFile>,
                        rootFile: Path, serviceFile: Path)
    requires |deep| == n + 3 && rootFile != serviceFile && IsChain(tree, deep, chain)
    requires RealAt(tree, deep, n) == Some(rootFile) && RealAt(tree, deep, n + 1) == Some(serviceFile)
    requires RealAt(tree, deep, n + 2) == None && RealAt(tree, deep, n + 3) in {None, Some(serviceFile)}
    requires OnlyTheseAbove(tree, deep, n, {rootFile, serviceFile})
    ensures ResolvedPaths(chain) == [rootFile, serviceFile]
  {
    var last := if RealAt(tree, deep, n + 3) == None then n + 1 else n + 3;
    var expected: seq<nat> := [n, last];
    forall m
      ensures m in Depths(chain) <==> m in expected
    {
      hide RealAt, Represents, IsChain, OnlyTheseAbove;
      DepthsMembers(chain, m);
      if m >= 0 {
        ChainDepths(tree, deep, chain, m);
        FixtureRepresents(tree, deep, n, m, last, rootFile, serviceFile);
      }
    }
    IncreasingUnique(Depths(chain), expected);
    hide RealAt, Depth, Covers, DistinctFiles, OnlyTheseAbove;
    assert Depths(chain)[0] == n && Depths(chain)[1] == last;
    assert Deepest(tree, deep, chain[0], n) && Deepest(tree, deep, chain[1], last);
  }

  lemma FixtureRepresents(tree: FileTree, deep: Path, n: nat, k: nat, last: nat, rootFile: Path, serviceFile: Path)
    requires |deep| == n + 3 && rootFile != serviceFile
    requires RealAt(tree, deep, n) == Some(rootFile) && RealAt(tree, deep, n + 1) == Some(serviceFile)
    requires RealAt(tree, deep, n + 2) == None && RealAt(tree, deep, n + 3) in {None, Some(serviceFile)}
    requires last == if RealAt(tree, deep, n + 3) == None then n + 1 else n + 3
    requires OnlyTheseAbove(tree, deep, n, {rootFile, serviceFile})
    ensures Represents(tree, deep, k) <==> k == n || k == last
  {
    hide RealAt;
    if k < n && RealAt(tree, deep, k).Some? {
      assert RealAt(tree, deep, k) == RealAt(tree, deep, n) || RealAt(tree, deep, k) == RealAt(tree, deep, last);
    }
    if k == n || k == n + 1 {
      forall j | k < j <= |deep|
        ensures RealAt(tree, deep, j) == RealAt(tree, deep, k) ==> j == n + 3 && k == n + 1
      {
        assert j == n + 1 || j == n + 2 || j == n + 3;
      }
    }
  }

  // Three trees for the self-test at /tmp, which differ in the filesystem root.

  datatype Above = Nothing | DanglingLink | OtherFile

  const FIXTURE_FILE: Node := File(true, 15, Some("# fixture root\n"))

  function FixtureNodes(above: Above): map<Path, Node> {
    map[[] := Directory, ["tmp"] := Directory, ["tmp", "service"] := Directory,
        ["tmp", "service", "src"] := Directory, ["tmp", "service", "src", "nested"] := Directory,
        ["tmp", CANONICAL_NAME] := FIXTURE_FILE, ["tmp", "service", CANONICAL_NAME] := FIXTURE_FILE]
    + (if above == OtherFile then map[[CANONICAL_NAME] := FIXTURE_FILE] else map[])
  }

  const FIXTURE_ALIAS: Path := ["tmp", "service", "src", "nested", CANONICAL_NAME]
  const FIXTURE_SERVICE_FILE: Path := ["tmp", "service", CANONICAL_NAME]

  function FixtureTree(above: Above): FileTree {
    var nodes := FixtureNodes(above);
    FileTree(nodes,
             (map p | p in nodes :: p) + map[FIXTURE_ALIAS := FIXTURE_SERVICE_FILE],
             {FIXTURE_ALIAS} + (if above == DanglingLink then {[CANONICAL_NAME]} else {}))
  }

  lemma FixtureNodesHold(above: Above)
    ensures var nodes := FixtureNodes(above);
            && ["tmp", "service", "src", "nested"] in nodes
            && nodes[["tmp", "service", "src", "nested"]] == Directory
            && ["tmp", CANONICAL_NAME] in nodes && nodes[["tmp", CANONICAL_NAME]] == FIXTURE_FILE
            && FIXTURE_SERVICE_FILE in nodes && nodes[FIXTURE_SERVICE_FILE] == FIXTURE_FILE
            && FIXTURE_ALIAS !in nodes && ["tmp", "service", "src", CANONICAL_NAME] !in nodes
            && ([CANONICAL_NAME] in nodes <==> above == OtherFile)
            && (above == OtherFile ==> nodes[[CANONICAL_NAME]] == FIXTURE_FILE)
  {
    FixturePathsDiffer();
  }

  lemma FixtureTreeIsValid(above: Above)
    ensures FixtureTree(above).Valid()
  {
    FixtureNodesHold(above);
    hide FixtureNodes;
  }

  lemma FixtureTreeIsFixture(above: Above)
    ensures IsFixture(FixtureTree(above), ["tmp"])
  {
    var root: Path := ["tmp"];
    FixtureNodesHold(above);
    hide FixtureNodes;
    assert Service(root) == ["tmp", "service"] && Deep(root) == ["tmp", "service", "src", "nested"];
    assert Candidate(root) == ["tmp", CANONICAL_NAME];
    assert Candidate(Service(root)) == FIXTURE_SERVICE_FILE;
    assert Candidate(Deep(root)) == FIXTURE_ALIAS;
    assert Candidate(root + ["service", "src"]) == ["tmp", "service", "src", CANONICAL_NAME];
  }

  /** Paths of one length that differ in their last component. */
  lemma FixturePathsDiffer()
    ensures ["tmp", CANONICAL_NAME] != ["tmp", "service"]
    ensures ["tmp", "service", CANONICAL_NAME] != ["tmp", "service", "src"]
    ensures ["tmp", "service", "src", CANONICAL_NAME] != ["tmp", "service", "src", "nested"]
    ensures [CANONICAL_NAME] != ["tmp"]
  {
    assert CANONICAL_NAME[0] == 'A' && "service"[0] == 's' && "src"[0] == 's' && "nested"[0] == 'n' && "tmp"[0] == 't';
    assert ["tmp", CANONICAL_NAME][1] != ["tmp", "service"][1];
    assert ["tmp", "service", CANONICAL_NAME][2] != ["tmp", "service", "src"][2];
    assert ["tmp", "service", "src", CANONICAL_NAME][3] != ["tmp", "service", "src", "nested"][3];
    assert [CANONICAL_NAME][0] != ["tmp"][0];
  }

  /** What the fixture itself writes is usable, so usability is a matter of the
      directories above. */
  lemma FixtureUsableAbove(tree: FileTree, root: Path)
    requires IsFixture(tree, root)
    ensures AllUsable(tree, Deep(root)) <==>
            forall k :: 0 <= k < |root| ==>
              var c := Candidate(Ancestor(Deep(root), k));
              c in tree.links || tree.Exists(c) ==> tree.Readable(c)
  {
    var n, deep := |root|, Deep(root);
    assert deep[..n] == root && deep[..n + 1] == Service(root);
    assert deep[..n + 2] == root + ["service", "src"] && deep[..n + 3] == deep;
    forall k | n <= k <= |deep|
      ensures var c := Candidate(Ancestor(deep, k)); c in tree.links || tree.Exists(c) ==> tree.Readable(c)
    {
      assert k == n || k == n + 1 || k == n + 2 || k == n + 3;
    }
  }

  lemma FixtureRootFile(above: Above)
    ensures var tree := FixtureTree(above);
            && Ancestor(Deep(["tmp"]), 0) == []
            && Candidate([]) == [CANONICAL_NAME]
            && ([CANONICAL_NAME] in tree.links <==> above == DanglingLink)
            && (tree.Exists([CANONICAL_NAME]) <==> above == OtherFile)
            && (tree.Readable([CANONICAL_NAME]) <==> above == OtherFile)
            && (above == OtherFile ==> tree.Resolve([CANONICAL_NAME]) == Some([CANONICAL_NAME]))
  {
    FixtureNodesHold(above);
    hide FixtureNodes;
  }

  /** Each half of the condition matters: with nothing above the self-test passes,
      a dangling link at the filesystem root breaks the first half only, another
      instruction file there the second half only. */
  lemma FixtureDependsOnAbove(above: Above)
    ensures FixtureTree(above).Valid() && IsFixture(FixtureTree(above), ["tmp"])
    ensures AllUsable(FixtureTree(above), Deep(["tmp"])) <==> above != DanglingLink
    ensures NoThirdFile(FixtureTree(above), ["tmp"]) <==> above != OtherFile
  {
    var tree, root := FixtureTree(above), ["tmp"];
    FixtureTreeIsValid(above);
    FixtureTreeIsFixture(above);
    FixtureRootFile(above);
    FixtureUsableAbove(tree, root);
    hide FixtureTree, IsFixture, AllUsable, FileTree.Valid;
    assert |root| == 1;
    assert RealAt(tree, Deep(root), 0) == if above == OtherFile then Some([CANONICAL_NAME]) else None;
    assert [CANONICAL_NAME] !in {Candidate(root), Candidate(Service(root))};
  }

  // ---------------------------------------------------------------------
  // The repository check.
  // ---------------------------------------------------------------------

  function Occurrences(chain: seq<InstructionFile>, target: Path): nat {
    if chain == [] then 0 else (if chain[0].resolved == target then 1 else 0) + Occurrences(chain[1..], target)
  }

  lemma {:induction false} OccursNever(chain: seq<InstructionFile>, target: Path)
    requires forall i :: 0 <= i < |chain| ==> chain[i].resolved != target
    ensures Occurrences(chain, target) == 0
  {
    if chain != [] {
      OccursNever(chain[1..], target);
    }
  }

  lemma {:induction false} OccursOnce(chain: seq<InstructionFile>, target: Path, i: nat)
    requires i < |chain| && chain[i].resolved == target
    requires forall j, k :: 0 <= j < k < |chain| ==> chain[j].resolved != chain[k].resolved
    ensures Occurrences(chain, target) == 1
  {
    if i == 0 {
      OccursNever(chain[1..], target);
    } else {
      assert chain[0].resolved != chain[i].resolved;
      OccursOnce(chain[1..], target, i - 1);
    }
  }

  /** The text reads as UTF-8 and is more than spaces. */
  predicate HasText(tree: FileTree, path: Path) {
    tree.ReadText(path).Some? && Strip(tree.ReadText(path).value) != ""
  }

  /** Each tool's pointer leads to the canonical file. */
  ghost predicate PointersInOrder(tree: FileTree, repo: Path)
    requires tree.Exists(Candidate(repo))
  {
    forall i :: 0 <= i < |TOOL_POINTERS| ==>
      PointsTo(tree, repo + TOOL_POINTERS[i], tree.realPath[Candidate(repo)])
  }

  /** The repository, its canonical file and its pointers are in order, and the
      probe resolves to a place inside the repository. */
  ghost predicate Prepared(tree: FileTree, repoArg: Path, probe: Path) {
    && tree.Resolve(repoArg).Some?
    && var repo := tree.Resolve(repoArg).value;
       && tree.IsDir(repo)
       && Candidate(repo) !in tree.links && tree.IsFile(Candidate(repo)) && tree.Readable(Candidate(repo))
       && HasText(tree, Candidate(repo))
       && PointersInOrder(tree, repo)
       && tree.Resolve(probe).Some?
       && repo <= tree.Resolve(probe).value
  }

  function ProbePath(repo: Path, probeArg: Path, probeIsAbsolute: bool): Path {
    if probeIsAbsolute then probeArg else repo + probeArg
  }

  /** A probe inside the repository starts the walk at or below it. */
  lemma StartBelowRepository(tree: FileTree, repo: Path, probe: Path)
    requires tree.Valid() && tree.IsDir(repo) && tree.Resolve(repo) == Some(repo)
    requires tree.Resolve(probe) == Some(probe) && repo <= probe
    requires StartDirectory(tree, probe).Ok?
    ensures repo <= StartDirectory(tree, probe).value
  {
    assert probe[..|repo|] == repo;
    if tree.IsFile(probe) {
      assert probe != repo;
      assert |repo| < |probe|;
      assert probe[..|probe| - 1][..|repo|] == repo;
    }
  }

  /** The chain of a directory in the repository has the canonical file exactly
      once. */
  lemma CanonicalOnce(tree: FileTree, repo: Path, directory: Path, chain: seq<InstructionFile>)
    requires repo <= directory && tree.Exists(Candidate(repo))
    requires IsChain(tree, directory, chain)
    ensures Occurrences(chain, tree.realPath[Candidate(repo)]) == 1
  {
    var k := |repo|;
    assert Ancestor(directory, k) == repo;
    assert Present(tree, Ancestor(directory, k));
    var canonical := tree.realPath[Candidate(repo)];
    assert RealAt(tree, directory, k) == Some(canonical);
    hide RealAt, Depth, Candidate, AllDeepest;
    assert canonical in Resolved(chain);
    var i :| 0 <= i < |chain| && chain[i].resolved == canonical;
    OccursOnce(chain, canonical, i);
  }

  lemma PointerDefectIsPointers(tree: FileTree, path: Path, canonical: Path)
    ensures PointerDefect(tree, path, canonical).Some? ==> !PointerDefect(tree, path, canonical).value.NotExactlyOnce?
  {
  }

  /** With the earlier checks passed, the count of canonical occurrences is one
      whenever discovery succeeds: that check never fires. The self-test comes
      last, on the tree as it is with the temporary directory in it. */
  method ValidateRepository(tree: FileTree, repoArg: Path, probeArg: Path, probeIsAbsolute: bool,
                            fixtureTree: FileTree, fixtureRoot: Path)
    returns (r: Result<seq<InstructionFile>, ValidationError>)
    ensures tree.Valid() ==> !(r.Err? && r.error.NotExactlyOnce?)
    ensures tree.Valid() && IsFixture(fixtureTree, fixtureRoot) ==>
              (r.Ok? <==>
                && AllUsable(fixtureTree, Deep(fixtureRoot)) && NoThirdFile(fixtureTree, fixtureRoot)
                && tree.Resolve(repoArg).Some?
                && var probe := ProbePath(tree.Resolve(repoArg).value, probeArg, probeIsAbsolute);
                   && Prepared(tree, repoArg, probe)
                   && var begin := StartDirectory(tree, tree.Resolve(probe).value);
                      begin.Ok? && AllUsable(tree, begin.value))
    ensures r.Ok? ==>
              && repoArg in tree.realPath
              && Candidate(tree.realPath[repoArg]) in tree.realPath
              && Occurrences(r.value, tree.realPath[Candidate(tree.realPath[repoArg])]) == 1
  {
    var repoReal := tree.Resolve(repoArg);
    if repoReal == None {
      return Err(BadRepository);
    }
    var repo := repoReal.value;
    if !tree.IsDir(repo) {
      return Err(BadRepository);
    }
    var canonicalPath := Candidate(repo);
    if canonicalPath in tree.links || !tree.IsFile(canonicalPath) || !tree.Readable(canonicalPath) {
      return Err(BadCanonical);
    }
    if !HasText(tree, canonicalPath) {
      return Err(BadCanonical);
    }
    var canonical := tree.realPath[canonicalPath];
    hide PointerDefect, PointsTo, Strip;
    for i := 0 to |TOOL_POINTERS|
      invariant forall k :: 0 <= k < i ==> PointsTo(tree, repo + TOOL_POINTERS[k], canonical)
    {
      var pointer := repo + TOOL_POINTERS[i];
      PointerExact(tree, pointer, canonical);
      PointerDefectIsPointers(tree, pointer, canonical);
      var defect := PointerDefect(tree, pointer, canonical);
      if defect.Some? {
        return Err(defect.value);
      }
    }
    var probeReal := tree.Resolve(ProbePath(repo, probeArg, probeIsAbsolute));
    if probeReal == None {
      return Err(BadProbe);
    }
    var probe := probeReal.value;
    if !(repo <= probe) {
      return Err(ProbeEscapes);
    }
    hide StartDirectory, IsChain, AllUsable;
    var chain := DiscoverInstructionChain(tree, probe);
    if chain.Err? {
      return Err(chain.error);
    }
    var occurrences := Occurrences(chain.value, canonical);
    if tree.Valid() {
      StartBelowRepository(tree, repo, probe);
      CanonicalOnce(tree, repo, StartDirectory(tree, probe).value, chain.value);
    }
    if occurrences != 1 {
      return Err(NotExactlyOnce(occurrences));
    }
    var selfTest := ValidateDiscoveryFixture(fixtureTree, fixtureRoot);
    if selfTest.Some? {
      return Err(selfTest.value);
    }
    return chain;
  }
}
