/**
Dependency provisioning (bootstrap.py: `_required_missing`, `_build_recipe`, `_cached_build_current`,
`_write_build_stamp`, `provision_package`).

A workspace holds the tree below the vendor directory, the build stamps, and for each source root the
recipes that its files come from. The source root is where a package is built and copied from: the
checkout directory of a git package, the extraction directory of any other. Downloads, extraction,
copying and the build commands themselves are outcomes that a call meets; everything that decides what
is reused, rebuilt or replaced is modelled. Nothing clears a source root before a build, so what a build
does to it is an outcome too.
*/
module Provision {
  import opened Options

  /** A path below some directory, part by part. */
  type Path = seq<string>

  /** What identifies the recipe that produced cached build outputs; it does not say where they are. */
  datatype Recipe = Recipe(name: string, version: string, platform: string, architecture: string,
                           extractedDir: string, workingDir: string, commands: seq<string>)

  datatype Source = Archive | Git(checkoutDir: string)

  datatype Package = Package(recipe: Recipe, source: Source, installDir: Path, requiredFiles: seq<Path>,
                             requiredGlobs: seq<string>, metadataFile: Option<Path>, identity: string)

  /** The directory of the cache in which a package is built and from which it is copied. */
  function SourceRoot(p: Package): string {
    match p.source case Archive => p.recipe.extractedDir case Git(checkoutDir) => checkoutDir
  }

  datatype Entry = Folder | Blob(bytes: string) | Json(metadata: string)

  /** Every path below a directory, folders included. */
  type Tree = map<Path, Entry>

  predicate IsFile(tree: Tree, path: Path) { path in tree && !tree[path].Folder? }

  /** The glob language of the host library: pattern, path below the directory. */
  type Glob = (string, Path) -> bool

  datatype Complaint = NoFile(path: Path) | NoMatch(pattern: string) | OtherIdentity(path: Path)

  /** A build leaves its source root alone, writes over what is there, or replaces all of it. */
  datatype Effect = Untouched | Overlaid | Replaced

  datatype BuildResult = BuildResult(ok: bool, effect: Effect)

  /** One run of a package's build commands in a source root. */
  datatype Build = Build(key: string, recipe: Recipe, root: string, result: BuildResult)

  datatype Workspace = Workspace(
    vendor: Tree,
    stamps: map<string, Recipe>,
    outputs: map<string, set<Recipe>>,
    builds: seq<Build>)

  datatype ReplaceFault = NoFault | RemoveInterrupted(left: Tree) | MoveFailed

  /**
  One call and what it meets: sources, outputs on disk, the build, the copied tree with the folder that the
  metadata file goes to, and the final replacement.
  */
  datatype Call = Call(
    package: Package,
    force: bool,
    sourcesPrepared: bool,
    readyBefore: bool,
    build: BuildResult,
    readyAfter: bool,
    copied: Option<Tree>,
    replace: ReplaceFault)

  datatype Outcome = Ready | Installed | Failed

  // ---------------------------------------------------------------- what a target must hold

  function FilesMissing(paths: seq<Path>, tree: Tree, root: Path): seq<Complaint> {
    if paths == [] then []
    else (if IsFile(tree, root + paths[0]) then [] else [NoFile(paths[0])]) + FilesMissing(paths[1..], tree, root)
  }

  /** A pattern may match a file or a folder below the root. */
  predicate Matched(glob: Glob, pattern: string, tree: Tree, root: Path) {
    exists path | path in tree :: root <= path && |root| < |path| && glob(pattern, path[|root|..])
  }

  function GlobsMissing(glob: Glob, patterns: seq<string>, tree: Tree, root: Path): seq<Complaint> {
    if patterns == [] then []
    else (if Matched(glob, patterns[0], tree, root) then [] else [NoMatch(patterns[0])])
         + GlobsMissing(glob, patterns[1..], tree, root)
  }

  function MetadataMissing(p: Package, tree: Tree, root: Path): seq<Complaint> {
    match p.metadataFile
    case None => []
    case Some(file) =>
      if !IsFile(tree, root + file) then [NoFile(file)]
      else if tree[root + file] != Json(p.identity) then [OtherIdentity(file)]
      else []
  }

  function RequiredMissing(glob: Glob, p: Package, tree: Tree, root: Path): seq<Complaint> {
    FilesMissing(p.requiredFiles, tree, root) + GlobsMissing(glob, p.requiredGlobs, tree, root) + MetadataMissing(p, tree, root)
  }

  /** Everything a package requires, said of the tree rather than of a list of complaints. */
  ghost predicate Satisfies(glob: Glob, p: Package, tree: Tree, root: Path) {
    && (forall path | path in p.requiredFiles :: IsFile(tree, root + path))
    && (forall pattern | pattern in p.requiredGlobs :: Matched(glob, pattern, tree, root))
    && (p.metadataFile.Some? ==> root + p.metadataFile.value in tree && tree[root + p.metadataFile.value] == Json(p.identity))
  }

  lemma {:induction false} FilesMissingMeans(paths: seq<Path>, tree: Tree, root: Path)
    ensures FilesMissing(paths, tree, root) == [] <==> forall path | path in paths :: IsFile(tree, root + path)
  {
    if paths != [] {
      FilesMissingMeans(paths[1..], tree, root);
      assert forall path :: path in paths <==> path == paths[0] || path in paths[1..];
    }
  }

  lemma {:induction false} GlobsMissingMeans(glob: Glob, patterns: seq<string>, tree: Tree, root: Path)
    ensures GlobsMissing(glob, patterns, tree, root) == []
            <==> forall pattern | pattern in patterns :: Matched(glob, pattern, tree, root)
  {
    if patterns != [] {
      GlobsMissingMeans(glob, patterns[1..], tree, root);
      assert forall pattern :: pattern in patterns <==> pattern == patterns[0] || pattern in patterns[1..];
      hide Matched;
    }
  }

  /** Nothing is reported missing exactly when the tree satisfies the package. */
  lemma MissingMeans(glob: Glob, p: Package, tree: Tree, root: Path)
    ensures RequiredMissing(glob, p, tree, root) == [] <==> Satisfies(glob, p, tree, root)
  {
    FilesMissingMeans(p.requiredFiles, tree, root);
    GlobsMissingMeans(glob, p.requiredGlobs, tree, root);
    hide FilesMissing, GlobsMissing, Matched;
  }

  /** What is reported of an empty tree, in order: the file, the pattern, the metadata file. */
  lemma ComplaintsInOrder(glob: Glob, p: Package, root: Path, file: Path, pattern: string, metadata: Path)
    requires p.requiredFiles == [file] && p.requiredGlobs == [pattern] && p.metadataFile == Some(metadata)
    ensures RequiredMissing(glob, p, map[], root) == [NoFile(file), NoMatch(pattern), NoFile(metadata)]
    ensures MetadataMissing(p, map[root + metadata := Blob("")], root) == [OtherIdentity(metadata)]
  {
    assert [file][1..] == [] && [pattern][1..] == [];
    NoneMissing(glob, map[], root);
    assert FilesMissing([file], map[], root) == [NoFile(file)] + FilesMissing([], map[], root);
    assert GlobsMissing(glob, [pattern], map[], root) == [NoMatch(pattern)] + GlobsMissing(glob, [], map[], root);
  }

  // ---------------------------------------------------------------- trees

  /** Everything but a directory and what is below it. */
  function Without(tree: Tree, dir: Path): Tree { map p | p in tree && !(dir <= p) :: tree[p] }

  /** A tree moved to a directory. */
  function Planted(tree: Tree, dir: Path): (r: Tree)
    ensures forall q :: dir + q in r <==> q in tree
    ensures forall q | q in tree :: dir + q in r && r[dir + q] == tree[q]
    ensures forall p | p in r :: dir <= p
  {
    var paths := set q | q in tree :: dir + q;
    assert forall p | p in paths :: dir <= p && p[|dir|..] in tree by {
      forall p | p in paths ensures dir <= p && p[|dir|..] in tree {
        var q :| q in tree && p == dir + q;
        assert p[|dir|..] == q;
      }
    }
    assert forall q :: (dir + q)[|dir|..] == q;
    map p | p in paths :: tree[p[|dir|..]]
  }

  /** `u` below `at` is `t` below `from`. */
  ghost predicate SameBelow(t: Tree, from: Path, u: Tree, at: Path) {
    forall q :: (from + q in t <==> at + q in u) && (from + q in t ==> t[from + q] == u[at + q])
  }

  lemma PlantedBelow(vendor: Tree, tree: Tree, dir: Path)
    ensures SameBelow(tree, [], Without(vendor, dir) + Planted(tree, dir), dir)
  {
    var kept, planted := Without(vendor, dir), Planted(tree, dir);
    var u := kept + planted;
    hide Planted;
    forall q ensures ([] + q in tree <==> dir + q in u) && ([] + q in tree ==> tree[[] + q] == u[dir + q]) {
      assert [] + q == q;
      assert dir <= dir + q;
      assert dir + q !in kept;
      assert dir + q in planted <==> q in tree;
    }
  }

  /** What is the same below two directories is the same below any directory in them. */
  lemma BelowShifts(t: Tree, u: Tree, dir: Path, below: Path, inner: Path)
    requires SameBelow(t, [], u, dir) && inner == dir + below
    ensures SameBelow(t, below, u, inner)
    ensures below in t <==> inner in u
  {
    forall q ensures (below + q in t <==> inner + q in u) && (below + q in t ==> t[below + q] == u[inner + q]) {
      var whole := below + q;
      assert [] + whole == whole && dir + whole == inner + q;
      SameAt(t, u, dir, whole);
    }
    assert [] + below == below;
    SameAt(t, u, dir, below);
  }

  lemma SameAt(t: Tree, u: Tree, dir: Path, q: Path)
    requires SameBelow(t, [], u, dir)
    ensures (q in t <==> dir + q in u) && (q in t ==> t[q] == u[dir + q])
  {
    assert [] + q == q;
    assert [] + q in t <==> dir + q in u;
  }

  /** What a package requires depends only on what is below its root. */
  lemma SatisfiesBelow(glob: Glob, p: Package, t: Tree, from: Path, u: Tree, at: Path)
    requires SameBelow(t, from, u, at)
    ensures Satisfies(glob, p, t, from) <==> Satisfies(glob, p, u, at)
  {
    forall pattern ensures Matched(glob, pattern, t, from) <==> Matched(glob, pattern, u, at) {
      MatchedBelow(glob, pattern, t, from, u, at);
      SameBelowBack(t, from, u, at);
      MatchedBelow(glob, pattern, u, at, t, from);
    }
    hide Matched;
  }

  lemma SameBelowBack(t: Tree, from: Path, u: Tree, at: Path)
    requires SameBelow(t, from, u, at)
    ensures SameBelow(u, at, t, from)
  {
  }

  lemma MatchedBelow(glob: Glob, pattern: string, t: Tree, from: Path, u: Tree, at: Path)
    requires SameBelow(t, from, u, at)
    ensures Matched(glob, pattern, t, from) ==> Matched(glob, pattern, u, at)
  {
    if Matched(glob, pattern, t, from) {
      var path :| path in t && from <= path && |from| < |path| && glob(pattern, path[|from|..]);
      var q := path[|from|..];
      assert path == from + q;
      assert at + q in u && (at + q)[|at|..] == q;
    }
  }

  // ---------------------------------------------------------------- the build cache

  function StampKey(r: Recipe): string { r.name + "-" + r.platform + "-" + r.architecture }

  predicate DashFree(s: string) { forall i | 0 <= i < |s| :: s[i] != '-' }

  /** Recipes for different names, platforms or architectures have stamps of their own, whatever the names are. */
  lemma StampKeysDiffer(a: Recipe, b: Recipe)
    requires DashFree(a.platform) && DashFree(a.architecture) && DashFree(b.platform) && DashFree(b.architecture)
    ensures StampKey(a) == StampKey(b) <==> a.name == b.name && a.platform == b.platform && a.architecture == b.architecture
  {
    if StampKey(a) == StampKey(b) {
      LastDash(a.name + "-" + a.platform, a.architecture, b.name + "-" + b.platform, b.architecture);
      LastDash(a.name, a.platform, b.name, b.platform);
    }
  }

  lemma LastDash(x: string, a: string, y: string, b: string)
    requires DashFree(a) && DashFree(b) && x + "-" + a == y + "-" + b
    ensures a == b && x == y
  {
    var s, t := x + "-" + a, y + "-" + b;
    assert s[|x|] == '-' && t[|y|] == '-';
    assert forall i | |x| < i < |s| :: s[i] == a[i - |x| - 1];
    assert forall i | |y| < i < |t| :: t[i] == b[i - |y| - 1];
    assert |x| == |y|;
    assert s[..|x|] == x && t[..|y|] == y && s[|x| + 1..] == a && t[|y| + 1..] == b;
  }

  /** So a build for one leaves the other's stamp alone. */
  lemma OtherStampsKept(ws: Workspace, r: Recipe, root: string, result: BuildResult, key: string)
    requires key != StampKey(r)
    ensures var t := RunBuild(ws, r, root, result).stamps;
            (key in t <==> key in ws.stamps) && (key in t ==> t[key] == ws.stamps[key])
  {
    hide StampKey;
  }

  /** Whether the recorded stamp says the outputs came from this recipe. */
  predicate BuildCurrent(ws: Workspace, r: Recipe) {
    r.commands == [] || (StampKey(r) in ws.stamps && ws.stamps[StampKey(r)] == r)
  }

  function OutputsOf(ws: Workspace, dir: string): set<Recipe> {
    if dir in ws.outputs then ws.outputs[dir] else {}
  }

  /** Runs the commands: they do to the source root what they do, and a success writes the stamp. */
  function RunBuild(ws: Workspace, r: Recipe, root: string, result: BuildResult): Workspace {
    var logged := ws.(builds := ws.builds + [Build(StampKey(r), r, root, result)],
                      stamps := if result.ok then ws.stamps[StampKey(r) := r] else ws.stamps);
    match result.effect
    case Untouched => logged
    case Overlaid => logged.(outputs := ws.outputs[root := OutputsOf(ws, root) + {r}])
    case Replaced => logged.(outputs := ws.outputs[root := {r}])
  }

  /** The stage before copying: reuse, or rebuild when the stamp is stale or outputs are absent. */
  function BuildStage(ws: Workspace, c: Call): (Workspace, bool) {
    var r := c.package.recipe;
    if !BuildCurrent(ws, r) || !c.readyBefore then
      if r.commands == [] then (ws, false)
      else (RunBuild(ws, r, SourceRoot(c.package), c.build), c.build.ok && c.readyAfter)
    else (ws, true)
  }

  /** The tree assembled beside the target. */
  function Staged(c: Call): Tree
    requires c.copied.Some?
  {
    var copied := c.copied.value[[] := Folder];
    match c.package.metadataFile case None => copied case Some(file) => copied[file := Json(c.package.identity)]
  }

  /** Writing the metadata file fails where the copied tree has a folder of that name. */
  predicate MetadataBlocked(c: Call) {
    c.copied.Some? && c.package.metadataFile.Some?
    && var file := c.package.metadataFile.value; file == [] || (file in c.copied.value && c.copied.value[file].Folder?)
  }

  /** The last steps: removing what is there and moving the staged tree to its place. */
  function Replace(ws: Workspace, c: Call): (Workspace, Outcome)
    requires c.copied.Some?
  {
    var dir := c.package.installDir;
    var cleared := Without(ws.vendor, dir);
    var installed := ws.(vendor := cleared + Planted(Staged(c), dir));
    match c.replace
    case NoFault => (installed, Installed)
    case RemoveInterrupted(left) => if dir in ws.vendor then (ws.(vendor := cleared + Planted(left, dir)), Failed) else (installed, Installed)
    case MoveFailed => (ws.(vendor := cleared), Failed)
  }

  /** `provision_package` as a function of the workspace and of what the call meets. */
  function Provisioned(glob: Glob, ws: Workspace, c: Call): (Workspace, Outcome) {
    var p := c.package;
    var exists_ := p.installDir in ws.vendor;
    var missing := RequiredMissing(glob, p, ws.vendor, p.installDir);
    if exists_ && missing == [] then (ws, Ready)
    else if exists_ && !c.force then (ws, Failed)
    else if !c.sourcesPrepared then (ws, Failed)
    else
      var (built, ready) := BuildStage(ws, c);
      if !ready || c.copied.None? || MetadataBlocked(c) then (built, Failed)
      else if RequiredMissing(glob, p, Staged(c), []) != [] then (built, Failed)
      else Replace(built, c)
  }

  // ---------------------------------------------------------------- outcomes

  /** The call gets as far as replacing its target. */
  ghost predicate ReachesReplace(glob: Glob, ws: Workspace, c: Call) {
    var p := c.package;
    && (p.installDir in ws.vendor ==> c.force && !Satisfies(glob, p, ws.vendor, p.installDir))
    && c.sourcesPrepared && BuildStage(ws, c).1 && c.copied.Some? && !MetadataBlocked(c)
    && Satisfies(glob, p, Staged(c), [])
  }

  lemma BuildKeepsVendor(ws: Workspace, c: Call)
    ensures BuildStage(ws, c).0.vendor == ws.vendor
  {
  }

  /** What a call that does not reach the replacement does, and what one that does. */
  lemma ProvisionedCases(glob: Glob, ws: Workspace, c: Call)
    ensures ReachesReplace(glob, ws, c) ==> Provisioned(glob, ws, c) == Replace(BuildStage(ws, c).0, c)
    ensures !ReachesReplace(glob, ws, c) ==>
              && Provisioned(glob, ws, c).1 != Installed && Provisioned(glob, ws, c).0.vendor == ws.vendor
    ensures Provisioned(glob, ws, c).1 == Ready <==>
              c.package.installDir in ws.vendor && Satisfies(glob, c.package, ws.vendor, c.package.installDir)
  {
    var p := c.package;
    MissingMeans(glob, p, ws.vendor, p.installDir);
    if c.copied.Some? {
      MissingMeans(glob, p, Staged(c), []);
    }
    BuildKeepsVendor(ws, c);
    hide RequiredMissing, Satisfies, BuildStage, MetadataBlocked, Staged, Without;
  }

  /** Below its own directory an installed target is exactly the staged tree. */
  lemma InstalledIsStaged(glob: Glob, ws: Workspace, c: Call)
    requires Provisioned(glob, ws, c).1 == Installed
    ensures c.copied.Some? && SameBelow(Staged(c), [], Provisioned(glob, ws, c).0.vendor, c.package.installDir)
    ensures Satisfies(glob, c.package, Staged(c), [])
  {
    ProvisionedCases(glob, ws, c);
    BuildKeepsVendor(ws, c);
    hide Provisioned, Staged, Satisfies, BuildStage, SameBelow, Without, Planted;
    PlantedBelow(ws.vendor, Staged(c), c.package.installDir);
  }

  /**
  An installed target holds what was copied, path by path, and its metadata file the package's identity; nothing
  else is below its directory.
  */
  lemma InstalledIsCopied(glob: Glob, ws: Workspace, c: Call, q: Path)
    requires Provisioned(glob, ws, c).1 == Installed
    ensures var vendor, p := Provisioned(glob, ws, c).0.vendor, c.package.installDir + q;
            && c.copied.Some? && c.package.metadataFile != Some([])
            && (q == [] ==> p in vendor && vendor[p] == Folder)
            && (c.package.metadataFile == Some(q) ==> p in vendor && vendor[p] == Json(c.package.identity))
            && (q != [] && c.package.metadataFile != Some(q) ==>
                  && (p in vendor <==> q in c.copied.value)
                  && (q in c.copied.value ==> vendor[p] == c.copied.value[q]))
  {
    hide Provisioned, SameBelow, Satisfies, BuildStage, Staged;
    InstalledIsStaged(glob, ws, c);
    ProvisionedCases(glob, ws, c);
    StagedHolds(c, q);
    SameAt(Staged(c), Provisioned(glob, ws, c).0.vendor, c.package.installDir, q);
  }

  lemma StagedHolds(c: Call, q: Path)
    requires c.copied.Some? && !MetadataBlocked(c)
    ensures c.package.metadataFile != Some([])
    ensures q == [] ==> q in Staged(c) && Staged(c)[q] == Folder
    ensures c.package.metadataFile == Some(q) ==> q in Staged(c) && Staged(c)[q] == Json(c.package.identity)
    ensures q != [] && c.package.metadataFile != Some(q) ==>
              (q in Staged(c) <==> q in c.copied.value) && (q in c.copied.value ==> Staged(c)[q] == c.copied.value[q])
  {
  }

  /** A call is ready exactly when its target exists and has the files, the matches and the identity asked for. */
  lemma ReadyExactlyWhen(glob: Glob, ws: Workspace, c: Call)
    ensures var p, vendor, dir := c.package, ws.vendor, c.package.installDir;
            Provisioned(glob, ws, c).1 == Ready <==>
              && dir in vendor
              && (forall file | file in p.requiredFiles :: dir + file in vendor && vendor[dir + file] != Folder)
              && (forall pattern | pattern in p.requiredGlobs ::
                    exists path :: path in vendor && dir <= path && |dir| < |path| && glob(pattern, path[|dir|..]))
              && (p.metadataFile.Some? ==> dir + p.metadataFile.value in vendor && vendor[dir + p.metadataFile.value] == Json(p.identity))
  {
    ProvisionedCases(glob, ws, c);
    hide Provisioned;
  }

  /** What an installation takes: leave to replace, sources, outputs to copy, a complete copy and a replacement without fault. */
  lemma InstalledExactlyWhen(glob: Glob, ws: Workspace, c: Call)
    ensures var p := c.package;
            Provisioned(glob, ws, c).1 == Installed <==>
              && Provisioned(glob, ws, c).1 != Ready
              && (p.installDir in ws.vendor ==> c.force)
              && c.sourcesPrepared && BuildStage(ws, c).1 && c.copied.Some?
              && (p.metadataFile.Some? ==>
                    && p.metadataFile.value != []
                    && (p.metadataFile.value in c.copied.value ==> c.copied.value[p.metadataFile.value] != Folder))
              && Satisfies(glob, p, Staged(c), [])
              && (c.replace == NoFault || (c.replace.RemoveInterrupted? && p.installDir !in ws.vendor))
  {
    ProvisionedCases(glob, ws, c);
    BuildKeepsVendor(ws, c);
    hide Provisioned, Satisfies, BuildStage, Staged, Without;
  }

  /** A fault of the replacement leaves nothing of the target, or what the interrupted removal left of it. */
  lemma FaultsLeave(glob: Glob, ws: Workspace, c: Call, q: Path)
    requires ReachesReplace(glob, ws, c) && Provisioned(glob, ws, c).1 == Failed
    ensures var vendor, p := Provisioned(glob, ws, c).0.vendor, c.package.installDir + q;
            && (c.replace == MoveFailed ==> p !in vendor)
            && (c.replace.RemoveInterrupted? ==>
                  && (p in vendor <==> q in c.replace.left) && (q in c.replace.left ==> vendor[p] == c.replace.left[q]))
  {
    ProvisionedCases(glob, ws, c);
    BuildKeepsVendor(ws, c);
    var dir := c.package.installDir;
    assert dir <= dir + q;
    if c.replace.RemoveInterrupted? {
      PlantedBelow(ws.vendor, c.replace.left, dir);
      SameAt(c.replace.left, Without(ws.vendor, dir) + Planted(c.replace.left, dir), dir, q);
    }
    hide Provisioned, ReachesReplace, BuildStage, Staged, Planted, SameBelow;
  }

  /** Outputs are there when they are copied: they were, and the stamp is current, or a rebuild has put them there. */
  lemma OutputsAreThere(ws: Workspace, c: Call)
    ensures BuildStage(ws, c).1 <==>
              || (BuildCurrent(ws, c.package.recipe) && c.readyBefore)
              || (c.package.recipe.commands != [] && c.build.ok && c.readyAfter && !(BuildCurrent(ws, c.package.recipe) && c.readyBefore))
    ensures BuildCurrent(ws, c.package.recipe) <==>
              c.package.recipe.commands == [] || (StampKey(c.package.recipe) in ws.stamps && ws.stamps[StampKey(c.package.recipe)] == c.package.recipe)
  {
    hide StampKey;
  }

  /** A ready or installed target satisfies its package. */
  lemma SuccessSatisfies(glob: Glob, ws: Workspace, c: Call)
    requires Provisioned(glob, ws, c).1 != Failed
    ensures var vendor := Provisioned(glob, ws, c).0.vendor;
            c.package.installDir in vendor && Satisfies(glob, c.package, vendor, c.package.installDir)
  {
    hide Satisfies, Provisioned;
    ProvisionedCases(glob, ws, c);
    if Provisioned(glob, ws, c).1 == Installed {
      InstalledSatisfies(glob, ws, c);
    } else {
      ReadyChangesNothing(glob, ws, c);
    }
  }

  lemma InstalledSatisfies(glob: Glob, ws: Workspace, c: Call)
    requires Provisioned(glob, ws, c).1 == Installed
    ensures var vendor := Provisioned(glob, ws, c).0.vendor;
            c.package.installDir in vendor && Satisfies(glob, c.package, vendor, c.package.installDir)
  {
    hide Satisfies, Provisioned, SameBelow;
    InstalledIsStaged(glob, ws, c);
    var vendor, dir := Provisioned(glob, ws, c).0.vendor, c.package.installDir;
    SatisfiesBelow(glob, c.package, Staged(c), [], vendor, dir);
    StagedRoot(c);
    hide Staged;
    SameAt(Staged(c), vendor, dir, []);
    assert dir + [] == dir;
  }

  lemma StagedRoot(c: Call)
    requires c.copied.Some?
    ensures [] in Staged(c)
  {
  }

  lemma ReadyChangesNothing(glob: Glob, ws: Workspace, c: Call)
    requires Provisioned(glob, ws, c).1 == Ready
    ensures Provisioned(glob, ws, c).0 == ws
  {
    hide RequiredMissing, BuildStage, Staged, MetadataBlocked;
  }

  /** Nothing outside the call's own directory changes, whatever the outcome. */
  lemma OnlyBelow(glob: Glob, ws: Workspace, c: Call, p: Path)
    requires !(c.package.installDir <= p)
    ensures var vendor := Provisioned(glob, ws, c).0.vendor;
            (p in vendor <==> p in ws.vendor) && (p in vendor ==> vendor[p] == ws.vendor[p])
  {
    ProvisionedCases(glob, ws, c);
    BuildKeepsVendor(ws, c);
    hide Provisioned, BuildStage, Staged, ReachesReplace;
  }

  /**
  A call that does not get as far as the replacement leaves the vendor directory as it was, whatever its outcome;
  one that fails after that point met a fault there. An unforced failure on an existing target changes nothing
  at all, and no call changes anything outside its own directory.
  */
  lemma FailureKeepsTargets(glob: Glob, ws: Workspace, c: Call)
    ensures !ReachesReplace(glob, ws, c) ==> Provisioned(glob, ws, c).0.vendor == ws.vendor
    ensures Provisioned(glob, ws, c).1 == Installed ==> ReachesReplace(glob, ws, c)
    ensures Provisioned(glob, ws, c).1 == Failed && ReachesReplace(glob, ws, c) ==> !c.replace.NoFault?
    ensures Provisioned(glob, ws, c).1 == Failed && c.package.installDir in ws.vendor && !c.force ==>
              Provisioned(glob, ws, c).0 == ws
    ensures forall p | !(c.package.installDir <= p) ::
              && (p in Provisioned(glob, ws, c).0.vendor <==> p in ws.vendor)
              && (p in ws.vendor ==> Provisioned(glob, ws, c).0.vendor[p] == ws.vendor[p])
  {
    ProvisionedCases(glob, ws, c);
    forall p | !(c.package.installDir <= p)
      ensures p in Provisioned(glob, ws, c).0.vendor <==> p in ws.vendor
      ensures p in ws.vendor ==> Provisioned(glob, ws, c).0.vendor[p] == ws.vendor[p]
    {
      OnlyBelow(glob, ws, c, p);
      hide Provisioned;
    }
    hide RequiredMissing, BuildStage, MetadataBlocked, Staged, ReachesReplace, Without;
  }

  /** Neither directory is the other or lies below it. */
  predicate Apart(a: Path, b: Path) { !(a <= b) && !(b <= a) }

  /** A call changes nothing at or below a directory apart from its own. */
  lemma OtherTargetsKept(glob: Glob, ws: Workspace, c: Call, d: Path)
    requires Apart(d, c.package.installDir)
    ensures SameBelow(ws.vendor, d, Provisioned(glob, ws, c).0.vendor, d)
  {
    hide Provisioned;
    var vendor := Provisioned(glob, ws, c).0.vendor;
    forall q ensures (d + q in ws.vendor <==> d + q in vendor) && (d + q in ws.vendor ==> ws.vendor[d + q] == vendor[d + q]) {
      Comparable(d, c.package.installDir, q);
      OnlyBelow(glob, ws, c, d + q);
    }
  }

  /** A directory above a path in d is above d or below it. */
  lemma Comparable(d: Path, dir: Path, q: Path)
    ensures dir <= d + q ==> dir <= d || d <= dir
  {
    if dir <= d + q {
      if |dir| <= |d| {
        assert dir == d[..|dir|];
      } else {
        assert d == dir[..|d|];
      }
    }
  }

  /** Installing a directory decides what every target below it holds: what the staged tree has there, and no more. */
  lemma NestedTargetIff(glob: Glob, ws: Workspace, c: Call, inner: Package, below: Path)
    requires Provisioned(glob, ws, c).1 == Installed && inner.installDir == c.package.installDir + below
    ensures var vendor := Provisioned(glob, ws, c).0.vendor;
            && c.copied.Some?
            && (inner.installDir in vendor <==> below in Staged(c))
            && (Satisfies(glob, inner, vendor, inner.installDir) <==> Satisfies(glob, inner, Staged(c), below))
  {
    hide Provisioned, Staged, Satisfies, SameBelow;
    InstalledIsStaged(glob, ws, c);
    var vendor := Provisioned(glob, ws, c).0.vendor;
    BelowShifts(Staged(c), vendor, c.package.installDir, below, inner.installDir);
    SatisfiesBelow(glob, inner, Staged(c), below, vendor, inner.installDir);
  }

  function Run(glob: Glob, ws: Workspace, cs: seq<Call>): Workspace
    decreases |cs|
  {
    if cs == [] then ws else Run(glob, Provisioned(glob, ws, cs[0]).0, cs[1..])
  }

  lemma {:induction false} RunKeepsOthers(glob: Glob, ws: Workspace, cs: seq<Call>, d: Path)
    requires forall k | 0 <= k < |cs| :: Apart(d, cs[k].package.installDir)
    ensures SameBelow(ws.vendor, d, Run(glob, ws, cs).vendor, d)
    decreases |cs|
  {
    if cs != [] {
      hide Provisioned, Apart;
      OtherTargetsKept(glob, ws, cs[0], d);
      RunKeepsOthers(glob, Provisioned(glob, ws, cs[0]).0, cs[1..], d);
    }
  }

  /** After a success, the same package stays ready through any calls for directories apart from its own, and asking again changes nothing. */
  lemma SuccessIsRemembered(glob: Glob, ws: Workspace, c: Call, cs: seq<Call>, again: Call)
    requires Provisioned(glob, ws, c).1 != Failed && again.package == c.package
    requires forall k | 0 <= k < |cs| :: Apart(c.package.installDir, cs[k].package.installDir)
    ensures var after := Run(glob, Provisioned(glob, ws, c).0, cs);
            Provisioned(glob, after, again) == (after, Ready)
  {
    hide Satisfies, Run, Provisioned, Apart;
    SuccessSatisfies(glob, ws, c);
    var first, dir := Provisioned(glob, ws, c).0, c.package.installDir;
    var after := Run(glob, first, cs);
    RunKeepsOthers(glob, first, cs, dir);
    SatisfiesBelow(glob, c.package, first.vendor, dir, after.vendor, dir);
    assert dir + [] == dir;
    assert dir in after.vendor;
    ProvisionedCases(glob, after, again);
    ReadyChangesNothing(glob, after, again);
  }

  // ---------------------------------------------------------------- coherence of the build cache

  /** The build wrote into the source root. */
  predicate Touches(b: Build, root: string) { b.root == root && !b.result.effect.Untouched? }

  /** The recipes whose files a source root holds, according to the builds that were run. */
  ghost function Provenance(builds: seq<Build>, root: string): set<Recipe> {
    if builds == [] then {}
    else
      var n := |builds| - 1;
      var b := builds[n];
      if !Touches(b, root) then Provenance(builds[..n], root)
      else if b.result.effect.Replaced? then {b.recipe}
      else Provenance(builds[..n], root) + {b.recipe}
  }

  /** Position of the last build that replaced the source root, or the beginning. */
  ghost function LastReplacement(builds: seq<Build>, root: string): (k: nat)
    ensures builds != [] ==> k < |builds|
  {
    if builds == [] then 0
    else
      var n := |builds| - 1;
      if Touches(builds[n], root) && builds[n].result.effect.Replaced? then n else LastReplacement(builds[..n], root)
  }

  /** A build of recipe q has written into the source root since it was last replaced. */
  ghost predicate WroteSince(builds: seq<Build>, root: string, q: Recipe) {
    exists j :: LastReplacement(builds, root) <= j < |builds| && Touches(builds[j], root) && builds[j].recipe == q
  }

  lemma {:induction false} ProvenanceMeans(builds: seq<Build>, root: string, q: Recipe)
    ensures q in Provenance(builds, root) <==> WroteSince(builds, root, q)
  {
    if builds != [] {
      var n := |builds| - 1;
      var prefix, b := builds[..n], builds[n];
      ProvenanceMeans(prefix, root, q);
      if Touches(b, root) && b.result.effect.Replaced? {
        assert WroteSince(builds, root, q) <==> b.recipe == q;
      } else {
        hide Touches, Provenance;
        var k := LastReplacement(prefix, root);
        if WroteSince(prefix, root, q) {
          var j :| k <= j < n && Touches(prefix[j], root) && prefix[j].recipe == q;
          assert builds[j] == prefix[j];
        }
        if j :| k <= j < |builds| && Touches(builds[j], root) && builds[j].recipe == q && j != n {
          assert prefix[j] == builds[j];
        }
      }
    }
  }

  /** The recipe of the last successful build under a stamp key. */
  ghost function LastStamp(builds: seq<Build>, key: string): Option<Recipe> {
    if builds == [] then None
    else
      var n := |builds| - 1;
      if builds[n].key == key && builds[n].result.ok then Some(builds[n].recipe) else LastStamp(builds[..n], key)
  }

  ghost predicate CacheInv(ws: Workspace) {
    && (forall k | 0 <= k < |ws.builds| :: ws.builds[k].key == StampKey(ws.builds[k].recipe))
    && (forall key :: LastStamp(ws.builds, key) == if key in ws.stamps then Some(ws.stamps[key]) else None)
    && (forall root :: Provenance(ws.builds, root) == OutputsOf(ws, root))
  }

  lemma BuildKeepsCache(ws: Workspace, r: Recipe, root: string, result: BuildResult)
    requires CacheInv(ws)
    ensures CacheInv(RunBuild(ws, r, root, result))
  {
    var t := RunBuild(ws, r, root, result);
    assert t.builds == ws.builds + [Build(StampKey(r), r, root, result)];
    hide RunBuild, Provenance, LastStamp, StampKey, OutputsOf;
    forall key ensures LastStamp(t.builds, key) == if key in t.stamps then Some(t.stamps[key]) else None {
      BuildStamps(ws, r, root, result, key);
    }
    forall any ensures Provenance(t.builds, any) == OutputsOf(t, any) {
      BuildOutputs(ws, r, root, result, any);
    }
  }

  lemma BuildStamps(ws: Workspace, r: Recipe, root: string, result: BuildResult, key: string)
    requires LastStamp(ws.builds, key) == if key in ws.stamps then Some(ws.stamps[key]) else None
    ensures var t := RunBuild(ws, r, root, result);
            LastStamp(t.builds, key) == if key in t.stamps then Some(t.stamps[key]) else None
  {
    StampAppended(ws.builds, Build(StampKey(r), r, root, result), key);
    hide LastStamp, StampKey;
  }

  lemma BuildOutputs(ws: Workspace, r: Recipe, root: string, result: BuildResult, any: string)
    requires Provenance(ws.builds, any) == OutputsOf(ws, any)
    ensures var t := RunBuild(ws, r, root, result); Provenance(t.builds, any) == OutputsOf(t, any)
  {
    ProvenanceAppended(ws.builds, Build(StampKey(r), r, root, result), any);
    hide Provenance, StampKey;
  }

  lemma StampAppended(builds: seq<Build>, b: Build, key: string)
    ensures LastStamp(builds + [b], key) == if b.key == key && b.result.ok then Some(b.recipe) else LastStamp(builds, key)
  {
    assert (builds + [b])[..|builds|] == builds;
  }

  lemma ProvenanceAppended(builds: seq<Build>, b: Build, root: string)
    ensures Provenance(builds + [b], root)
            == if !Touches(b, root) then Provenance(builds, root)
               else if b.result.effect.Replaced? then {b.recipe} else Provenance(builds, root) + {b.recipe}
  {
    assert (builds + [b])[..|builds|] == builds;
  }

  predicate SameCache(a: Workspace, b: Workspace) {
    a.stamps == b.stamps && a.outputs == b.outputs && a.builds == b.builds
  }

  /** A call leaves the cache as it was or as its one build left it. */
  lemma CallCache(glob: Glob, ws: Workspace, c: Call)
    ensures var t := Provisioned(glob, ws, c).0;
            SameCache(t, ws) || SameCache(t, RunBuild(ws, c.package.recipe, SourceRoot(c.package), c.build))
  {
    hide RequiredMissing, RunBuild, Without, Planted, Staged, MetadataBlocked, SourceRoot;
    assert BuildStage(ws, c).0 == ws || BuildStage(ws, c).0 == RunBuild(ws, c.package.recipe, SourceRoot(c.package), c.build);
    hide BuildStage;
  }

  lemma CallKeepsCache(glob: Glob, ws: Workspace, c: Call)
    requires CacheInv(ws)
    ensures CacheInv(Provisioned(glob, ws, c).0)
  {
    BuildKeepsCache(ws, c.package.recipe, SourceRoot(c.package), c.build);
    CallCache(glob, ws, c);
    hide Provisioned, RunBuild, LastStamp, Provenance, StampKey;
  }

  const EMPTY := Workspace(map[], map[], map[], [])

  lemma {:induction false} RunKeepsCache(glob: Glob, ws: Workspace, cs: seq<Call>)
    requires CacheInv(ws)
    ensures CacheInv(Run(glob, ws, cs))
    decreases |cs|
  {
    hide CacheInv;
    if cs != [] {
      CallKeepsCache(glob, ws, cs[0]);
      RunKeepsCache(glob, Provisioned(glob, ws, cs[0]).0, cs[1..]);
    }
  }

  /** The outputs that the copy stage of a call finds in its source root come from the call's recipe alone. */
  ghost predicate CopiesOwnOutputs(ws: Workspace, c: Call) {
    OutputsOf(BuildStage(ws, c).0, SourceRoot(c.package)) == {c.package.recipe}
  }

  /**
  In every workspace that any run leads to, a call copies outputs of its own recipe alone if and only if, since its
  source root was last replaced, that recipe has written into it and no other has, failed or merely overlaid.
  */
  lemma CoherentExactlyWhen(glob: Glob, cs: seq<Call>, c: Call)
    ensures var ws, r, root := Run(glob, EMPTY, cs), c.package.recipe, SourceRoot(c.package);
            var builds := BuildStage(ws, c).0.builds;
            CopiesOwnOutputs(ws, c) <==> WroteSince(builds, root, r) && forall q | q != r :: !WroteSince(builds, root, q)
  {
    var ws, r, root := Run(glob, EMPTY, cs), c.package.recipe, SourceRoot(c.package);
    assert CacheInv(EMPTY);
    RunKeepsCache(glob, EMPTY, cs);
    StageKeepsCache(ws, c);
    var after := BuildStage(ws, c).0;
    hide Run, BuildStage, WroteSince, StampKey, SourceRoot;
    forall q ensures q in OutputsOf(after, root) <==> WroteSince(after.builds, root, q) {
      ProvenanceMeans(after.builds, root, q);
    }
    hide OutputsOf, CacheInv;
    var outputs := OutputsOf(after, root);
    assert outputs == {r} <==> r in outputs && forall q | q != r :: q !in outputs;
  }

  lemma StageKeepsCache(ws: Workspace, c: Call)
    requires CacheInv(ws)
    ensures CacheInv(BuildStage(ws, c).0)
  {
    BuildKeepsCache(ws, c.package.recipe, SourceRoot(c.package), c.build);
    hide CacheInv, RunBuild, BuildCurrent;
  }

  // ---------------------------------------------------------------- builds that replace their source root

  /** A success replaces the source root and a failure does not. */
  ghost predicate Replacing(builds: seq<Build>) {
    forall k | 0 <= k < |builds| :: builds[k].result.ok <==> builds[k].result.effect.Replaced?
  }

  /** No build under another stamp key used this source root. */
  ghost predicate Separate(builds: seq<Build>, r: Recipe, root: string) {
    forall k | 0 <= k < |builds| && builds[k].root == root :: builds[k].key == StampKey(r)
  }

  /** No build under this stamp key used another source root. */
  ghost predicate Settled(builds: seq<Build>, r: Recipe, root: string) {
    forall k | 0 <= k < |builds| && builds[k].key == StampKey(r) :: builds[k].root == root
  }

  /** The last successful build under r's key lies at i, and it was of recipe r. */
  ghost predicate LastSuccess(builds: seq<Build>, r: Recipe, i: nat) {
    && i < |builds| && builds[i].recipe == r && builds[i].key == StampKey(r) && builds[i].result.ok
    && forall j | i < j < |builds| && builds[j].key == StampKey(r) :: !builds[j].result.ok
  }

  /** A build after position i wrote into the source root with another recipe. */
  ghost predicate MixedSince(builds: seq<Build>, r: Recipe, root: string, i: nat) {
    exists j :: i < j < |builds| && Touches(builds[j], root) && builds[j].recipe != r
  }

  lemma {:induction false} StampHasSuccess(builds: seq<Build>, r: Recipe) returns (i: nat)
    requires LastStamp(builds, StampKey(r)) == Some(r)
    ensures LastSuccess(builds, r, i)
  {
    hide StampKey;
    var n := |builds| - 1;
    if builds[n].key == StampKey(r) && builds[n].result.ok {
      i := n;
    } else {
      i := StampHasSuccess(builds[..n], r);
      assert builds[..n][i] == builds[i];
    }
  }

  lemma {:induction false} LastReplacementIs(builds: seq<Build>, root: string, i: nat)
    requires i < |builds| && Touches(builds[i], root) && builds[i].result.effect.Replaced?
    requires forall j | i < j < |builds| && Touches(builds[j], root) :: !builds[j].result.effect.Replaced?
    ensures LastReplacement(builds, root) == i
    decreases |builds|
  {
    hide Touches;
    var n := |builds| - 1;
    if i < n {
      assert forall j | 0 <= j < n :: builds[..n][j] == builds[j];
      LastReplacementIs(builds[..n], root, i);
    }
  }

  /** With replacing builds in a root of their own, a write since the recorded success there is a failed one. */
  lemma MixedMeans(builds: seq<Build>, r: Recipe, root: string, i: nat)
    requires Replacing(builds) && Separate(builds, r, root) && LastSuccess(builds, r, i) && builds[i].root == root
    ensures WroteSince(builds, root, r)
    ensures (forall q | q != r :: !WroteSince(builds, root, q)) <==> !MixedSince(builds, r, root, i)
    ensures forall j | i < j < |builds| && Touches(builds[j], root) :: !builds[j].result.ok
  {
    hide StampKey;
    assert Touches(builds[i], root);
    LastReplacementIs(builds, root, i);
    if MixedSince(builds, r, root, i) {
      var j :| i < j < |builds| && Touches(builds[j], root) && builds[j].recipe != r;
      assert WroteSince(builds, root, builds[j].recipe);
    }
  }

  lemma FreshIsOwn(before: seq<Build>, builds: seq<Build>, b: Build)
    requires builds == before + [b] && b.result.effect.Replaced?
    ensures WroteSince(builds, b.root, b.recipe) && forall q | q != b.recipe :: !WroteSince(builds, b.root, q)
  {
    var n := |before|;
    assert builds[n] == b && Touches(b, b.root);
    LastReplacementIs(builds, b.root, n);
  }

  /**
  If successful builds replace their source root and failed ones do not, then a call that reaches the copy stage
  copies its own outputs when it has just rebuilt them. When it reuses what the recorded success left in its source
  root, and no other package uses that root, it does so if and only if no failed build of another recipe has
  written into the root since.
  */
  lemma ReplacingCoherentIff(glob: Glob, cs: seq<Call>, c: Call) returns (i: nat)
    requires c.package.recipe.commands != [] && BuildStage(Run(glob, EMPTY, cs), c).1
    requires Replacing(BuildStage(Run(glob, EMPTY, cs), c).0.builds)
    ensures var ws, r, root := Run(glob, EMPTY, cs), c.package.recipe, SourceRoot(c.package);
            && LastSuccess(BuildStage(ws, c).0.builds, r, i)
            && (!BuildCurrent(ws, r) || !c.readyBefore ==> CopiesOwnOutputs(ws, c))
            && (BuildCurrent(ws, r) && c.readyBefore ==>
                  && LastSuccess(ws.builds, r, i)
                  && (ws.builds[i].root == root && Separate(ws.builds, r, root) ==>
                        (CopiesOwnOutputs(ws, c) <==> !MixedSince(ws.builds, r, root, i))))
  {
    var ws, r, root := Run(glob, EMPTY, cs), c.package.recipe, SourceRoot(c.package);
    CoherentExactlyWhen(glob, cs, c);
    assert CacheInv(EMPTY);
    RunKeepsCache(glob, EMPTY, cs);
    StageKeepsCache(ws, c);
    var after := BuildStage(ws, c).0;
    StageOfCopy(ws, c);
    assert LastStamp(after.builds, StampKey(r)) == Some(r);
    hide Run, MixedSince, Separate, StampKey, WroteSince, Provenance, SourceRoot, BuildStage, CacheInv, LastStamp, BuildCurrent,
      CopiesOwnOutputs, LastSuccess;
    i := StampHasSuccess(after.builds, r);
    if !BuildCurrent(ws, r) || !c.readyBefore {
      var b := Build(StampKey(r), r, root, c.build);
      assert after.builds[|ws.builds|] == b;
      FreshIsOwn(ws.builds, after.builds, b);
    } else {
      hide Replacing;
      if after.builds[i].root == root && Separate(after.builds, r, root) {
        MixedMeans(after.builds, r, root, i);
      }
    }
  }

  /** A call that reaches the copy stage has its recipe on the stamp, after a rebuild or without one. */
  lemma StageOfCopy(ws: Workspace, c: Call)
    requires c.package.recipe.commands != [] && BuildStage(ws, c).1
    ensures var after, r := BuildStage(ws, c).0, c.package.recipe;
            && StampKey(r) in after.stamps && after.stamps[StampKey(r)] == r
            && if !BuildCurrent(ws, r) || !c.readyBefore
               then c.build.ok && after.builds == ws.builds + [Build(StampKey(r), r, SourceRoot(c.package), c.build)]
               else after == ws
  {
    hide StampKey, SourceRoot;
  }

  /**
  Then copies stay coherent if a package and its source root stay together and either a recipe, once left, never
  comes back, or failed builds touch nothing.
  */
  lemma NoReturnIsCoherent(glob: Glob, cs: seq<Call>, c: Call)
    requires c.package.recipe.commands != [] && BuildStage(Run(glob, EMPTY, cs), c).1
    requires Replacing(BuildStage(Run(glob, EMPTY, cs), c).0.builds)
    requires var builds, r, root := Run(glob, EMPTY, cs).builds, c.package.recipe, SourceRoot(c.package);
             && Separate(builds, r, root) && Settled(builds, r, root)
             && (|| (forall a, b | 0 <= a < b < |builds| && builds[b].key == StampKey(r) && builds[a].recipe == r :: builds[b].recipe == r)
                 || (forall b | 0 <= b < |builds| && !builds[b].result.ok :: builds[b].result.effect.Untouched?))
    ensures CopiesOwnOutputs(Run(glob, EMPTY, cs), c)
  {
    var ws, r, root := Run(glob, EMPTY, cs), c.package.recipe, SourceRoot(c.package);
    var i := ReplacingCoherentIff(glob, cs, c);
    if BuildCurrent(ws, r) && c.readyBefore {
      assert BuildStage(ws, c).0 == ws;
      hide Run, StampKey, BuildStage, BuildCurrent, CopiesOwnOutputs, SourceRoot;
      MixedMeans(ws.builds, r, root, i);
    }
  }

  // ---------------------------------------------------------------- runs that copy mixed outputs

  const CURL := Recipe("curl", "1", "linux", "arm64", "curl-8", ".", ["build"])

  function CurlCall(recipe: Recipe, source: Source, readyBefore: bool, build: BuildResult): Call {
    Call(Package(recipe, source, ["curl"], [["lib"]], [], None, ""), true, true, readyBefore, build, true, None, NoFault)
  }

  /** A call that copies nothing changes nothing but the cache. */
  lemma CurlStep(glob: Glob, ws: Workspace, c: Call)
    requires ["curl"] !in ws.vendor && c.package.installDir == ["curl"] && c.sourcesPrepared && c.copied.None?
    ensures Provisioned(glob, ws, c).0 == BuildStage(ws, c).0
  {
    hide RequiredMissing, BuildStage;
  }

  lemma RunOne(glob: Glob, ws: Workspace, c: Call)
    ensures Run(glob, ws, [c]) == Provisioned(glob, ws, c).0
  {
    hide Provisioned;
    assert [c][1..] == [];
    assert Run(glob, Provisioned(glob, ws, c).0, []) == Provisioned(glob, ws, c).0;
  }

  lemma RunTwo(glob: Glob, ws: Workspace, c: Call, d: Call)
    ensures Run(glob, ws, [c, d]) == Provisioned(glob, Provisioned(glob, ws, c).0, d).0
  {
    hide Provisioned;
    assert [c, d][1..] == [d];
    RunOne(glob, Provisioned(glob, ws, c).0, d);
  }

  /** Returning to a recipe after another one failed half-way copies mixed outputs, even if successes replace the root. */
  lemma ReturnCopiesMixedOutputs(glob: Glob) returns (cs: seq<Call>, c: Call)
    ensures var ws, root := Run(glob, EMPTY, cs), SourceRoot(c.package);
            && c.package.recipe.commands != [] && BuildStage(ws, c).1 && Replacing(BuildStage(ws, c).0.builds)
            && Separate(ws.builds, c.package.recipe, root) && Settled(ws.builds, c.package.recipe, root)
            && !CopiesOwnOutputs(ws, c)
  {
    var one, two := CURL, CURL.(version := "2");
    var first := CurlCall(one, Archive, false, BuildResult(true, Replaced));
    var failing := CurlCall(two, Archive, true, BuildResult(false, Overlaid));
    cs, c := [first, failing], CurlCall(one, Archive, true, BuildResult(true, Replaced));
    var ws1 := RunBuild(EMPTY, one, "curl-8", first.build);
    var ws2 := RunBuild(ws1, two, "curl-8", failing.build);
    CurlStep(glob, EMPTY, first);
    CurlStep(glob, ws1, failing);
    RunTwo(glob, EMPTY, first, failing);
    assert StampKey(one) == StampKey(two) && one != two;
    hide Provisioned, Run;
    assert Run(glob, EMPTY, cs) == ws2;
    assert BuildStage(ws2, c) == (ws2, true);
    assert two in OutputsOf(ws2, "curl-8");
  }

  /** So does a new recipe whose successful build writes over the old outputs; no build fails and no recipe returns. */
  lemma OverlayCopiesLeftovers(glob: Glob) returns (cs: seq<Call>, c: Call)
    ensures var ws, root := Run(glob, EMPTY, cs), SourceRoot(c.package);
            && c.package.recipe.commands != [] && BuildStage(ws, c).1
            && Separate(ws.builds, c.package.recipe, root) && Settled(ws.builds, c.package.recipe, root)
            && (forall k | 0 <= k < |BuildStage(ws, c).0.builds| :: BuildStage(ws, c).0.builds[k].result.ok)
            && c.package.recipe !in OutputsOf(ws, root)
            && !CopiesOwnOutputs(ws, c)
  {
    var one, two := CURL, CURL.(version := "2");
    var first := CurlCall(one, Archive, false, BuildResult(true, Overlaid));
    cs, c := [first], CurlCall(two, Archive, true, BuildResult(true, Overlaid));
    var ws1 := RunBuild(EMPTY, one, "curl-8", first.build);
    CurlStep(glob, EMPTY, first);
    RunOne(glob, EMPTY, first);
    assert StampKey(one) == StampKey(two) && one != two;
    hide Provisioned, Run;
    assert Run(glob, EMPTY, cs) == ws1;
    var ws2 := RunBuild(ws1, two, "curl-8", c.build);
    assert BuildStage(ws1, c) == (ws2, true);
    assert one in OutputsOf(ws2, "curl-8");
  }

  /**
  The stamp does not say where the recorded build ran: a git package that goes back to an earlier checkout directory
  with its present commands copies what the earlier commands left there. No build fails, no recipe returns, every
  success replaces its source root, and there is one stamp key.
  */
  lemma MovedRootCopiesForeign(glob: Glob) returns (cs: seq<Call>, c: Call)
    ensures var ws := Run(glob, EMPTY, cs);
            && c.package.recipe.commands != [] && BuildStage(ws, c) == (ws, true) && Replacing(ws.builds)
            && (forall k | 0 <= k < |ws.builds| :: ws.builds[k].result.ok && ws.builds[k].key == StampKey(c.package.recipe))
            && (forall a, b | 0 <= a < b < |ws.builds| && ws.builds[a].recipe == c.package.recipe :: ws.builds[b].recipe == c.package.recipe)
            && c.package.recipe !in OutputsOf(ws, SourceRoot(c.package)) && OutputsOf(ws, SourceRoot(c.package)) != {}
            && !CopiesOwnOutputs(ws, c)
  {
    var a, b := CURL.(extractedDir := "", commands := ["a"]), CURL.(extractedDir := "", commands := ["b"]);
    var first := CurlCall(a, Git("lib-a"), false, BuildResult(true, Replaced));
    var second := CurlCall(b, Git("lib-b"), false, BuildResult(true, Replaced));
    cs, c := [first, second], CurlCall(b, Git("lib-a"), true, BuildResult(true, Replaced));
    var ws1 := RunBuild(EMPTY, a, "lib-a", first.build);
    var ws2 := RunBuild(ws1, b, "lib-b", second.build);
    CurlStep(glob, EMPTY, first);
    CurlStep(glob, ws1, second);
    RunTwo(glob, EMPTY, first, second);
    assert a.commands[0] != b.commands[0];
    assert StampKey(a) == StampKey(b) && a != b && "lib-a" != "lib-b";
    hide Provisioned, Run;
    assert Run(glob, EMPTY, cs) == ws2;
    assert BuildStage(ws2, c) == (ws2, true);
    assert OutputsOf(ws2, "lib-a") == {a};
    assert a in OutputsOf(ws2, "lib-a") && b !in OutputsOf(ws2, "lib-a");
  }

  // ---------------------------------------------------------------- the operation

  lemma FilesStep(paths: seq<Path>, i: nat, tree: Tree, root: Path)
    requires i < |paths|
    ensures FilesMissing(paths[i..], tree, root)
            == (if IsFile(tree, root + paths[i]) then [] else [NoFile(paths[i])]) + FilesMissing(paths[i + 1..], tree, root)
  {
    assert paths[i..][1..] == paths[i + 1..];
  }

  lemma NoneMissing(glob: Glob, tree: Tree, root: Path)
    ensures FilesMissing([], tree, root) == [] && GlobsMissing(glob, [], tree, root) == []
  {
  }

  method CheckFiles(paths: seq<Path>, tree: Tree, root: Path) returns (missing: seq<Complaint>)
    ensures missing == FilesMissing(paths, tree, root)
  {
    hide FilesMissing;
    missing := [];
    assert paths[0..] == paths && [] + FilesMissing(paths, tree, root) == FilesMissing(paths, tree, root);
    for i := 0 to |paths|
      invariant missing + FilesMissing(paths[i..], tree, root) == FilesMissing(paths, tree, root)
    {
      FilesStep(paths, i, tree, root);
      ghost var rest := FilesMissing(paths[i + 1..], tree, root);
      if IsFile(tree, root + paths[i]) {
        assert [] + rest == rest;
      } else {
        assert missing + ([NoFile(paths[i])] + rest) == (missing + [NoFile(paths[i])]) + rest;
        missing := missing + [NoFile(paths[i])];
      }
    }
    NoneMissing((_, _) => false, tree, root);
    assert paths[|paths|..] == [] && missing + [] == missing;
  }

  lemma GlobsStep(glob: Glob, patterns: seq<string>, i: nat, tree: Tree, root: Path)
    requires i < |patterns|
    ensures GlobsMissing(glob, patterns[i..], tree, root)
            == (if Matched(glob, patterns[i], tree, root) then [] else [NoMatch(patterns[i])])
               + GlobsMissing(glob, patterns[i + 1..], tree, root)
  {
    assert patterns[i..][1..] == patterns[i + 1..];
    hide Matched;
  }

  method CheckGlobs(glob: Glob, patterns: seq<string>, tree: Tree, root: Path) returns (missing: seq<Complaint>)
    ensures missing == GlobsMissing(glob, patterns, tree, root)
  {
    hide Matched, GlobsMissing;
    missing := [];
    assert patterns[0..] == patterns && [] + GlobsMissing(glob, patterns, tree, root) == GlobsMissing(glob, patterns, tree, root);
    for i := 0 to |patterns|
      invariant missing + GlobsMissing(glob, patterns[i..], tree, root) == GlobsMissing(glob, patterns, tree, root)
    {
      GlobsStep(glob, patterns, i, tree, root);
      ghost var rest := GlobsMissing(glob, patterns[i + 1..], tree, root);
      if Matched(glob, patterns[i], tree, root) {
        assert [] + rest == rest;
      } else {
        assert missing + ([NoMatch(patterns[i])] + rest) == (missing + [NoMatch(patterns[i])]) + rest;
        missing := missing + [NoMatch(patterns[i])];
      }
    }
    NoneMissing(glob, tree, root);
    assert patterns[|patterns|..] == [] && missing + [] == missing;
  }

  /** Collects complaints file by file, pattern by pattern, and about the metadata last. */
  method CheckRequired(glob: Glob, p: Package, tree: Tree, root: Path) returns (missing: seq<Complaint>)
    ensures missing == RequiredMissing(glob, p, tree, root)
  {
    missing := CheckFiles(p.requiredFiles, tree, root);
    var globs := CheckGlobs(glob, p.requiredGlobs, tree, root);
    missing := missing + globs;
    if p.metadataFile.Some? {
      var file := p.metadataFile.value;
      if !IsFile(tree, root + file) {
        missing := missing + [NoFile(file)];
      } else if tree[root + file] != Json(p.identity) {
        missing := missing + [OtherIdentity(file)];
      }
    }
  }

  /** The vendor directory and the bootstrap cache. */
  class Bootstrap {
    const glob: Glob
    var vendor: Tree
    var stamps: map<string, Recipe>
    var outputs: map<string, set<Recipe>>
    var builds: seq<Build>

    function Value(): Workspace
      reads this
    {
      Workspace(vendor, stamps, outputs, builds)
    }

    constructor (glob: Glob)
      ensures this.glob == glob && Value() == EMPTY
    {
      this.glob := glob;
      vendor, stamps, outputs, builds := map[], map[], map[], [];
    }

    /** Brings the build outputs in the package's source root up to date; false when they cannot be copied. */
    method PrepareOutputs(c: Call) returns (ready: bool)
      modifies this
      ensures (Value(), ready) == BuildStage(old(Value()), c)
    {
      var r := c.package.recipe;
      var root := if c.package.source.Git? then c.package.source.checkoutDir else r.extractedDir;
      var key := StampKey(r);
      var stale := r.commands != [] && (key !in stamps || stamps[key] != r);
      if stale || !c.readyBefore {
        if r.commands == [] {
          return false;
        }
        builds := builds + [Build(key, r, root, c.build)];
        match c.build.effect {
          case Untouched =>
          case Overlaid =>
            outputs := outputs[root := (if root in outputs then outputs[root] else {}) + {r}];
          case Replaced =>
            outputs := outputs[root := {r}];
        }
        if !c.build.ok {
          return false;
        }
        stamps := stamps[key := r];
        return c.readyAfter;
      }
      return true;
    }

    /** Provisions one package; the state left behind and the outcome are those of the specification. */
    method ProvisionPackage(c: Call) returns (outcome: Outcome)
      modifies this
      ensures (Value(), outcome) == Provisioned(glob, old(Value()), c)
    {
      hide RequiredMissing, BuildStage, Without;
      var p := c.package;
      var dir := p.installDir;
      var missing := CheckRequired(glob, p, vendor, dir);
      if dir in vendor && missing == [] {
        return Ready;
      }
      if dir in vendor && !c.force {
        return Failed;
      }
      if !c.sourcesPrepared {
        return Failed;
      }
      BuildKeepsVendor(Value(), c);
      var ready := PrepareOutputs(c);
      if !ready || c.copied == None {
        return Failed;
      }
      var staging := c.copied.value[[] := Folder];
      if p.metadataFile.Some? {
        if p.metadataFile.value in staging && staging[p.metadataFile.value].Folder? {
          return Failed;
        }
        staging := staging[p.metadataFile.value := Json(p.identity)];
      }
      var stagedMissing := CheckRequired(glob, p, staging, []);
      if stagedMissing != [] {
        return Failed;
      }
      if dir in vendor && c.replace.RemoveInterrupted? {
        vendor := Without(vendor, dir) + Planted(c.replace.left, dir);
        return Failed;
      }
      vendor := Without(vendor, dir);
      if c.replace.MoveFailed? {
        return Failed;
      }
      vendor := vendor + Planted(staging, dir);
      return Installed;
    }
  }
}
