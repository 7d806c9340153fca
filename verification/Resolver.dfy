/**
Expansion of a language and component selection (bootstrap.py, `_resolve_selection`): a depth-first
walk over component implications that collects packages, toolchains and CMake options.
*/
module Resolver {

  datatype Profile = Profile(
    implies: seq<string>,
    packages: seq<string>,
    packagesByTarget: map<string, seq<string>>,
    toolchains: seq<string>,
    cmake: map<string, string>)

  type Profiles = map<string, Profile>

  datatype Manifest = Manifest(languages: Profiles, components: Profiles)

  datatype Error = UnknownLanguage | UnknownComponent | MissingProfile

  datatype Selection = Selection(packages: seq<string>, toolchains: seq<string>, cmake: map<string, string>)

  datatype Result = Ok(value: Selection) | Err(error: Error)

  function Elements(s: seq<string>): set<string> { set x | x in s }

  ghost predicate NoDuplicates(s: seq<string>) { forall i, j | 0 <= i < j < |s| :: s[i] != s[j] }

  // ---------------------------------------------------------------- collecting values

  /** Appends the values that are not there yet. */
  function AppendUnique(target: seq<string>, values: seq<string>): seq<string>
    decreases |values|
  {
    if values == [] then target
    else AppendUnique(if values[0] in target then target else target + [values[0]], values[1..])
  }

  /** It keeps what was there in place, adds exactly the values, and introduces no duplicate. */
  lemma {:induction false} AppendUniqueFacts(target: seq<string>, values: seq<string>)
    ensures target <= AppendUnique(target, values)
    ensures forall x :: x in AppendUnique(target, values) <==> x in target || x in values
    ensures NoDuplicates(target) ==> NoDuplicates(AppendUnique(target, values))
    decreases |values|
  {
    if values != [] {
      AppendUniqueFacts(if values[0] in target then target else target + [values[0]], values[1..]);
      assert forall x :: x in values <==> x == values[0] || x in values[1..];
    }
  }

  /** The packages a profile adds on one target. */
  function PackagesOf(p: Profile, target: string): seq<string> {
    p.packages + if target in p.packagesByTarget then p.packagesByTarget[target] else []
  }

  function CollectPackages(g: Profiles, names: seq<string>, target: string, packages: seq<string>): seq<string>
    requires Elements(names) <= g.Keys
    decreases |names|
  {
    if names == [] then packages
    else
      NamesSplit(names);
      CollectPackages(g, names[1..], target, AppendUnique(packages, PackagesOf(g[names[0]], target)))
  }

  function CollectToolchains(g: Profiles, names: seq<string>, toolchains: seq<string>): seq<string>
    requires Elements(names) <= g.Keys
    decreases |names|
  {
    if names == [] then toolchains
    else NamesSplit(names); CollectToolchains(g, names[1..], AppendUnique(toolchains, g[names[0]].toolchains))
  }

  function CollectCmake(g: Profiles, names: seq<string>, cmake: map<string, string>): map<string, string>
    requires Elements(names) <= g.Keys
    decreases |names|
  {
    if names == [] then cmake
    else NamesSplit(names); CollectCmake(g, names[1..], cmake + g[names[0]].cmake)
  }

  lemma NamesSplit(names: seq<string>)
    requires names != []
    ensures Elements(names) == {names[0]} + Elements(names[1..])
  {
    assert names == [names[0]] + names[1..];
  }

  // ---------------------------------------------------------------- the walk

  /** Components seen so far and, in order, those whose visit has finished; or a name without a profile. */
  datatype Visit = Visited(seen: set<string>, order: seq<string>) | Missing(name: string)

  function VisitOne(g: Profiles, name: string, seen: set<string>): (r: Visit)
    ensures r.Visited? ==> seen <= r.seen && name in r.seen
    decreases g.Keys - seen, 0
  {
    if name in seen then Visited(seen, [])
    else if name !in g then Missing(name)
    else
      assert g.Keys - (seen + {name}) < g.Keys - seen by { assert name in g.Keys - seen; }
      var r := VisitAll(g, g[name].implies, seen + {name});
      if r.Missing? then r else Visited(r.seen, r.order + [name])
  }

  function VisitAll(g: Profiles, names: seq<string>, seen: set<string>): (r: Visit)
    ensures r.Visited? ==> seen <= r.seen && Elements(names) <= r.seen
    decreases g.Keys - seen, 1, |names|
  {
    if names == [] then Visited(seen, [])
    else
      var first := VisitOne(g, names[0], seen);
      if first.Missing? then first
      else
        assert g.Keys - first.seen <= g.Keys - seen;
        var rest := VisitAll(g, names[1..], first.seen);
        if rest.Missing? then rest else NamesSplit(names); Visited(rest.seen, first.order + rest.order)
  }

  /** What one walk leaves: the newly seen components are exactly those it finished, each once. */
  ghost predicate WalkFacts(g: Profiles, seen: set<string>, r: Visit) {
    r.Visited? ==>
      && r.seen == seen + Elements(r.order) && NoDuplicates(r.order)
      && (forall n | n in r.order :: n !in seen && n in g)
      && (forall n | n in r.order :: Elements(g[n].implies) <= r.seen)
  }

  lemma {:induction false} VisitOneFacts(g: Profiles, name: string, seen: set<string>)
    ensures WalkFacts(g, seen, VisitOne(g, name, seen))
    decreases g.Keys - seen, 0
  {
    if name !in seen && name in g {
      assert g.Keys - (seen + {name}) < g.Keys - seen by { assert name in g.Keys - seen; }
      VisitAllFacts(g, g[name].implies, seen + {name});
      var r := VisitAll(g, g[name].implies, seen + {name});
      if r.Visited? {
        var order := r.order + [name];
        assert Elements(order) == Elements(r.order) + {name};
        assert name !in r.order;
      }
    }
  }

  lemma {:induction false} VisitAllFacts(g: Profiles, names: seq<string>, seen: set<string>)
    ensures WalkFacts(g, seen, VisitAll(g, names, seen))
    decreases g.Keys - seen, 1, |names|
  {
    if names != [] {
      var first := VisitOne(g, names[0], seen);
      VisitOneFacts(g, names[0], seen);
      if first.Visited? {
        VisitAllFacts(g, names[1..], first.seen);
        var rest := VisitAll(g, names[1..], first.seen);
        if rest.Visited? {
          JoinWalks(g, seen, first, rest);
        }
      }
    }
  }

  lemma JoinWalks(g: Profiles, seen: set<string>, first: Visit, rest: Visit)
    requires first.Visited? && rest.Visited? && first.seen <= rest.seen
    requires WalkFacts(g, seen, first) && WalkFacts(g, first.seen, rest)
    ensures WalkFacts(g, seen, Visited(rest.seen, first.order + rest.order))
  {
    var order := first.order + rest.order;
    assert Elements(order) == Elements(first.order) + Elements(rest.order);
    forall i, j | 0 <= i < j < |order| ensures order[i] != order[j] {
      if i < |first.order| <= j {
        assert order[j] == rest.order[j - |first.order|] && order[i] in first.order;
        assert order[i] in first.seen;
      } else if |first.order| <= i {
        assert order[i] == rest.order[i - |first.order|] && order[j] == rest.order[j - |first.order|];
      }
    }
  }

  // ---------------------------------------------------------------- reachability

  /** A chain of implications. */
  ghost predicate Chain(g: Profiles, p: seq<string>) {
    p != [] && forall i | 0 <= i < |p| - 1 :: p[i] in g && p[i + 1] in g[p[i]].implies
  }

  ghost predicate Reachable(g: Profiles, roots: seq<string>, n: string) {
    exists p :: Chain(g, p) && p[0] in roots && p[|p| - 1] == n
  }

  lemma ChainExtends(g: Profiles, head: string, p: seq<string>)
    requires head in g && Chain(g, p) && p[0] in g[head].implies
    ensures Chain(g, [head] + p)
  {
  }

  /** Everything a walk finishes, and the name it fails on, hangs on a chain from where the walk started. */
  lemma {:induction false} VisitOneReaches(g: Profiles, name: string, seen: set<string>, n: string) returns (p: seq<string>)
    requires var r := VisitOne(g, name, seen); (r.Visited? && n in r.order) || (r.Missing? && n == r.name)
    ensures Chain(g, p) && p[0] == name && p[|p| - 1] == n
    ensures VisitOne(g, name, seen).Missing? ==> n !in g
    decreases g.Keys - seen, 0
  {
    if n == name {
      p := [name];
      if VisitOne(g, name, seen).Missing? && name in g {
        assert g.Keys - (seen + {name}) < g.Keys - seen by { assert name in g.Keys - seen; }
        var q := VisitAllReaches(g, g[name].implies, seen + {name}, n);
      }
    } else {
      assert g.Keys - (seen + {name}) < g.Keys - seen by { assert name in g.Keys - seen; }
      var q := VisitAllReaches(g, g[name].implies, seen + {name}, n);
      ChainExtends(g, name, q);
      p := [name] + q;
    }
  }

  lemma {:induction false} VisitAllReaches(g: Profiles, names: seq<string>, seen: set<string>, n: string) returns (p: seq<string>)
    requires var r := VisitAll(g, names, seen); (r.Visited? && n in r.order) || (r.Missing? && n == r.name)
    ensures Chain(g, p) && p[0] in names && p[|p| - 1] == n
    ensures VisitAll(g, names, seen).Missing? ==> n !in g
    decreases g.Keys - seen, 1, |names|
  {
    var first := VisitOne(g, names[0], seen);
    if first.Missing? || (VisitAll(g, names, seen).Visited? && n in first.order) {
      p := VisitOneReaches(g, names[0], seen, n);
    } else {
      p := VisitAllReaches(g, names[1..], first.seen, n);
    }
  }

  lemma {:induction false} ChainStaysSeen(g: Profiles, seen: set<string>, p: seq<string>, k: nat)
    requires Chain(g, p) && k < |p| && p[0] in seen
    requires forall n | n in seen :: n in g && Elements(g[n].implies) <= seen
    ensures p[k] in seen
  {
    if k > 0 {
      ChainStaysSeen(g, seen, p, k - 1);
      assert p[k] in Elements(g[p[k - 1]].implies);
    }
  }

  /** The walk succeeds exactly when every reachable name has a profile, and then it finishes exactly those. */
  lemma WalkIsReachability(g: Profiles, roots: seq<string>)
    ensures var r := VisitAll(g, roots, {});
            && (r.Visited? <==> forall n | Reachable(g, roots, n) :: n in g)
            && (r.Visited? ==> NoDuplicates(r.order) && forall n :: n in r.order <==> Reachable(g, roots, n))
  {
    var r := VisitAll(g, roots, {});
    VisitAllFacts(g, roots, {});
    if r.Missing? {
      var p := VisitAllReaches(g, roots, {}, r.name);
      assert Reachable(g, roots, r.name);
    } else {
      forall n ensures n in r.order <==> Reachable(g, roots, n) {
        if n in r.order {
          var p := VisitAllReaches(g, roots, {}, n);
        }
        if Reachable(g, roots, n) {
          var p :| Chain(g, p) && p[0] in roots && p[|p| - 1] == n;
          assert p[0] in Elements(roots);
          ChainStaysSeen(g, r.seen, p, |p| - 1);
        }
      }
    }
  }

  // ---------------------------------------------------------------- order on acyclic graphs

  /** Component n implies m, directly or through others. */
  ghost predicate Above(g: Profiles, n: string, m: string) {
    exists p :: Chain(g, p) && |p| > 1 && p[0] == n && p[|p| - 1] == m
  }

  /** No component implies itself. */
  ghost predicate Acyclic(g: Profiles) {
    forall n :: !Above(g, n, n)
  }

  lemma AboveDirect(g: Profiles, n: string, m: string)
    requires n in g && m in g[n].implies
    ensures Above(g, n, m)
  {
    var p := [n, m];
    assert Chain(g, p) && |p| > 1 && p[0] == n && p[|p| - 1] == m;
  }

  lemma AboveStep(g: Profiles, n: string, name: string, m: string)
    requires Above(g, n, name) && name in g && m in g[name].implies
    ensures Above(g, n, m)
  {
    var p :| Chain(g, p) && |p| > 1 && p[0] == n && p[|p| - 1] == name;
    var q := p + [m];
    assert Chain(g, q) && |q| > 1 && q[0] == n && q[|q| - 1] == m;
  }

  /** Whatever a component implies was finished before it. */
  ghost predicate Topological(g: Profiles, done: set<string>, order: seq<string>) {
    forall i, m | 0 <= i < |order| && order[i] in g && m in g[order[i]].implies :: m in done || m in order[..i]
  }

  lemma {:induction false} VisitOneTopological(g: Profiles, name: string, seen: set<string>, done: set<string>)
    requires Acyclic(g) && done <= seen && VisitOne(g, name, seen).Visited?
    requires forall n | n in seen - done :: Above(g, n, name)
    ensures var r := VisitOne(g, name, seen);
            Topological(g, done, r.order) && name in done + Elements(r.order)
    decreases g.Keys - seen, 0
  {
    hide Above;
    if name in seen {
      assert name !in seen - done;
    } else {
      assert g.Keys - (seen + {name}) < g.Keys - seen by { assert name in g.Keys - seen; }
      forall n, m | n in seen + {name} - done && m in g[name].implies ensures Above(g, n, m) {
        if n == name {
          AboveDirect(g, name, m);
        } else {
          AboveStep(g, n, name, m);
        }
      }
      VisitAllTopological(g, g[name].implies, seen + {name}, done);
      var r := VisitAll(g, g[name].implies, seen + {name});
      var order := r.order + [name];
      assert VisitOne(g, name, seen).order == order;
      forall i, m | 0 <= i < |order| && order[i] in g && m in g[order[i]].implies ensures m in done || m in order[..i] {
        if i < |r.order| {
          assert order[..i] == r.order[..i] && order[i] == r.order[i];
        } else {
          assert order[..i] == r.order;
          assert m in Elements(g[name].implies);
        }
      }
      assert order[|order| - 1] == name;
      assert name in Elements(order);
    }
  }

  lemma {:induction false} VisitAllTopological(g: Profiles, names: seq<string>, seen: set<string>, done: set<string>)
    requires Acyclic(g) && done <= seen && VisitAll(g, names, seen).Visited?
    requires forall n, m | n in seen - done && m in names :: Above(g, n, m)
    ensures var r := VisitAll(g, names, seen);
            Topological(g, done, r.order) && Elements(names) <= done + Elements(r.order)
    decreases g.Keys - seen, 1, |names|
  {
    if names != [] {
      var first := VisitOne(g, names[0], seen);
      VisitOneTopological(g, names[0], seen, done);
      VisitOneFacts(g, names[0], seen);
      var done' := done + Elements(first.order);
      assert first.seen - done' <= seen - done;
      VisitAllTopological(g, names[1..], first.seen, done');
      var rest := VisitAll(g, names[1..], first.seen);
      NamesSplit(names);
      JoinTopological(g, done, first.order, rest.order);
      assert Elements(first.order + rest.order) == Elements(first.order) + Elements(rest.order);
    }
  }

  lemma JoinTopological(g: Profiles, done: set<string>, a: seq<string>, b: seq<string>)
    requires Topological(g, done, a) && Topological(g, done + Elements(a), b)
    ensures Topological(g, done, a + b)
  {
    var order := a + b;
    forall i, m | 0 <= i < |order| && order[i] in g && m in g[order[i]].implies ensures m in done || m in order[..i] {
      if i < |a| {
        assert order[..i] == a[..i] && order[i] == a[i];
      } else {
        var k := i - |a|;
        assert b[k] in g && m in g[b[k]].implies;
        assert m in done + Elements(a) || m in b[..k];
        assert order[..i] == a + b[..k];
      }
    }
  }

  lemma TopologicalAt(g: Profiles, done: set<string>, order: seq<string>, i: nat, m: string)
    requires Topological(g, done, order) && i < |order| && order[i] in g && m in g[order[i]].implies
    ensures m in done || m in order[..i]
  {
  }

  /** In a topological order, a component comes after everything it implies, directly or not. */
  lemma {:induction false} ImplierComesLater(g: Profiles, order: seq<string>, p: seq<string>, i: nat, j: nat)
    requires Topological(g, {}, order) && NoDuplicates(order) && Chain(g, p) && |p| > 1
    requires i < |order| && j < |order| && order[i] == p[0] && order[j] == p[|p| - 1]
    ensures j < i
    decreases |p|
  {
    assert order[i] in g && p[1] in g[order[i]].implies;
    TopologicalAt(g, {}, order, i, p[1]);
    var k :| 0 <= k < i && order[k] == p[1];
    if |p| > 2 {
      assert Chain(g, p[1..]);
      ImplierComesLater(g, order, p[1..], k, j);
    }
  }

  // ---------------------------------------------------------------- which CMake value wins

  /** The value of an option is that of the last named profile that sets it. */
  lemma {:induction false} LastSets(g: Profiles, names: seq<string>, cmake: map<string, string>, key: string) returns (k: nat)
    requires Elements(names) <= g.Keys
    ensures k <= |names| && forall j | k < j < |names| :: names[j] in g && key !in g[names[j]].cmake
    ensures k < |names| ==> names[k] in g && key in g[names[k]].cmake && key in CollectCmake(g, names, cmake)
                            && CollectCmake(g, names, cmake)[key] == g[names[k]].cmake[key]
    ensures k == |names| ==> (forall j | 0 <= j < |names| :: names[j] in g && key !in g[names[j]].cmake)
                             && (key in CollectCmake(g, names, cmake) <==> key in cmake)
                             && (key in cmake ==> CollectCmake(g, names, cmake)[key] == cmake[key])
  {
    if names == [] {
      k := 0;
    } else {
      NamesSplit(names);
      var rest := LastSets(g, names[1..], cmake + g[names[0]].cmake, key);
      assert forall j | 0 < j < |names| :: names[j] == names[1..][j - 1];
      if rest < |names| - 1 {
        k := rest + 1;
      } else if key in g[names[0]].cmake {
        k := 0;
      } else {
        k := |names|;
      }
    }
  }

  // ---------------------------------------------------------------- the whole expansion

  function Expanded(m: Manifest, languages: seq<string>, components: seq<string>, target: string): Result {
    if !(Elements(languages) <= m.languages.Keys) then Err(UnknownLanguage)
    else if !(Elements(components) <= m.components.Keys) then Err(UnknownComponent)
    else
      var walk := VisitAll(m.components, components, {});
      if walk.Missing? then Err(MissingProfile)
      else
        WalkInside(m.components, components, {});
        Ok(Selection(
             CollectPackages(m.languages, languages, target, CollectPackages(m.components, walk.order, target, [])),
             CollectToolchains(m.languages, languages, []),
             CollectCmake(m.languages, languages, CollectCmake(m.components, walk.order, map[]))))
  }

  lemma WalkInside(g: Profiles, names: seq<string>, seen: set<string>)
    ensures var r := VisitAll(g, names, seen); r.Visited? ==> Elements(r.order) <= g.Keys
  {
    VisitAllFacts(g, names, seen);
  }

  lemma {:induction false} CollectedPackages(g: Profiles, names: seq<string>, target: string, packages: seq<string>)
    requires Elements(names) <= g.Keys
    ensures NoDuplicates(packages) ==> NoDuplicates(CollectPackages(g, names, target, packages))
    ensures forall x :: x in CollectPackages(g, names, target, packages)
              <==> x in packages || exists n :: n in names && n in g && x in PackagesOf(g[n], target)
    decreases |names|
  {
    if names != [] {
      NamesSplit(names);
      var more := AppendUnique(packages, PackagesOf(g[names[0]], target));
      CollectedPackages(g, names[1..], target, more);
      AppendUniqueFacts(packages, PackagesOf(g[names[0]], target));
      assert forall n :: n in names <==> n == names[0] || n in names[1..];
    }
  }

  /** The package list is duplicate-free and is exactly the union over reachable components and chosen languages. */
  lemma PackagesAreTheUnion(m: Manifest, languages: seq<string>, components: seq<string>, target: string, x: string)
    requires Expanded(m, languages, components, target).Ok?
    ensures var packages := Expanded(m, languages, components, target).value.packages;
            && NoDuplicates(packages)
            && (x in packages <==>
                 || (exists n :: Reachable(m.components, components, n) && n in m.components && NeedsPackage(m.components[n], target, x))
                 || (exists l :: l in languages && l in m.languages && NeedsPackage(m.languages[l], target, x)))
  {
    var order := VisitAll(m.components, components, {}).order;
    WalkInside(m.components, components, {});
    WalkIsReachability(m.components, components);
    CollectedPackages(m.components, order, target, []);
    CollectedPackages(m.languages, languages, target, CollectPackages(m.components, order, target, []));
    forall p: Profile ensures x in PackagesOf(p, target) <==> NeedsPackage(p, target, x) {
    }
    hide Reachable, PackagesOf, CollectPackages, NeedsPackage;
  }

  /** The profile names the package for every target, or for this one. */
  predicate NeedsPackage(p: Profile, target: string, x: string) {
    x in p.packages || (target in p.packagesByTarget && x in p.packagesByTarget[target])
  }

  // ---------------------------------------------------------------- the order of the lists

  /** Position of the first x in s, or its length. */
  function FirstIndex(s: seq<string>, x: string): (i: nat)
    ensures i <= |s| && (i < |s| <==> x in s) && (i < |s| ==> s[i] == x) && forall j | 0 <= j < i :: s[j] != x
  {
    if s == [] || s[0] == x then 0 else 1 + FirstIndex(s[1..], x)
  }

  /** The list names everything that is mentioned, once, in order of first mention; there is only one such list. */
  ghost predicate InOrderOfMention(list: seq<string>, mentions: seq<string>) {
    && NoDuplicates(list) && (forall x :: x in list <==> x in mentions)
    && forall i, j | 0 <= i < j < |list| :: FirstIndex(mentions, list[i]) < FirstIndex(mentions, list[j])
  }

  lemma FirstIndexAppended(s: seq<string>, v: string, x: string)
    ensures FirstIndex(s + [v], x) == if x in s then FirstIndex(s, x) else if x == v then |s| else |s| + 1
  {
    var i, j := FirstIndex(s + [v], x), FirstIndex(s, x);
    assert forall k | 0 <= k < |s| :: (s + [v])[k] == s[k];
    assert (s + [v])[|s|] == v;
  }

  lemma MentionedOnce(list: seq<string>, mentions: seq<string>, v: string)
    requires InOrderOfMention(list, mentions)
    ensures InOrderOfMention(if v in list then list else list + [v], mentions + [v])
  {
    var longer := if v in list then list else list + [v];
    forall i, j | 0 <= i < j < |longer| ensures FirstIndex(mentions + [v], longer[i]) < FirstIndex(mentions + [v], longer[j]) {
      FirstIndexAppended(mentions, v, longer[i]);
      FirstIndexAppended(mentions, v, longer[j]);
      assert longer[i] in list;
      hide FirstIndex;
    }
  }

  lemma {:induction false} AppendedInOrder(list: seq<string>, mentions: seq<string>, values: seq<string>)
    requires InOrderOfMention(list, mentions)
    ensures InOrderOfMention(AppendUnique(list, values), mentions + values)
    decreases |values|
  {
    hide InOrderOfMention;
    if values == [] {
      assert mentions + values == mentions;
    } else {
      MentionedOnce(list, mentions, values[0]);
      AppendedInOrder(if values[0] in list then list else list + [values[0]], mentions + [values[0]], values[1..]);
      assert mentions + [values[0]] + values[1..] == mentions + values;
    }
  }

  /** The packages that the profiles of a list of names mention, in order. */
  ghost function PackageMentions(g: Profiles, names: seq<string>, target: string): seq<string>
    requires Elements(names) <= g.Keys
    decreases |names|
  {
    if names == [] then []
    else
      NamesSplit(names);
      var p := g[names[0]];
      p.packages + (if target in p.packagesByTarget then p.packagesByTarget[target] else []) + PackageMentions(g, names[1..], target)
  }

  ghost function ToolchainMentions(g: Profiles, names: seq<string>): seq<string>
    requires Elements(names) <= g.Keys
    decreases |names|
  {
    if names == [] then [] else NamesSplit(names); g[names[0]].toolchains + ToolchainMentions(g, names[1..])
  }

  lemma Reassociated(a: seq<string>, b: seq<string>, c: seq<string>)
    ensures a + b + c == a + (b + c)
  {
  }

  lemma {:induction false} PackagesCollected(g: Profiles, names: seq<string>, target: string, list: seq<string>, mentions: seq<string>)
    requires Elements(names) <= g.Keys && InOrderOfMention(list, mentions)
    ensures InOrderOfMention(CollectPackages(g, names, target, list), mentions + PackageMentions(g, names, target))
    decreases |names|
  {
    hide InOrderOfMention;
    if names == [] {
      assert mentions + [] == mentions;
    } else {
      NamesSplit(names);
      var own := PackagesOf(g[names[0]], target);
      AppendedInOrder(list, mentions, own);
      hide AppendUnique;
      PackagesCollected(g, names[1..], target, AppendUnique(list, own), mentions + own);
      Reassociated(mentions, own, PackageMentions(g, names[1..], target));
    }
  }

  lemma {:induction false} ToolchainsCollected(g: Profiles, names: seq<string>, list: seq<string>, mentions: seq<string>)
    requires Elements(names) <= g.Keys && InOrderOfMention(list, mentions)
    ensures InOrderOfMention(CollectToolchains(g, names, list), mentions + ToolchainMentions(g, names))
    decreases |names|
  {
    hide InOrderOfMention;
    if names == [] {
      assert mentions + [] == mentions;
    } else {
      NamesSplit(names);
      var own := g[names[0]].toolchains;
      AppendedInOrder(list, mentions, own);
      hide AppendUnique;
      ToolchainsCollected(g, names[1..], AppendUnique(list, own), mentions + own);
      Reassociated(mentions, own, ToolchainMentions(g, names[1..]));
    }
  }

  /** The toolchains are those of the chosen languages, each once, in order of first mention. */
  lemma ToolchainsInOrder(m: Manifest, languages: seq<string>, components: seq<string>, target: string)
    requires Expanded(m, languages, components, target).Ok?
    ensures Elements(languages) <= m.languages.Keys
    ensures InOrderOfMention(Expanded(m, languages, components, target).value.toolchains, ToolchainMentions(m.languages, languages))
  {
    ToolchainsCollected(m.languages, languages, [], []);
    assert [] + ToolchainMentions(m.languages, languages) == ToolchainMentions(m.languages, languages);
  }

  /** Element by element: a toolchain is listed exactly when a chosen language names it, and no other is. */
  lemma ToolchainsAreTheUnion(m: Manifest, languages: seq<string>, components: seq<string>, target: string, x: string)
    requires Expanded(m, languages, components, target).Ok?
    ensures var toolchains := Expanded(m, languages, components, target).value.toolchains;
            && NoDuplicates(toolchains)
            && (x in toolchains <==> exists l :: l in languages && l in m.languages && x in m.languages[l].toolchains)
  {
    ToolchainsInOrder(m, languages, components, target);
    ToolchainMentioned(m.languages, languages, x);
    hide ToolchainMentions, CollectToolchains, Expanded;
  }

  lemma {:induction false} ToolchainMentioned(g: Profiles, names: seq<string>, x: string)
    requires Elements(names) <= g.Keys
    ensures x in ToolchainMentions(g, names) <==> exists l :: l in names && l in g && x in g[l].toolchains
    decreases |names|
  {
    if names != [] {
      NamesSplit(names);
      ToolchainMentioned(g, names[1..], x);
      assert forall l :: l in names <==> l == names[0] || l in names[1..];
    }
  }

  /** The packages are in order of first mention: components as their visits finish, then languages as chosen. */
  lemma PackagesInOrder(m: Manifest, languages: seq<string>, components: seq<string>, target: string)
    requires Expanded(m, languages, components, target).Ok?
    ensures Elements(languages) <= m.languages.Keys
    ensures var order := VisitAll(m.components, components, {}).order;
            && Elements(order) <= m.components.Keys
            && InOrderOfMention(Expanded(m, languages, components, target).value.packages,
                                PackageMentions(m.components, order, target) + PackageMentions(m.languages, languages, target))
  {
    var order := VisitAll(m.components, components, {}).order;
    WalkInside(m.components, components, {});
    PackagesCollected(m.components, order, target, [], []);
    var mentions := PackageMentions(m.components, order, target);
    assert [] + mentions == mentions;
    PackagesCollected(m.languages, languages, target, CollectPackages(m.components, order, target, []), mentions);
    hide InOrderOfMention, PackageMentions, CollectPackages;
  }

  /** A component finishes right after what it implies, in the order it names them. */
  lemma ImpliedFinishFirst(g: Profiles, name: string)
    requires VisitAll(g, [name], {}).Visited?
    ensures name in g && VisitAll(g, g[name].implies, {name}).Visited?
    ensures VisitAll(g, [name], {}).order == VisitAll(g, g[name].implies, {name}).order + [name]
  {
    assert [name][1..] == [] && {} + {name} == {name};
    var first := VisitOne(g, name, {});
    assert VisitAll(g, [], first.seen) == Visited(first.seen, []);
    assert first.order + [] == first.order;
  }

  /** Components that imply nothing finish in the order they are named. */
  lemma {:induction false} LeavesInOrder(g: Profiles, names: seq<string>, seen: set<string>)
    requires NoDuplicates(names) && forall i | 0 <= i < |names| :: names[i] in g && names[i] !in seen && g[names[i]].implies == []
    ensures VisitAll(g, names, seen) == Visited(seen + Elements(names), names)
    decreases |names|
  {
    if names == [] {
      assert seen + Elements(names) == seen;
    } else {
      var name := names[0];
      assert VisitAll(g, [], seen + {name}) == Visited(seen + {name}, []);
      assert VisitOne(g, name, seen) == Visited(seen + {name}, [name]);
      LeavesInOrder(g, names[1..], seen + {name});
      NamesSplit(names);
      assert seen + {name} + Elements(names[1..]) == seen + Elements(names);
      assert [name] + names[1..] == names;
    }
  }

  // ---------------------------------------------------------------- errors and options

  /** Unknown languages are reported before unknown components, and both before any walk. */
  lemma SelectionErrors(m: Manifest, languages: seq<string>, components: seq<string>, target: string)
    ensures var r := Expanded(m, languages, components, target);
            && (r == Err(UnknownLanguage) <==> exists l :: l in languages && l !in m.languages)
            && (r == Err(UnknownComponent) <==>
                  (forall l | l in languages :: l in m.languages) && exists n :: n in components && n !in m.components)
            && (r.Ok? <==> (forall l | l in languages :: l in m.languages)
                           && forall n | Reachable(m.components, components, n) :: n in m.components)
  {
    assert Elements(languages) <= m.languages.Keys <==> forall l | l in languages :: l in m.languages by {
      assert forall l :: l in languages <==> l in Elements(languages);
    }
    assert Elements(components) <= m.components.Keys <==> forall n | n in components :: n in m.components by {
      assert forall n :: n in components <==> n in Elements(components);
    }
    WalkIsReachability(m.components, components);
    forall n | n in components ensures Reachable(m.components, components, n) {
      assert Chain(m.components, [n]) && [n][0] in components && [n][|[n]| - 1] == n;
    }
    hide Reachable, VisitAll;
  }

  /** An option is set exactly when a reachable component or a chosen language sets it. */
  lemma OptionsPresent(m: Manifest, languages: seq<string>, components: seq<string>, target: string, key: string)
    requires Expanded(m, languages, components, target).Ok?
    ensures key in Expanded(m, languages, components, target).value.cmake
            <==> || (exists n :: Reachable(m.components, components, n) && n in m.components && key in m.components[n].cmake)
                 || (exists l :: l in languages && l in m.languages && key in m.languages[l].cmake)
  {
    var order := VisitAll(m.components, components, {}).order;
    WalkInside(m.components, components, {});
    WalkIsReachability(m.components, components);
    OptionsCollected(m.components, order, map[], key);
    OptionsCollected(m.languages, languages, CollectCmake(m.components, order, map[]), key);
    hide Reachable, CollectCmake, VisitAll;
  }

  lemma {:induction false} OptionsCollected(g: Profiles, names: seq<string>, cmake: map<string, string>, key: string)
    requires Elements(names) <= g.Keys
    ensures key in CollectCmake(g, names, cmake) <==> key in cmake || exists n :: n in names && n in g && key in g[n].cmake
    decreases |names|
  {
    if names != [] {
      NamesSplit(names);
      OptionsCollected(g, names[1..], cmake + g[names[0]].cmake, key);
      assert forall n :: n in names <==> n == names[0] || n in names[1..];
    }
  }

  /** The expansion fails for a missing profile exactly when a reachable component has none; it always terminates. */
  lemma FailsExactlyWhenOpen(m: Manifest, languages: seq<string>, components: seq<string>, target: string)
    requires Elements(languages) <= m.languages.Keys && Elements(components) <= m.components.Keys
    ensures Expanded(m, languages, components, target) == Err(MissingProfile)
            <==> exists n :: Reachable(m.components, components, n) && n !in m.components
  {
    WalkIsReachability(m.components, components);
  }

  /** Languages override components, and among languages the last one named wins. */
  lemma LanguagesOverride(m: Manifest, languages: seq<string>, components: seq<string>, target: string, key: string, l: nat)
    requires Expanded(m, languages, components, target).Ok?
    requires l < |languages| && languages[l] in m.languages && key in m.languages[languages[l]].cmake
    requires forall j | l < j < |languages| :: languages[j] in m.languages && key !in m.languages[languages[j]].cmake
    ensures var cmake := Expanded(m, languages, components, target).value.cmake;
            key in cmake && cmake[key] == m.languages[languages[l]].cmake[key]
  {
    var order := VisitAll(m.components, components, {}).order;
    WalkInside(m.components, components, {});
    var k := LastSets(m.languages, languages, CollectCmake(m.components, order, map[]), key);
    assert k == l;
  }

  /** On an acyclic graph, no component that implies the one whose value wins sets that option itself. */
  lemma ImpliersOverride(m: Manifest, languages: seq<string>, components: seq<string>, target: string, key: string)
    returns (winner: string)
    requires Acyclic(m.components) && Expanded(m, languages, components, target).Ok?
    requires key in Expanded(m, languages, components, target).value.cmake
    requires forall l | l in languages && l in m.languages :: key !in m.languages[l].cmake
    ensures Reachable(m.components, components, winner) && winner in m.components && key in m.components[winner].cmake
    ensures Expanded(m, languages, components, target).value.cmake[key] == m.components[winner].cmake[key]
    ensures forall p | Chain(m.components, p) && |p| > 1 && p[|p| - 1] == winner && Reachable(m.components, components, p[0]) ::
              p[0] in m.components && key !in m.components[p[0]].cmake
  {
    var g, order := m.components, VisitAll(m.components, components, {}).order;
    WalkInside(g, components, {});
    WalkIsReachability(g, components);
    VisitAllTopological(g, components, {}, {});
    var k := LastSets(m.languages, languages, CollectCmake(g, order, map[]), key);
    assert k == |languages|;
    var i := LastSets(g, order, map[], key);
    winner := order[i];
    forall p | Chain(g, p) && |p| > 1 && p[|p| - 1] == winner && Reachable(g, components, p[0])
      ensures p[0] in g && key !in g[p[0]].cmake
    {
      assert p[0] in order;
      var j :| 0 <= j < |order| && order[j] == p[0];
      ImplierComesLater(g, order, p, j, i);
    }
  }

  // ---------------------------------------------------------------- the operation

  /** The lists and the dictionary the walk updates in place. */
  class Expansion {
    const components: Profiles
    const target: string
    var seen: set<string>
    var packages: seq<string>
    var toolchains: seq<string>
    var cmake: map<string, string>

    constructor (components: Profiles, target: string)
      ensures this.components == components && this.target == target
      ensures seen == {} && packages == [] && toolchains == [] && cmake == map[]
    {
      this.components, this.target := components, target;
      seen, packages, toolchains, cmake := {}, [], [], map[];
    }

    /** Visits one component, implications first; false stands for the missing-profile exception. */
    method VisitComponent(name: string) returns (found: bool)
      modifies this
      ensures found <==> VisitOne(components, name, old(seen)).Visited?
      ensures found ==>
                var r := VisitOne(components, name, old(seen));
                && seen == r.seen && toolchains == old(toolchains) && Elements(r.order) <= components.Keys
                && packages == CollectPackages(components, r.order, target, old(packages))
                && cmake == CollectCmake(components, r.order, old(cmake))
      decreases components.Keys - seen, 0
    {
      if name in seen {
        return true;
      }
      seen := seen + {name};
      if name !in components {
        return false;
      }
      var profile := components[name];
      assert components.Keys - seen < components.Keys - old(seen) by { assert name in components.Keys - old(seen); }
      found := VisitComponents(profile.implies);
      if !found {
        return false;
      }
      ghost var order := VisitAll(components, profile.implies, old(seen) + {name}).order;
      packages := AppendUnique(packages, profile.packages);
      packages := AppendUnique(packages, if target in profile.packagesByTarget then profile.packagesByTarget[target] else []);
      cmake := cmake + profile.cmake;
      AppendTwice(CollectPackages(components, order, target, old(packages)), profile, target);
      CollectLast(components, order, name, target, old(packages), old(cmake));
    }

    method VisitComponents(names: seq<string>) returns (found: bool)
      modifies this
      ensures found <==> VisitAll(components, names, old(seen)).Visited?
      ensures found ==>
                var r := VisitAll(components, names, old(seen));
                && seen == r.seen && toolchains == old(toolchains) && Elements(r.order) <= components.Keys
                && packages == CollectPackages(components, r.order, target, old(packages))
                && cmake == CollectCmake(components, r.order, old(cmake))
      decreases components.Keys - seen, 1, |names|
    {
      if names == [] {
        return true;
      }
      found := VisitComponent(names[0]);
      if !found {
        return false;
      }
      ghost var first := VisitOne(components, names[0], old(seen));
      assert components.Keys - seen <= components.Keys - old(seen);
      found := VisitComponents(names[1..]);
      if found {
        ghost var rest := VisitAll(components, names[1..], first.seen);
        CollectJoined(components, first.order, rest.order, target, old(packages), old(cmake));
      }
    }
  }

  lemma AppendTwice(packages: seq<string>, p: Profile, target: string)
    ensures AppendUnique(AppendUnique(packages, p.packages), if target in p.packagesByTarget then p.packagesByTarget[target] else [])
            == AppendUnique(packages, PackagesOf(p, target))
  {
    AppendConcat(packages, p.packages, if target in p.packagesByTarget then p.packagesByTarget[target] else []);
  }

  lemma {:induction false} AppendConcat(target: seq<string>, a: seq<string>, b: seq<string>)
    ensures AppendUnique(AppendUnique(target, a), b) == AppendUnique(target, a + b)
    decreases |a|
  {
    if a == [] {
      assert a + b == b;
    } else {
      AppendConcat(if a[0] in target then target else target + [a[0]], a[1..], b);
      assert (a + b)[0] == a[0] && (a + b)[1..] == a[1..] + b;
    }
  }

  /** Collecting over a longer list is collecting over its parts in turn. */
  lemma {:induction false} CollectJoined(g: Profiles, a: seq<string>, b: seq<string>, target: string,
                                         packages: seq<string>, cmake: map<string, string>)
    requires Elements(a) <= g.Keys && Elements(b) <= g.Keys
    ensures Elements(a + b) <= g.Keys
    ensures CollectPackages(g, a + b, target, packages)
            == CollectPackages(g, b, target, CollectPackages(g, a, target, packages))
    ensures CollectCmake(g, a + b, cmake) == CollectCmake(g, b, CollectCmake(g, a, cmake))
    decreases |a|
  {
    assert Elements(a + b) == Elements(a) + Elements(b);
    if a == [] {
      assert a + b == b;
    } else {
      NamesSplit(a);
      assert (a + b)[0] == a[0] && (a + b)[1..] == a[1..] + b;
      CollectJoined(g, a[1..], b, target, AppendUnique(packages, PackagesOf(g[a[0]], target)), cmake + g[a[0]].cmake);
    }
  }

  lemma CollectLast(g: Profiles, order: seq<string>, name: string, target: string,
                    packages: seq<string>, cmake: map<string, string>)
    requires Elements(order) <= g.Keys && name in g
    ensures Elements(order + [name]) <= g.Keys
    ensures CollectPackages(g, order + [name], target, packages)
            == AppendUnique(CollectPackages(g, order, target, packages), PackagesOf(g[name], target))
    ensures CollectCmake(g, order + [name], cmake) == CollectCmake(g, order, cmake) + g[name].cmake
  {
    assert Elements([name]) == {name};
    CollectJoined(g, order, [name], target, packages, cmake);
    assert [name][1..] == [];
  }

  /** The public operation. */
  method ResolveSelection(m: Manifest, languages: seq<string>, components: seq<string>, target: string) returns (r: Result)
    ensures r == Expanded(m, languages, components, target)
  {
    if !(Elements(languages) <= m.languages.Keys) {
      return Err(UnknownLanguage);
    }
    if !(Elements(components) <= m.components.Keys) {
      return Err(UnknownComponent);
    }
    var e := new Expansion(m.components, target);
    var found := e.VisitComponents(components);
    if !found {
      return Err(MissingProfile);
    }
    ghost var packages, cmake := e.packages, e.cmake;
    for i := 0 to |languages|
      invariant LanguagesLeft(m, languages, i, target, e.packages, e.toolchains, e.cmake)
                == LanguagesLeft(m, languages, 0, target, packages, [], cmake)
    {
      hide AppendUnique, LanguagesLeft, VisitAll;
      var profile := m.languages[languages[i]];
      LanguagesNext(m, languages, i, target, e.packages, e.toolchains, e.cmake);
      ghost var before := e.packages;
      e.packages := AppendUnique(e.packages, profile.packages);
      e.packages := AppendUnique(e.packages, if target in profile.packagesByTarget then profile.packagesByTarget[target] else []);
      AppendTwice(before, profile, target);
      e.toolchains := AppendUnique(e.toolchains, profile.toolchains);
      e.cmake := e.cmake + profile.cmake;
    }
    assert languages[0..] == languages;
    return Ok(Selection(e.packages, e.toolchains, e.cmake));
  }

  /** What the languages from i on make of the lists collected so far. */
  ghost function LanguagesLeft(m: Manifest, languages: seq<string>, i: nat, target: string,
                               packages: seq<string>, toolchains: seq<string>, cmake: map<string, string>): Selection
    requires i <= |languages| && Elements(languages) <= m.languages.Keys
  {
    assert Elements(languages[i..]) <= Elements(languages);
    Selection(CollectPackages(m.languages, languages[i..], target, packages),
              CollectToolchains(m.languages, languages[i..], toolchains),
              CollectCmake(m.languages, languages[i..], cmake))
  }

  lemma LanguagesNext(m: Manifest, languages: seq<string>, i: nat, target: string,
                      packages: seq<string>, toolchains: seq<string>, cmake: map<string, string>)
    requires i < |languages| && Elements(languages) <= m.languages.Keys
    ensures languages[i] in m.languages
    ensures var p := m.languages[languages[i]];
            LanguagesLeft(m, languages, i, target, packages, toolchains, cmake)
            == LanguagesLeft(m, languages, i + 1, target, AppendUnique(packages, PackagesOf(p, target)),
                             AppendUnique(toolchains, p.toolchains), cmake + p.cmake)
  {
    hide AppendUnique;
    assert languages[i] in Elements(languages);
    assert languages[i..][0] == languages[i] && languages[i..][1..] == languages[i + 1..];
  }
}
