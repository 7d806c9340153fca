/**
The member table of an archive (tools/bootstrap/verify_toolchain_pins.py): filling in the implied
parent directories of `_archive_entries`, and the bounded link following of `_resolve_entry`.
*/
module Archive {

  /** A table value; a link target that starts with a slash is relative to the archive root. */
  datatype Kind = Dir | File | Link(target: string)

  type Table = map<string, Kind>

  // ---------------------------------------------------------------- parent directories

  /** Number of characters up to and including the last slash. */
  function HeadLength(p: string): (n: nat)
    ensures n <= |p| && (n > 0 ==> p[n - 1] == '/') && forall i | n <= i < |p| :: p[i] != '/'
  {
    if p == "" then 0 else if p[|p| - 1] == '/' then |p| else HeadLength(p[..|p| - 1])
  }

  predicate AllSlashes(p: string) { forall i | 0 <= i < |p| :: p[i] == '/' }

  function StripSlashes(p: string): (r: string)
    ensures |r| <= |p| && (p != "" && p[|p| - 1] == '/' ==> |r| < |p|)
    ensures r == p[..|r|] && (r != "" ==> r[|r| - 1] != '/') && forall i | |r| <= i < |p| :: p[i] == '/'
  {
    if p == "" || p[|p| - 1] != '/' then p else StripSlashes(p[..|p| - 1])
  }

  /** posixpath.dirname: a path of slashes only is its own parent, any other parent is shorter. */
  function Dirname(p: string): (r: string)
    ensures |r| < |p| || r == p
    ensures r == p ==> AllSlashes(p)
  {
    var head := p[..HeadLength(p)];
    if AllSlashes(head) then head else StripSlashes(head)
  }

  predicate SlashFree(p: string) { forall i | 0 <= i < |p| :: p[i] != '/' }

  /** The parent of a path is what stands before its last slash, if that is a single one. */
  lemma DirnameAt(p: string, k: nat)
    requires 0 < k < |p| && p[k] == '/' && p[k - 1] != '/' && SlashFree(p[k + 1..])
    ensures Dirname(p) == p[..k]
  {
    LastSlash(p, k);
    hide HeadLength, StripSlashes;
    var head := p[..k + 1];
    assert head[k - 1] != '/' && head[k] == '/';
    assert |StripSlashes(head)| == k;
    assert head[..k] == p[..k];
  }

  lemma LastSlash(p: string, k: nat)
    requires k < |p| && p[k] == '/' && SlashFree(p[k + 1..])
    ensures HeadLength(p) == k + 1
  {
    hide HeadLength;
    forall i | k + 1 <= i < |p| ensures p[i] != '/' {
      assert p[k + 1..][i - k - 1] == p[i];
    }
    HeadIs(p, k + 1);
  }

  /** The parent of a name in a directory is the directory, and that of a name at the root is the root. */
  lemma DirnameOfChild(d: string, base: string)
    requires d != "" && d[|d| - 1] != '/' && SlashFree(base)
    ensures Dirname(d + "/" + base) == d
    ensures Dirname("/" + base) == "/"
  {
    var p, q := d + "/" + base, "/" + base;
    assert p[|d|] == '/' && p[|d| - 1] == d[|d| - 1] && p[|d| + 1..] == base && p[..|d|] == d;
    assert q[0] == '/' && q[1..] == base && q[..1] == "/";
    hide HeadLength, StripSlashes, SlashFree;
    LastSlash(q, 0);
    assert Dirname(q) == "/";
    hide Dirname;
    DirnameAt(p, |d|);
  }

  lemma HeadIs(p: string, n: nat)
    requires 0 < n <= |p| && p[n - 1] == '/' && forall i | n <= i < |p| :: p[i] != '/'
    ensures HeadLength(p) == n
  {
    hide HeadLength;
    var m := HeadLength(p);
    assert m >= n;
  }

  /** A name without a slash is at the top. */
  lemma DirnameOfPlain(p: string)
    requires SlashFree(p)
    ensures Dirname(p) == ""
  {
    assert HeadLength(p) == 0;
    assert p[..0] == "";
  }

  /** Where the walk up has nothing more to add. */
  predicate AtTop(p: string) { p == "" || p == "." }

  ghost predicate ParentClosed(names: set<string>) {
    forall n | n in names :: AtTop(Dirname(n)) || Dirname(n) in names
  }

  /** `filled` is the least table that contains `entries` and is closed under parents; what it adds are directories. */
  ghost predicate LeastClosure(entries: Table, filled: Table) {
    && (forall n | n in entries :: n in filled && filled[n] == entries[n])
    && (forall n | n in filled && n !in entries :: filled[n] == Dir)
    && ParentClosed(filled.Keys)
    && (forall names: set<string> | entries.Keys <= names && ParentClosed(names) :: filled.Keys <= names)
  }

  /** Position i of a path holds a slash with no slash on either side. */
  predicate SingleSlash(p: string, i: nat) {
    0 < i < |p| && p[i] == '/' && p[i - 1] != '/' && (i + 1 < |p| ==> p[i + 1] != '/')
  }

  /** In a table closed under parents, every part of a member's path that ends before a single slash is a member. */
  lemma {:induction false} PrefixesPresent(names: set<string>, name: string, i: nat)
    requires ParentClosed(names) && name in names && SingleSlash(name, i)
    ensures name[..i] in names || name[..i] == "."
    decreases |name|
  {
    var last := HeadLength(name) - 1;
    assert name[i] == '/';
    assert last >= i;
    if last == i {
      var base := name[i + 1..];
      forall k | 0 <= k < |base| ensures base[k] != '/' {
        assert base[k] == name[i + 1 + k];
      }
      DirnameAt(name, i);
      hide Dirname, HeadLength;
    } else {
      hide HeadLength;
      ParentPrefix(name, i);
      hide Dirname;
      PrefixesPresent(names, Dirname(name), i);
    }
  }

  /** Above the last slash, the parent keeps everything up to and past an earlier single slash. */
  lemma ParentPrefix(name: string, i: nat)
    requires SingleSlash(name, i) && i + 1 < HeadLength(name)
    ensures var parent := Dirname(name);
            && i + 1 < |parent| < |name| && parent[..i] == name[..i] && SingleSlash(parent, i) && !AtTop(parent)
  {
    var head := name[..HeadLength(name)];
    assert head[i - 1] == name[i - 1] && head[i + 1] == name[i + 1];
    assert !AllSlashes(head);
    var parent := StripSlashes(head);
    assert |parent| > i + 1;
    assert parent == head[..|parent|] == name[..|parent|];
    assert parent[i] == name[i] && parent[i - 1] == name[i - 1] && parent[i + 1] == name[i + 1];
    assert parent[..i] == name[..i];
  }

  /** So filling in parents adds, for "a/b/c", both "a/b" and "a". */
  lemma PrefixesFilled(entries: Table, filled: Table, name: string, i: nat)
    requires LeastClosure(entries, filled) && name in entries && SingleSlash(name, i)
    ensures name[..i] in filled || name[..i] == "."
  {
    PrefixesPresent(filled.Keys, name, i);
  }

  lemma NestedFile(filled: Table)
    requires LeastClosure(map["a/b/c" := File], filled)
    ensures filled == map["a/b/c" := File, "a/b" := Dir, "a" := Dir]
  {
    var entries: Table := map["a/b/c" := File];
    PrefixesFilled(entries, filled, "a/b/c", 3);
    PrefixesFilled(entries, filled, "a/b/c", 1);
    assert "a/b/c"[..3] == "a/b" && "a/b/c"[..1] == "a";
    NestedClosed();
    hide ParentClosed, Dirname;
    assert entries.Keys <= {"a/b/c", "a/b", "a"};
    assert filled.Keys == {"a/b/c", "a/b", "a"};
    assert filled["a/b/c"] == entries["a/b/c"];
  }

  /** The walk stops below the current directory and below nothing: neither "." nor "" is ever added for a relative name. */
  lemma TopNotAdded(filled: Table)
    requires LeastClosure(map["./a" := File, "b" := File], filled)
    ensures filled == map["./a" := File, "b" := File]
  {
    var entries: Table := map["./a" := File, "b" := File];
    DirnameOfChild(".", "a");
    DirnameOfPlain("b");
    hide Dirname;
    assert "." + "/" + "a" == "./a";
    assert ParentClosed(entries.Keys);
    assert filled.Keys == entries.Keys;
  }

  lemma NestedClosed()
    ensures ParentClosed({"a/b/c", "a/b", "a"})
  {
    DirnameOfChild("a/b", "c");
    DirnameOfChild("a", "b");
    DirnameOfPlain("a");
    hide Dirname;
    assert "a/b" + "/" + "c" == "a/b/c" && "a" + "/" + "b" == "a/b";
  }

  /** Least closures are unique, so the visiting order of the members does not matter. */
  lemma LeastClosureUnique(entries: Table, a: Table, b: Table)
    requires LeastClosure(entries, a) && LeastClosure(entries, b)
    ensures a == b
  {
    assert a.Keys <= b.Keys && b.Keys <= a.Keys;
    forall n | n in a ensures a[n] == b[n] {
      if n in entries {
        assert a[n] == entries[n] == b[n];
      }
    }
  }

  /** Walks up from every member and stops at the first parent that is already in the table. */
  method FillParents(entries: Table, members: seq<string>) returns (filled: Table)
    requires forall n :: n in members <==> n in entries
    ensures LeastClosure(entries, filled)
  {
    filled := entries;
    for i := 0 to |members|
      invariant Grown(entries, filled)
      invariant forall n | n in filled :: n in members[i..] || AtTop(Dirname(n)) || Dirname(n) in filled
    {
      var parent := Dirname(members[i]);
      assert members[i] in filled;
      while parent != "" && parent != "." && parent !in filled
        invariant Grown(entries, filled)
        invariant AtTop(parent) || Within(entries, parent)
        invariant forall n | n in filled ::
                    n in members[i + 1..] || AtTop(Dirname(n)) || Dirname(n) in filled || Dirname(n) == parent
        decreases |parent|, if parent in filled then 0 else 1
      {
        filled := filled[parent := Dir];
        parent := Dirname(parent);
      }
    }
  }

  /** Nothing original is overwritten, additions are directories, and no closed table could do without them. */
  ghost predicate Grown(entries: Table, filled: Table) {
    && (forall n | n in entries :: n in filled && filled[n] == entries[n])
    && (forall n | n in filled && n !in entries :: filled[n] == Dir)
    && (forall n | n in filled :: Within(entries, n))
  }

  /** Every closed table that contains the entries contains p. */
  ghost predicate Within(entries: Table, p: string) {
    forall names: set<string> | entries.Keys <= names && ParentClosed(names) :: p in names
  }

  // ---------------------------------------------------------------- links

  /** The host library's path normalisation and joining. */
  datatype Paths = Paths(norm: string -> string, join: (string, string) -> string)

  datatype Resolution = Missing | Found(kind: Kind) | TooDeep

  predicate IsLink(entries: Table, name: string) { name in entries && entries[name].Link? }

  /** The name a link member stands for. */
  function Next(paths: Paths, entries: Table, name: string): string
    requires IsLink(entries, name)
  {
    var target := entries[name].target;
    if target != "" && target[0] == '/' then paths.norm(target[1..]) else paths.norm(paths.join(Dirname(name), target))
  }

  /** One step, written out: a target with a leading slash is taken from the archive root, any other from the link's directory. */
  lemma NextName(paths: Paths, entries: Table, d: string, base: string, target: string)
    requires d != "" && d[|d| - 1] != '/' && SlashFree(base)
    ensures d + "/" + base in entries && entries[d + "/" + base] == Link("/" + target) ==>
              Next(paths, entries, d + "/" + base) == paths.norm(target)
    ensures (target == "" || target[0] != '/') && d + "/" + base in entries && entries[d + "/" + base] == Link(target) ==>
              Next(paths, entries, d + "/" + base) == paths.norm(paths.join(d, target))
    ensures (target == "" || target[0] != '/') && base in entries && entries[base] == Link(target) ==>
              Next(paths, entries, base) == paths.norm(paths.join("", target))
  {
    DirnameOfChild(d, base);
    DirnameOfPlain(base);
    hide Dirname;
    assert ("/" + target)[1..] == target;
  }

  /** The name reached after following n links, if there are that many. */
  ghost predicate After(paths: Paths, entries: Table, name: string, n: nat, end: string)
    decreases n
  {
    if n == 0 then end == name else IsLink(entries, name) && After(paths, entries, Next(paths, entries, name), n - 1, end)
  }

  /** At least n links follow one another from this name. */
  ghost predicate Continues(paths: Paths, entries: Table, name: string, n: nat) {
    exists end :: After(paths, entries, name, n, end)
  }

  lemma ContinuesTo(paths: Paths, entries: Table, name: string, n: nat, end: string)
    requires After(paths, entries, name, n, end)
    ensures Continues(paths, entries, name, n)
  {
  }

  lemma EndsBefore(paths: Paths, entries: Table, name: string, n: nat, end: string, m: nat)
    requires After(paths, entries, name, n, end) && !IsLink(entries, end) && n < m
    ensures !Continues(paths, entries, name, m)
  {
    forall other ensures !After(paths, entries, name, m, other) {
      NoFurther(paths, entries, name, n, end, m, other);
    }
  }

  function KindOf(entries: Table, name: string): Resolution {
    if name in entries then Found(entries[name]) else Missing
  }

  /** Unbounded resolution: n links lead to a name that is not a link. */
  ghost predicate ResolvesIn(paths: Paths, entries: Table, name: string, n: nat, r: Resolution) {
    exists end :: After(paths, entries, name, n, end) && !IsLink(entries, end) && r == KindOf(entries, end)
  }

  /** A name that is no link resolves to what the table says of it, or to nothing. */
  lemma ResolvesAtOnce(paths: Paths, entries: Table, name: string)
    ensures name !in entries ==> ResolvesIn(paths, entries, name, 0, Missing)
    ensures name in entries && entries[name] == File ==> ResolvesIn(paths, entries, name, 0, Found(File))
    ensures name in entries && entries[name] == Dir ==> ResolvesIn(paths, entries, name, 0, Found(Dir))
  {
    assert After(paths, entries, name, 0, name);
  }

  /** Follows at most eight names. */
  method ResolveEntry(paths: Paths, entries: Table, start: string) returns (r: Resolution)
    ensures r == TooDeep <==> Continues(paths, entries, start, 8)
    ensures r != TooDeep ==> exists n: nat :: n <= 7 && ResolvesIn(paths, entries, start, n, r)
  {
    var name := start;
    for i := 0 to 8
      invariant After(paths, entries, start, i, name)
    {
      if !IsLink(entries, name) {
        r := KindOf(entries, name);
        assert ResolvesIn(paths, entries, start, i, r);
        EndsBefore(paths, entries, start, i, name, 8);
        return;
      }
      AfterOneMore(paths, entries, start, i, name);
      name := Next(paths, entries, name);
    }
    ContinuesTo(paths, entries, start, 8, name);
    return TooDeep;
  }

  lemma {:induction false} AfterOneMore(paths: Paths, entries: Table, name: string, n: nat, end: string)
    requires After(paths, entries, name, n, end) && IsLink(entries, end)
    ensures After(paths, entries, name, n + 1, Next(paths, entries, end))
    decreases n
  {
    if n > 0 {
      AfterOneMore(paths, entries, Next(paths, entries, name), n - 1, end);
    } else {
      assert After(paths, entries, Next(paths, entries, end), 0, Next(paths, entries, end));
    }
  }

  /** Once a chain ends, nothing lies beyond, and its end is unique. */
  lemma {:induction false} NoFurther(paths: Paths, entries: Table, name: string, n: nat, end: string, m: nat, other: string)
    requires After(paths, entries, name, n, end) && !IsLink(entries, end) && m >= n
    ensures After(paths, entries, name, m, other) ==> m == n && other == end
    decreases n
  {
    if n > 0 && After(paths, entries, name, m, other) {
      NoFurther(paths, entries, Next(paths, entries, name), n - 1, end, m - 1, other);
    }
  }

  /** Unbounded resolution has one answer, so the bounded one agrees with it whenever at most seven links are needed. */
  lemma ResolutionUnique(paths: Paths, entries: Table, name: string, n: nat, r: Resolution, m: nat, q: Resolution)
    requires ResolvesIn(paths, entries, name, n, r) && ResolvesIn(paths, entries, name, m, q)
    ensures n == m && r == q
  {
    var a :| After(paths, entries, name, n, a) && !IsLink(entries, a) && r == KindOf(entries, a);
    var b :| After(paths, entries, name, m, b) && !IsLink(entries, b) && q == KindOf(entries, b);
    if n <= m {
      NoFurther(paths, entries, name, n, a, m, b);
    } else {
      NoFurther(paths, entries, name, m, b, n, a);
    }
  }

  /** A cycle of links never resolves, and links can be followed along it any number of times. */
  lemma {:induction false} CycleNeverEnds(paths: Paths, entries: Table, name: string, period: nat, n: nat) returns (end: string)
    requires period > 0 && After(paths, entries, name, period, name)
    ensures After(paths, entries, name, n, end)
    decreases n
  {
    if n <= period {
      end := Prefix(paths, entries, name, period, name, n);
    } else {
      end := CycleNeverEnds(paths, entries, name, period, n - period);
      Concatenate(paths, entries, name, period, name, n - period, end);
    }
  }

  lemma {:induction false} Prefix(paths: Paths, entries: Table, name: string, n: nat, end: string, k: nat) returns (mid: string)
    requires After(paths, entries, name, n, end) && k <= n
    ensures After(paths, entries, name, k, mid)
    decreases k
  {
    if k == 0 {
      mid := name;
    } else {
      mid := Prefix(paths, entries, Next(paths, entries, name), n - 1, end, k - 1);
    }
  }

  lemma {:induction false} Concatenate(paths: Paths, entries: Table, a: string, n: nat, b: string, m: nat, c: string)
    requires After(paths, entries, a, n, b) && After(paths, entries, b, m, c)
    ensures After(paths, entries, a, n + m, c)
    decreases n
  {
    if n > 0 {
      Concatenate(paths, entries, Next(paths, entries, a), n - 1, b, m, c);
    }
  }

  /** A name that leads into a cycle continues for any number of links, so it is rejected as too deep. */
  lemma CyclesAreTooDeep(paths: Paths, entries: Table, name: string, lead: nat, knot: string, period: nat, n: nat)
    requires After(paths, entries, name, lead, knot) && period > 0 && After(paths, entries, knot, period, knot)
    ensures Continues(paths, entries, name, n)
  {
    if lead >= n {
      var end := Prefix(paths, entries, name, lead, knot, n);
    } else {
      var end := CycleNeverEnds(paths, entries, knot, period, n - lead);
      Concatenate(paths, entries, name, lead, knot, n - lead, end);
    }
  }
}
