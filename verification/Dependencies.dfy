/** Searching the monorepo's dependency graph, which may have cycles. */
module Dependencies {
  import opened Wrappers

  /** The names under each dependency section, in order; an absent section is empty. */
  datatype PackageJson = PackageJson(
    dependencies: seq<string>,
    devDependencies: seq<string>,
    peerDependencies: seq<string>,
    hasBin: bool)

  datatype Package = Package(path: string, relativePath: string, name: string, packageJson: Option<PackageJson>)

  type Packages = map<string, Package>

  /** Merging sections keeps the position of the first mention of a name. */
  function Merge(keys: seq<string>, more: seq<string>): (merged: seq<string>)
    ensures forall k :: k in merged <==> k in keys || k in more
    decreases |more|
  {
    if more == [] then keys
    else Merge(if more[0] in keys then keys else keys + [more[0]], more[1..])
  }

  function GetAllDependencies(pkg: Package): (names: seq<string>)
    ensures forall name :: name in names <==>
              && pkg.packageJson.Some?
              && var json := pkg.packageJson.value;
                 name in json.dependencies || name in json.devDependencies || name in json.peerDependencies
  {
    match pkg.packageJson
    case None => []
    case Some(json) => Merge(Merge(Merge([], json.dependencies), json.devDependencies), json.peerDependencies)
  }

  // ---- in the order of first mention

  /** Where `s` first mentions `x`. */
  function FirstAt(s: seq<string>, x: string): (i: nat)
    requires x in s
    ensures i < |s| && s[i] == x && x !in s[..i]
  {
    if s[0] == x then 0 else 1 + FirstAt(s[1..], x)
  }

  lemma {:induction false} MergeTwice(keys: seq<string>, a: seq<string>, b: seq<string>)
    ensures Merge(Merge(keys, a), b) == Merge(keys, a + b)
    decreases |a|
  {
    if a == [] {
      assert a + b == b;
    } else {
      assert (a + b)[1..] == a[1..] + b;
      MergeTwice(if a[0] in keys then keys else keys + [a[0]], a[1..], b);
    }
  }

  lemma MergeOne(keys: seq<string>, x: string)
    ensures Merge(keys, [x]) == if x in keys then keys else keys + [x]
  {
    assert [x][1..] == [];
  }

  lemma {:induction false} FirstAtSnoc(s: seq<string>, x: string, y: string)
    requires y in s || y == x
    ensures y in s ==> FirstAt(s + [x], y) == FirstAt(s, y)
    ensures y !in s ==> FirstAt(s + [x], y) == |s|
  {
    if s != [] && s[0] != y {
      assert (s + [x])[1..] == s[1..] + [x];
      FirstAtSnoc(s[1..], x, y);
    }
  }

  lemma {:induction false} MergeInOrder(s: seq<string>)
    ensures forall i, j :: 0 <= i < j < |Merge([], s)| ==>
              var names := Merge([], s);
              names[i] in s && names[j] in s && FirstAt(s, names[i]) < FirstAt(s, names[j])
  {
    if s != [] {
      var front, x := s[..|s| - 1], s[|s| - 1];
      MergeInOrder(front);
      MergeTwice([], front, [x]);
      MergeOne(Merge([], front), x);
      assert front + [x] == s;
      var before, names := Merge([], front), Merge([], s);
      hide Merge, FirstAt;
      forall i, j | 0 <= i < j < |names|
        ensures names[i] in s && names[j] in s && FirstAt(s, names[i]) < FirstAt(s, names[j])
      {
        FirstAtSnoc(front, x, names[i]);
        FirstAtSnoc(front, x, names[j]);
        assert names[i] == before[i];
        if j < |before| {
          assert names[j] == before[j];
        }
      }
    }
  }

  /** The dependencies come as the three sections first mention them: dependencies, development, peers. */
  lemma DependenciesInOrder(pkg: Package)
    requires pkg.packageJson.Some?
    ensures var json, names := pkg.packageJson.value, GetAllDependencies(pkg);
            var mentions := json.dependencies + json.devDependencies + json.peerDependencies;
            forall i, j :: 0 <= i < j < |names| ==>
              names[i] in mentions && names[j] in mentions && FirstAt(mentions, names[i]) < FirstAt(mentions, names[j])
  {
    var json := pkg.packageJson.value;
    MergeTwice([], json.dependencies, json.devDependencies);
    MergeTwice([], json.dependencies + json.devDependencies, json.peerDependencies);
    MergeInOrder(json.dependencies + json.devDependencies + json.peerDependencies);
    hide Merge, FirstAt;
  }

  predicate Edge(pkgs: Packages, p: Package, q: Package) {
    exists dep :: dep in GetAllDependencies(p) && dep in pkgs && pkgs[dep] == q
  }

  /** A walk of `n` dependencies leads from `p` to `q`. */
  ghost predicate Steps(pkgs: Packages, p: Package, q: Package, n: nat)
    decreases n
  {
    if n == 0 then p == q else exists r :: Steps(pkgs, p, r, n - 1) && Edge(pkgs, r, q)
  }

  ghost predicate Reachable(pkgs: Packages, p: Package, q: Package) {
    exists n: nat :: Steps(pkgs, p, q, n)
  }

  ghost predicate IsDistance(pkgs: Packages, p: Package, q: Package, n: nat) {
    Steps(pkgs, p, q, n) && forall m: nat :: m < n ==> !Steps(pkgs, p, q, m)
  }

  predicate Distinct(all: seq<Package>) {
    forall i, j :: 0 <= i < j < |all| ==> all[i] != all[j]
  }

  // ---- the search's invariant

  /** `q` has been found, within distance `d`. */
  ghost predicate FoundWithin(all: seq<Package>, depth: seq<nat>, q: Package, d: nat)
    requires |depth| == |all|
  {
    exists j :: 0 <= j < |all| && all[j] == q && depth[j] <= d
  }

  /** The dependencies of the package at `i` have been found, at most one step further. */
  ghost predicate Followed(pkgs: Packages, all: seq<Package>, depth: seq<nat>, i: nat)
    requires |depth| == |all| && i < |all|
  {
    forall q :: Edge(pkgs, all[i], q) ==> FoundWithin(all, depth, q, depth[i] + 1)
  }

  /** Everything found so far in order of depth; the first `h` have had their dependencies followed. */
  ghost predicate Frontier(pkgs: Packages, start: Package, all: seq<Package>, depth: seq<nat>, h: nat) {
    && |depth| == |all| && 0 < |all| && h <= |all|
    && all[0] == start && depth[0] == 0 && Distinct(all)
    && (forall i :: 0 < i < |all| ==> all[i] in pkgs.Values)
    && (forall i, j :: 0 <= i < j < |all| ==> depth[i] <= depth[j])
    && (h < |all| ==> depth[|all| - 1] <= depth[h] + 1)
    && (forall i :: 0 <= i < |all| ==> Steps(pkgs, start, all[i], depth[i]))
    && (forall i :: 0 <= i < h ==> Followed(pkgs, all, depth, i))
  }

  lemma FoundStays(all: seq<Package>, depth: seq<nat>, p: Package, e: nat, q: Package, d: nat)
    requires |depth| == |all| && FoundWithin(all, depth, q, d)
    ensures FoundWithin(all + [p], depth + [e], q, d)
  {
    var j :| 0 <= j < |all| && all[j] == q && depth[j] <= d;
    assert (all + [p])[j] == q;
  }

  /** A dependency of the package at `h` that is new joins the back. */
  lemma Extend(pkgs: Packages, start: Package, all: seq<Package>, depth: seq<nat>, h: nat, q: Package)
    requires Frontier(pkgs, start, all, depth, h) && h < |all|
    requires q !in all && q in pkgs.Values && Edge(pkgs, all[h], q)
    ensures Frontier(pkgs, start, all + [q], depth + [depth[h] + 1], h)
    ensures FoundWithin(all + [q], depth + [depth[h] + 1], q, depth[h] + 1)
  {
    hide Steps, Edge, FoundWithin, GetAllDependencies;
    var all', depth' := all + [q], depth + [depth[h] + 1];
    assert FoundWithin(all', depth', q, depth[h] + 1) by {
      FoundLast(all, depth, q, depth[h] + 1);
    }
    StepsMore(pkgs, start, all[h], q, depth[h]);
    forall i | 0 <= i < h
      ensures Followed(pkgs, all', depth', i)
    {
      assert Followed(pkgs, all, depth, i) && all'[i] == all[i] && depth'[i] == depth[i];
      forall r | Edge(pkgs, all'[i], r)
        ensures FoundWithin(all', depth', r, depth'[i] + 1)
      {
        FoundStays(all, depth, q, depth[h] + 1, r, depth[i] + 1);
      }
    }
  }

  lemma FoundLast(all: seq<Package>, depth: seq<nat>, p: Package, e: nat)
    requires |depth| == |all|
    ensures FoundWithin(all + [p], depth + [e], p, e)
  {
    assert (all + [p])[|all|] == p;
  }

  lemma StepsMore(pkgs: Packages, p: Package, r: Package, q: Package, n: nat)
    requires Steps(pkgs, p, r, n) && Edge(pkgs, r, q)
    ensures Steps(pkgs, p, q, n + 1)
  {
    hide Edge;
  }

  /** Once the search is done, whatever `n` steps reach has been found within distance `n`. */
  lemma {:induction false} ReachedIsFound(pkgs: Packages, start: Package, all: seq<Package>, depth: seq<nat>, q: Package, n: nat)
    requires Frontier(pkgs, start, all, depth, |all|)
    requires Steps(pkgs, start, q, n)
    ensures FoundWithin(all, depth, q, n)
    decreases n
  {
    hide Edge, Distinct;
    if n == 0 {
      assert all[0] == q && depth[0] <= n;
    } else {
      var r :| Steps(pkgs, start, r, n - 1) && Edge(pkgs, r, q);
      ReachedIsFound(pkgs, start, all, depth, r, n - 1);
      var i :| 0 <= i < |all| && all[i] == r && depth[i] <= n - 1;
      assert Followed(pkgs, all, depth, i);
      var j :| 0 <= j < |all| && all[j] == q && depth[j] <= depth[i] + 1;
      assert FoundWithin(all, depth, q, n);
    }
  }

  lemma DepthIsDistance(pkgs: Packages, start: Package, all: seq<Package>, depth: seq<nat>, i: nat)
    requires Frontier(pkgs, start, all, depth, |all|) && i < |all|
    ensures IsDistance(pkgs, start, all[i], depth[i])
  {
    hide Steps, Edge, Followed;
    forall m: nat | m < depth[i]
      ensures !Steps(pkgs, start, all[i], m)
    {
      if Steps(pkgs, start, all[i], m) {
        ReachedIsFound(pkgs, start, all, depth, all[i], m);
      }
    }
  }

  lemma DistinctFits(all: seq<Package>, universe: set<Package>)
    requires Distinct(all) && forall p :: p in all ==> p in universe
    ensures |all| <= |universe|
  {
    if all != [] {
      var front, last := all[..|all| - 1], all[|all| - 1];
      assert last in all && forall p :: p in front ==> p in all;
      assert last !in front;
      DistinctFits(front, universe - {last});
    }
  }

  // ---- the order of discovery

  /** The dependency `k` of the package at `p`. */
  predicate Mentions(pkgs: Packages, all: seq<Package>, p: nat, k: nat, q: Package) {
    && p < |all| && k < |GetAllDependencies(all[p])|
    && GetAllDependencies(all[p])[k] in pkgs && pkgs[GetAllDependencies(all[p])[k]] == q
  }

  predicate Sooner(p: nat, k: nat, p': nat, k': nat) {
    p < p' || (p == p' && k < k')
  }

  /** Each package found is where a place sooner than `(h, k)` first mentions it, and they come in the order of those places. */
  ghost predicate InOrderOfMention(pkgs: Packages, start: Package, found: seq<Package>, at: seq<(nat, nat)>, h: nat, k: nat) {
    && |at| == |found|
    && (forall i :: 0 <= i < |found| ==>
          Mentions(pkgs, [start] + found, at[i].0, at[i].1, found[i]) && Sooner(at[i].0, at[i].1, h, k))
    && (forall i, j :: 0 <= i < j < |at| ==> Sooner(at[i].0, at[i].1, at[j].0, at[j].1))
    && (forall p, s, q :: Mentions(pkgs, [start] + found, p, s, q) && Sooner(p, s, h, k) ==>
          q == start || FoundNoLater(found, at, q, p, s))
  }

  ghost predicate FoundNoLater(found: seq<Package>, at: seq<(nat, nat)>, q: Package, p: nat, s: nat)
    requires |at| == |found|
  {
    exists i :: 0 <= i < |found| && found[i] == q && !Sooner(p, s, at[i].0, at[i].1)
  }

  lemma MentionsStay(pkgs: Packages, start: Package, found: seq<Package>, r: Package, p: nat, k: nat, q: Package)
    requires p < 1 + |found|
    ensures Mentions(pkgs, [start] + (found + [r]), p, k, q) <==> Mentions(pkgs, [start] + found, p, k, q)
  {
    assert ([start] + (found + [r]))[p] == ([start] + found)[p];
  }

  lemma DiscoverNew(pkgs: Packages, start: Package, found: seq<Package>, at: seq<(nat, nat)>, h: nat, k: nat, r: Package)
    requires InOrderOfMention(pkgs, start, found, at, h, k) && h <= |found|
    requires Mentions(pkgs, [start] + found, h, k, r)
    ensures InOrderOfMention(pkgs, start, found + [r], at + [(h, k)], h, k + 1)
  {
    hide Mentions;
    var found', at' := found + [r], at + [(h, k)];
    forall i | 0 <= i < |found'|
      ensures Mentions(pkgs, [start] + found', at'[i].0, at'[i].1, found'[i]) && Sooner(at'[i].0, at'[i].1, h, k + 1)
    {
      MentionsStay(pkgs, start, found, r, at'[i].0, at'[i].1, found'[i]);
    }
    forall p, s, q | Mentions(pkgs, [start] + found', p, s, q) && Sooner(p, s, h, k + 1)
      ensures q == start || FoundNoLater(found', at', q, p, s)
    {
      MentionsStay(pkgs, start, found, r, p, s, q);
      if Sooner(p, s, h, k) {
        if q != start {
          var i :| 0 <= i < |found| && found[i] == q && !Sooner(p, s, at[i].0, at[i].1);
          assert found'[i] == q && at'[i] == at[i];
        }
      } else {
        SameMention(pkgs, [start] + found, h, k, q, r);
        assert found'[|found|] == q;
      }
    }
  }

  lemma SameMention(pkgs: Packages, all: seq<Package>, p: nat, k: nat, q: Package, r: Package)
    requires Mentions(pkgs, all, p, k, q) && Mentions(pkgs, all, p, k, r)
    ensures q == r
  {
  }

  /** A mention of a package found before, or of none, changes nothing. */
  lemma DiscoverNothing(pkgs: Packages, start: Package, found: seq<Package>, at: seq<(nat, nat)>, h: nat, k: nat)
    requires InOrderOfMention(pkgs, start, found, at, h, k)
    requires forall q :: Mentions(pkgs, [start] + found, h, k, q) ==> q == start || q in found
    ensures InOrderOfMention(pkgs, start, found, at, h, k + 1)
  {
    hide Mentions;
    forall p, s, q | Mentions(pkgs, [start] + found, p, s, q) && Sooner(p, s, h, k + 1)
      ensures q == start || FoundNoLater(found, at, q, p, s)
    {
      if !Sooner(p, s, h, k) && q != start {
        var i :| 0 <= i < |found| && found[i] == q;
        assert Sooner(at[i].0, at[i].1, h, k);
      }
    }
  }

  lemma DiscoverNext(pkgs: Packages, start: Package, found: seq<Package>, at: seq<(nat, nat)>, h: nat, k: nat)
    requires InOrderOfMention(pkgs, start, found, at, h, k) && h <= |found| && k == |GetAllDependencies(([start] + found)[h])|
    ensures InOrderOfMention(pkgs, start, found, at, h + 1, 0)
  {
    hide GetAllDependencies;
    forall p, s, q | Mentions(pkgs, [start] + found, p, s, q) && Sooner(p, s, h + 1, 0)
      ensures q == start || FoundNoLater(found, at, q, p, s)
    {
      assert Sooner(p, s, h, k);
    }
  }

  lemma DiscoverStart(pkgs: Packages, start: Package)
    ensures InOrderOfMention(pkgs, start, [], [], 0, 0)
  {
  }

  /** Nearest first, every package reachable from `pkg` other than itself, each once and as it is first mentioned. */
  method FindAllMonorepoDependencies(pkgs: Packages, pkg: Package)
    returns (found: seq<Package>, ghost depth: seq<nat>, ghost at: seq<(nat, nat)>)
    ensures InOrderOfMention(pkgs, pkg, found, at, 1 + |found|, 0)
    ensures Distinct(found)
    ensures forall q :: q in found <==> q != pkg && Reachable(pkgs, pkg, q)
    ensures |depth| == |found|
    ensures forall i :: 0 <= i < |found| ==> IsDistance(pkgs, pkg, found[i], depth[i])
    ensures forall i, j :: 0 <= i < j < |found| ==> depth[i] <= depth[j]
  {
    hide Frontier, Steps, Edge, FoundWithin, Distinct, Reachable, IsDistance, GetAllDependencies, InOrderOfMention, Merge, FirstAt;
    var yielded := {pkg};
    var queue := [pkg];
    found := [];
    ghost var depths, h := [0], 0;
    at := [];
    Start(pkgs, pkg);
    DiscoverStart(pkgs, pkg);
    assert [pkg] + found == [pkg];
    while |queue| > 0
      invariant h <= 1 + |found| && Frontier(pkgs, pkg, [pkg] + found, depths, h)
      invariant queue == ([pkg] + found)[h..]
      invariant forall q :: q in yielded <==> q in [pkg] + found
      invariant InOrderOfMention(pkgs, pkg, found, at, h, 0)
      decreases |{pkg} + pkgs.Values| - h
    {
      Fits(pkgs, pkg, found, depths, h);
      var parent := queue[0];
      queue := queue[1..];
      var names := GetAllDependencies(parent);
      for k := 0 to |names|
        invariant h <= |found| && |depths| == 1 + |found| && Frontier(pkgs, pkg, [pkg] + found, depths, h)
        invariant ([pkg] + found)[h] == parent
        invariant queue == ([pkg] + found)[h + 1..]
        invariant forall q :: q in yielded <==> q in [pkg] + found
        invariant AllFound(pkgs, names[..k], [pkg] + found, depths, depths[h] + 1)
        invariant InOrderOfMention(pkgs, pkg, found, at, h, k)
      {
        var dep := names[k];
        assert names[..k + 1] == names[..k] + [dep];
        if dep in pkgs {
          var depPkg := pkgs[dep];
          ghost var all, e := [pkg] + found, depths[h] + 1;
          if depPkg !in yielded {
            assert Edge(pkgs, all[h], depPkg) by { IsEdge(pkgs, parent, dep); }
            Extend(pkgs, pkg, all, depths, h, depPkg);
            AllFoundStay(pkgs, names[..k], all, depths, depPkg, e);
            assert all + [depPkg] == [pkg] + (found + [depPkg]);
            DiscoverNew(pkgs, pkg, found, at, h, k, depPkg);
            at := at + [(h, k)];
            yielded := yielded + {depPkg};
            queue := queue + [depPkg];
            found := found + [depPkg];
            depths := depths + [e];
          } else {
            AlreadyFound(pkgs, pkg, all, depths, h, depPkg);
            DiscoverNothing(pkgs, pkg, found, at, h, k);
          }
        } else {
          DiscoverNothing(pkgs, pkg, found, at, h, k);
        }
      }
      assert names[..|names|] == names;
      Advance(pkgs, pkg, [pkg] + found, depths, h);
      DiscoverNext(pkgs, pkg, found, at, h, |names|);
      h := h + 1;
    }
    Lengths(pkgs, pkg, [pkg] + found, depths, h);
    depth := depths[1..];
    Finish(pkgs, pkg, found, depths);
  }

  /** Whichever of the names are packages have been found within distance `d`. */
  ghost predicate AllFound(pkgs: Packages, names: seq<string>, all: seq<Package>, depth: seq<nat>, d: nat)
    requires |depth| == |all|
  {
    forall i :: 0 <= i < |names| && names[i] in pkgs ==> FoundWithin(all, depth, pkgs[names[i]], d)
  }

  lemma AllFoundStay(pkgs: Packages, names: seq<string>, all: seq<Package>, depth: seq<nat>, p: Package, e: nat)
    requires |depth| == |all| && AllFound(pkgs, names, all, depth, e)
    ensures AllFound(pkgs, names, all + [p], depth + [e], e)
  {
    forall i | 0 <= i < |names| && names[i] in pkgs
      ensures FoundWithin(all + [p], depth + [e], pkgs[names[i]], e)
    {
      FoundStays(all, depth, p, e, pkgs[names[i]], e);
    }
  }

  lemma IsEdge(pkgs: Packages, p: Package, dep: string)
    requires dep in GetAllDependencies(p) && dep in pkgs
    ensures Edge(pkgs, p, pkgs[dep])
  {
  }

  lemma Start(pkgs: Packages, start: Package)
    ensures Frontier(pkgs, start, [start], [0], 0)
  {
  }

  lemma Lengths(pkgs: Packages, start: Package, all: seq<Package>, depth: seq<nat>, h: nat)
    requires Frontier(pkgs, start, all, depth, h)
    ensures |depth| == |all|
  {
  }

  lemma Fits(pkgs: Packages, start: Package, found: seq<Package>, depth: seq<nat>, h: nat)
    requires Frontier(pkgs, start, [start] + found, depth, h)
    ensures 1 + |found| <= |{start} + pkgs.Values| && |depth| == 1 + |found|
  {
    InUniverse(pkgs, start, found, depth, h);
    DistinctFits([start] + found, {start} + pkgs.Values);
  }

  lemma InUniverse(pkgs: Packages, start: Package, found: seq<Package>, depth: seq<nat>, h: nat)
    requires Frontier(pkgs, start, [start] + found, depth, h)
    ensures forall p :: p in [start] + found ==> p in {start} + pkgs.Values
  {
    var all := [start] + found;
    forall p | p in all
      ensures p in {start} + pkgs.Values
    {
      var i :| 0 <= i < |all| && all[i] == p;
    }
  }

  /** What has been found is never more than one step beyond the package at `h`. */
  lemma AlreadyFound(pkgs: Packages, start: Package, all: seq<Package>, depth: seq<nat>, h: nat, q: Package)
    requires Frontier(pkgs, start, all, depth, h) && h < |all| && q in all
    ensures FoundWithin(all, depth, q, depth[h] + 1)
  {
    var j :| 0 <= j < |all| && all[j] == q;
    assert depth[j] <= depth[|all| - 1];
  }

  lemma Advance(pkgs: Packages, start: Package, all: seq<Package>, depth: seq<nat>, h: nat)
    requires Frontier(pkgs, start, all, depth, h) && h < |all|
    requires AllFound(pkgs, GetAllDependencies(all[h]), all, depth, depth[h] + 1)
    ensures Frontier(pkgs, start, all, depth, h + 1)
  {
    hide Steps, FoundWithin, GetAllDependencies;
    var names := GetAllDependencies(all[h]);
    forall q | Edge(pkgs, all[h], q)
      ensures FoundWithin(all, depth, q, depth[h] + 1)
    {
      var dep :| dep in names && dep in pkgs && pkgs[dep] == q;
      var i :| 0 <= i < |names| && names[i] == dep;
    }
  }

  lemma Finish(pkgs: Packages, start: Package, found: seq<Package>, depth: seq<nat>)
    requires Frontier(pkgs, start, [start] + found, depth, 1 + |found|)
    ensures Distinct(found)
    ensures forall q :: q in found <==> q != start && Reachable(pkgs, start, q)
    ensures forall i :: 0 <= i < |found| ==> IsDistance(pkgs, start, found[i], depth[1..][i])
    ensures forall i, j :: 0 <= i < j < |found| ==> depth[1..][i] <= depth[1..][j]
  {
    hide Steps, IsDistance, Followed, FoundWithin;
    var all := [start] + found;
    assert forall i :: 0 <= i < |found| ==> found[i] == all[i + 1] && depth[1..][i] == depth[i + 1];
    forall i | 0 <= i < |found|
      ensures IsDistance(pkgs, start, found[i], depth[1..][i]) && found[i] != start
    {
      assert all[0] != all[i + 1];
      DepthIsDistance(pkgs, start, all, depth, i + 1);
    }
    forall q
      ensures q in found <==> q != start && Reachable(pkgs, start, q)
    {
      FoundExactly(pkgs, start, found, depth, q);
    }
  }

  lemma FoundExactly(pkgs: Packages, start: Package, found: seq<Package>, depth: seq<nat>, q: Package)
    requires Frontier(pkgs, start, [start] + found, depth, 1 + |found|)
    ensures q in found <==> q != start && Reachable(pkgs, start, q)
  {
    hide Steps, Followed;
    var all := [start] + found;
    if q in found {
      var i :| 0 <= i < |found| && found[i] == q;
      assert all[i + 1] == q && all[0] != all[i + 1];
      assert Steps(pkgs, start, q, depth[i + 1]);
    }
    if q != start && Reachable(pkgs, start, q) {
      var n: nat :| Steps(pkgs, start, q, n);
      ReachedIsFound(pkgs, start, all, depth, q, n);
      var j :| 0 <= j < |all| && all[j] == q;
      assert q == found[j - 1];
    }
  }

  // ---- unused packages

  predicate InherentlyUsed(pkg: Package) {
    !("libs/" <= pkg.relativePath) || pkg.packageJson.None? || pkg.packageJson.value.hasBin
  }

  /** Some inherently used package leads to it; a package leads to itself. */
  ghost predicate UsedVia(pkgs: Packages, roots: set<Package>, q: Package) {
    exists root :: root in roots && InherentlyUsed(root) && Reachable(pkgs, root, q)
  }

  /**
   Exactly the packages that no inherently used package leads to. Used in itself is one outside
   `libs/`, one without a package.json, and one with an executable.
   */
  method FindUnusedPackages(pkgs: Packages) returns (unused: set<Package>)
    ensures forall q :: q in unused <==>
              && q in pkgs.Values
              && forall root :: root in pkgs.Values && Reachable(pkgs, root, q) ==>
                   "libs/" <= root.relativePath && root.packageJson.Some? && !root.packageJson.value.hasBin
  {
    hide Reachable;
    var usedPackages: set<Package> := {};
    var todo := pkgs.Values;
    while todo != {}
      invariant todo <= pkgs.Values
      invariant forall q :: q in usedPackages <==> UsedVia(pkgs, pkgs.Values - todo, q)
      decreases |todo|
    {
      var pkg :| pkg in todo;
      ghost var before := pkgs.Values - todo;
      todo := todo - {pkg};
      assert pkgs.Values - todo == before + {pkg};
      if InherentlyUsed(pkg) {
        var found, depth, at := FindAllMonorepoDependencies(pkgs, pkg);
        SelfReachable(pkgs, pkg);
        forall q
          ensures UsedVia(pkgs, before + {pkg}, q) <==> UsedVia(pkgs, before, q) || q == pkg || q in found
        {
          UsedViaOneMore(pkgs, before, pkg, q);
        }
        usedPackages := usedPackages + {pkg} + set q | q in found;
      } else {
        forall q
          ensures UsedVia(pkgs, before + {pkg}, q) <==> UsedVia(pkgs, before, q)
        {
          UsedViaOneMore(pkgs, before, pkg, q);
        }
      }
    }
    assert pkgs.Values - {} == pkgs.Values;
    unused := set q | q in pkgs.Values && q !in usedPackages;
  }

  lemma SelfReachable(pkgs: Packages, p: Package)
    ensures Reachable(pkgs, p, p)
  {
    assert Steps(pkgs, p, p, 0);
  }

  lemma UsedViaOneMore(pkgs: Packages, roots: set<Package>, root: Package, q: Package)
    ensures UsedVia(pkgs, roots + {root}, q)
       <==> UsedVia(pkgs, roots, q) || (InherentlyUsed(root) && Reachable(pkgs, root, q))
  {
    hide InherentlyUsed, Reachable;
    if UsedVia(pkgs, roots, q) {
      var r :| r in roots && InherentlyUsed(r) && Reachable(pkgs, r, q);
      assert r in roots + {root};
    }
    if InherentlyUsed(root) && Reachable(pkgs, root, q) {
      assert root in roots + {root};
    }
  }
}
