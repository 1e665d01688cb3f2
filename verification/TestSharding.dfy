/** `shard_test_paths`: whole test files are spread over a fixed number of shards, heaviest
    file first, each onto the shard that is least loaded at that moment. */
module TestSharding {
  import opened Wrappers
  import G = GrahamBound

  // ----- Which files are test files, and what they weigh

  function BaseName(path: string): string {
    if |path| == 0 || path[|path| - 1] == '/' then []
    else BaseName(path[..|path| - 1]) + [path[|path| - 1]]
  }

  predicate EndsWith(s: string, suffix: string) {
    |suffix| <= |s| && s[|s| - |suffix|..] == suffix
  }

  predicate IsTestFile(path: string) {
    "test_" <= BaseName(path) || EndsWith(BaseName(path), "_test.py")
  }

  function Weight(tests: string -> nat, path: string): (weight: nat) {
    (if tests(path) < 1 then 1 else tests(path))
    * (if "tests/integration/" <= path || "tests/security/" <= path then 10 else 1)
  }

  ghost function Selected(paths: seq<string>): set<string> {
    set path | path in paths && IsTestFile(path)
  }

  // ----- What the weights and the selection mean

  /** A path is selected by its last component alone. */
  lemma TestFileByName(directory: string, name: string)
    requires forall i :: 0 <= i < |name| ==> name[i] != '/'
    ensures IsTestFile(directory + "/" + name) <==> "test_" <= name || EndsWith(name, "_test.py")
    ensures IsTestFile(name) <==> "test_" <= name || EndsWith(name, "_test.py")
  {
    BaseNameOf(directory + "/", name);
    BaseNameOf("", name);
    assert "" + name == name;
  }

  lemma BaseNameLast(path: string, c: char)
    requires c != '/'
    ensures BaseName(path + [c]) == BaseName(path) + [c]
  {
    assert (path + [c])[..|path|] == path;
  }

  lemma {:induction false} BaseNameOf(directory: string, name: string)
    requires |directory| == 0 || directory[|directory| - 1] == '/'
    requires forall i :: 0 <= i < |name| ==> name[i] != '/'
    ensures BaseName(directory + name) == name
  {
    var n := |name| - 1;
    if n < 0 {
      assert directory + name == directory;
    } else {
      BaseNameOf(directory, name[..n]);
      BaseNameLast(directory + name[..n], name[n]);
      assert directory + name == (directory + name[..n]) + [name[n]] && name == name[..n] + [name[n]];
    }
  }

  /** A file weighs as much as its tests, but at least one; ten times that if its tests start the
      application. */
  lemma WeightOfFile(tests: string -> nat, directory: string, name: string)
    ensures var counted := if tests(directory + name) == 0 then 1 else tests(directory + name);
            && (directory == "tests/integration/" || directory == "tests/security/" ==>
                  Weight(tests, directory + name) == 10 * counted)
            && (directory == "tests/unit/" ==> Weight(tests, directory + name) == counted)
  {
    var path := directory + name;
    if directory == "tests/integration/" || directory == "tests/security/" {
      assert path[..|directory|] == directory;
    }
    if directory == "tests/unit/" {
      assert path[6] == 'u' && "tests/integration/"[6] == 'i' && "tests/security/"[6] == 's';
    }
  }

  // ----- Shards

  function ShardWeight(tests: string -> nat, shard: seq<string>): nat {
    if |shard| == 0 then 0
    else ShardWeight(tests, shard[..|shard| - 1]) + Weight(tests, shard[|shard| - 1])
  }

  function Flat(shards: seq<seq<string>>): multiset<string> {
    if |shards| == 0 then multiset{} else Flat(shards[..|shards| - 1]) + multiset(shards[|shards| - 1])
  }

  /** `shards` are `m` lists in which every file of `files` occurs exactly once. */
  ghost predicate Sharding(shards: seq<seq<string>>, files: set<string>, m: nat) {
    |shards| == m && Flat(shards) == multiset(files)
  }

  ghost predicate WeighAtMost(tests: string -> nat, shards: seq<seq<string>>, bound: nat) {
    forall k :: 0 <= k < |shards| ==> ShardWeight(tests, shards[k]) <= bound
  }

  // ----- Order of placement: heavier first, then by path

  predicate PathBefore(s: string, t: string) {
    if |t| == 0 then false
    else if |s| == 0 then true
    else s[0] < t[0] || (s[0] == t[0] && PathBefore(s[1..], t[1..]))
  }

  predicate Before(tests: string -> nat, s: string, t: string) {
    || Weight(tests, s) > Weight(tests, t)
    || (Weight(tests, s) == Weight(tests, t) && PathBefore(s, t))
  }

  function Insert(tests: string -> nat, path: string, order: seq<string>): seq<string> {
    if |order| == 0 || Before(tests, path, order[0]) then [path] + order
    else [order[0]] + Insert(tests, path, order[1..])
  }

  ghost predicate HeavierFirst(tests: string -> nat, order: seq<string>) {
    forall i, k :: 0 <= i <= k < |order| ==> Weight(tests, order[k]) <= Weight(tests, order[i])
  }

  /** Strictly increasing in the order of placement. */
  ghost predicate Sorted(tests: string -> nat, order: seq<string>) {
    forall i, k :: 0 <= i < k < |order| ==> Before(tests, order[i], order[k])
  }

  lemma {:induction false} PathBeforeTransitive(s: string, t: string, u: string)
    requires PathBefore(s, t) && PathBefore(t, u)
    ensures PathBefore(s, u)
  {
    if |s| > 0 && s[0] == t[0] == u[0] { PathBeforeTransitive(s[1..], t[1..], u[1..]); }
  }

  lemma {:induction false} PathBeforeTotal(s: string, t: string)
    ensures PathBefore(s, t) || PathBefore(t, s) || s == t
    ensures !(PathBefore(s, t) && PathBefore(t, s))
  {
    if |s| > 0 && |t| > 0 && s[0] == t[0] {
      PathBeforeTotal(s[1..], t[1..]);
      assert s == [s[0]] + s[1..] && t == [t[0]] + t[1..];
    }
  }

  /** The order of paths is the usual one of strings: a path comes before its extensions, and else
      the first character that differs decides. */
  lemma {:induction false} PathBeforeIs(s: string, t: string)
    ensures PathBefore(s, t) <==>
              || (s <= t && s != t)
              || exists i :: 0 <= i < |s| && i < |t| && s[..i] == t[..i] && s[i] < t[i]
  {
    if |s| > 0 && |t| > 0 {
      if s[0] == t[0] {
        PathBeforeIs(s[1..], t[1..]);
        assert s == [s[0]] + s[1..] && t == [t[0]] + t[1..];
        if i :| 0 <= i < |s| && i < |t| && s[..i] == t[..i] && s[i] < t[i] {
          assert s[1..][..i - 1] == s[..i][1..] && t[1..][..i - 1] == t[..i][1..];
          assert s[1..][i - 1] < t[1..][i - 1];
        }
        if i :| 0 <= i < |s| - 1 && i < |t| - 1 && s[1..][..i] == t[1..][..i] && s[1..][i] < t[1..][i] {
          assert s[..i + 1] == [s[0]] + s[1..][..i] && t[..i + 1] == [t[0]] + t[1..][..i];
          assert s[i + 1] < t[i + 1];
        }
      } else {
        assert s[..0] == t[..0];
        assert forall i :: 0 < i < |s| && i < |t| ==> s[..i][0] == s[0] && t[..i][0] == t[0];
      }
    }
  }

  lemma BeforeTransitive(tests: string -> nat, s: string, t: string, u: string)
    requires Before(tests, s, t) && Before(tests, t, u)
    ensures Before(tests, s, u)
  {
    if Weight(tests, s) == Weight(tests, u) { PathBeforeTransitive(s, t, u); }
  }

  lemma {:induction false} InsertKeepsOrder(tests: string -> nat, path: string, order: seq<string>)
    requires Sorted(tests, order) && path !in order
    ensures Sorted(tests, Insert(tests, path, order))
    ensures multiset(Insert(tests, path, order)) == multiset(order) + multiset{path}
    ensures forall p :: p in Insert(tests, path, order) <==> p == path || p in order
  {
    if |order| > 0 {
      assert order == [order[0]] + order[1..];
      if Before(tests, path, order[0]) {
        forall k | 1 <= k < |order|
          ensures Before(tests, path, order[k])
        {
          BeforeTransitive(tests, path, order[0], order[k]);
        }
      } else {
        var rest := Insert(tests, path, order[1..]);
        InsertKeepsOrder(tests, path, order[1..]);
        PathBeforeTotal(path, order[0]);
        forall k | 0 <= k < |rest|
          ensures Before(tests, order[0], rest[k])
        {
          assert rest[k] in rest;
        }
      }
    }
  }

  lemma SortedIsHeavierFirst(tests: string -> nat, order: seq<string>)
    requires Sorted(tests, order)
    ensures HeavierFirst(tests, order)
  {
    forall i, k | 0 <= i <= k < |order|
      ensures Weight(tests, order[k]) <= Weight(tests, order[i])
    {
      if i < k { assert Before(tests, order[i], order[k]); }
    }
  }

  lemma FirstIsFirst(tests: string -> nat, s: seq<string>, t: seq<string>)
    requires multiset(s) == multiset(t) && Sorted(tests, s) && Sorted(tests, t) && |s| > 0
    ensures |t| > 0 && s[0] == t[0]
  {
    assert s[0] in multiset(s) && s[0] in t;
    assert t[0] in multiset(t) && t[0] in s;
    var i :| 0 <= i < |t| && t[i] == s[0];
    var k :| 0 <= k < |s| && s[k] == t[0];
    if i > 0 {
      assert Before(tests, t[0], t[i]) && Before(tests, s[0], s[k]);
      PathBeforeTotal(s[0], t[0]);
    }
  }

  lemma WithoutFirst(s: seq<string>)
    requires |s| > 0
    ensures s == [s[0]] + s[1..] && multiset(s[1..]) == multiset(s) - multiset{s[0]}
  {
    assert s == [s[0]] + s[1..];
  }

  /** There is only one way to order the same files. */
  lemma {:induction false} SortedIsUnique(tests: string -> nat, s: seq<string>, t: seq<string>)
    requires multiset(s) == multiset(t) && Sorted(tests, s) && Sorted(tests, t)
    ensures s == t
  {
    if |s| == 0 {
      assert |multiset(t)| == |t| && |multiset(s)| == 0;
    } else {
      FirstIsFirst(tests, s, t);
      WithoutFirst(s);
      WithoutFirst(t);
      SortedIsUnique(tests, s[1..], t[1..]);
    }
  }

  function Weights(tests: string -> nat, order: seq<string>): (w: seq<nat>)
    ensures |w| == |order|
    ensures forall i :: 0 <= i < |order| ==> w[i] == Weight(tests, order[i])
  {
    seq(|order|, i requires 0 <= i < |order| => Weight(tests, order[i]))
  }

  // ----- Lists of files and assignments of positions say the same

  /** The files of `order` that assignment `a` sends to shard `j`, in order. */
  function Chosen(order: seq<string>, a: seq<nat>, j: nat): seq<string>
    requires |order| == |a|
  {
    if |order| == 0 then []
    else
      var n := |order| - 1;
      Chosen(order[..n], a[..n], j) + if a[n] == j then [order[n]] else []
  }

  lemma {:induction false} ChosenWeight(tests: string -> nat, order: seq<string>, a: seq<nat>, j: nat)
    requires |order| == |a|
    ensures ShardWeight(tests, Chosen(order, a, j)) == G.Load(Weights(tests, order), a, j)
  {
    if |order| > 0 {
      var n := |order| - 1;
      ChosenWeight(tests, order[..n], a[..n], j);
      assert Weights(tests, order)[..n] == Weights(tests, order[..n]);
      var front := Chosen(order[..n], a[..n], j);
      assert (front + [order[n]])[..|front|] == front;
      assert front + [] == front;
    }
  }

  lemma {:induction false} ChosenFrom(order: seq<string>, a: seq<nat>, j: nat, home: seq<string>)
    requires |order| == |a|
    requires forall i, k :: 0 <= i < k < |order| ==> order[i] != order[k]
    requires forall i :: 0 <= i < |order| && a[i] == j ==> order[i] in home
    ensures multiset(Chosen(order, a, j)) <= multiset(home)
    ensures forall p :: p in Chosen(order, a, j) ==> p in order
  {
    if |order| > 0 {
      var n := |order| - 1;
      ChosenFrom(order[..n], a[..n], j, home);
      var front := Chosen(order[..n], a[..n], j);
      assert order[n] !in front;
      assert multiset(front)[order[n]] == 0;
      assert a[n] == j ==> order[n] in multiset(home);
    }
  }

  lemma {:induction false} SubShardWeight(tests: string -> nat, s: seq<string>, t: seq<string>)
    requires multiset(s) <= multiset(t)
    ensures ShardWeight(tests, s) <= ShardWeight(tests, t)
  {
    if |s| > 0 {
      var n := |s| - 1;
      var x := s[n];
      assert s == s[..n] + [x];
      assert x in multiset(s) && x in t;
      var k :| 0 <= k < |t| && t[k] == x;
      assert t == t[..k] + [x] + t[k + 1..];
      var rest := t[..k] + t[k + 1..];
      assert multiset(s[..n]) == multiset(s) - multiset{x};
      assert multiset(rest) == multiset(t) - multiset{x};
      SubShardWeight(tests, s[..n], rest);
      ShardWeightAround(tests, t[..k], x, t[k + 1..]);
    }
  }

  lemma {:induction false} ShardWeightAround(tests: string -> nat, s: seq<string>, x: string, t: seq<string>)
    ensures ShardWeight(tests, s + [x] + t) == ShardWeight(tests, s + t) + Weight(tests, x)
  {
    if |t| == 0 {
      assert s + [x] + t == s + [x] && s + t == s;
      ShardWeightMore(tests, s, x);
    } else {
      var n := |t| - 1;
      ShardWeightAround(tests, s, x, t[..n]);
      assert s + [x] + t == (s + [x] + t[..n]) + [t[n]];
      assert s + t == (s + t[..n]) + [t[n]];
      ShardWeightMore(tests, s + [x] + t[..n], t[n]);
      ShardWeightMore(tests, s + t[..n], t[n]);
    }
  }

  // ----- Any other sharding as an assignment of the same order

  lemma {:induction false} FlatHas(shards: seq<seq<string>>, path: string)
    ensures path in Flat(shards) <==> exists k :: 0 <= k < |shards| && path in shards[k]
  {
    if |shards| > 0 {
      var n := |shards| - 1;
      FlatHas(shards[..n], path);
      if k :| 0 <= k < |shards| && path in shards[k] {
        assert k == n || path in shards[..n][k];
      }
    }
  }

  ghost function HomeOf(shards: seq<seq<string>>, path: string): (k: nat)
    requires path in Flat(shards)
    ensures k < |shards| && path in shards[k]
  {
    FlatHas(shards, path);
    var k :| 0 <= k < |shards| && path in shards[k];
    k
  }

  /** Graham's bound, stated for lists of files. */
  lemma LongestFirstShards(tests: string -> nat, files: set<string>, order: seq<string>, a: seq<nat>,
                           m: nat, other: seq<seq<string>>, bound: nat, j: nat)
    requires multiset(order) == multiset(files)
    requires HeavierFirst(tests, order) && G.Greedy(Weights(tests, order), a, m) && j < m
    requires Sharding(other, files, m) && WeighAtMost(tests, other, bound)
    ensures 3 * m * ShardWeight(tests, Chosen(order, a, j)) <= (4 * m - 1) * bound
  {
    var w := Weights(tests, order);
    forall p | p in order
      ensures p in Flat(other)
    {
      assert p in multiset(order);
    }
    var b := seq(|order|, i requires 0 <= i < |order| => HomeOf(other, order[i]));
    DistinctOrder(files, order);
    forall k: nat | k < m
      ensures G.Load(w, b, k) <= bound
    {
      ChosenFrom(order, b, k, other[k]);
      SubShardWeight(tests, Chosen(order, b, k), other[k]);
      ChosenWeight(tests, order, b, k);
    }
    G.LongestFirstBound(w, a, b, m, bound, j);
    ChosenWeight(tests, order, a, j);
  }

  lemma DistinctOrder(files: set<string>, order: seq<string>)
    requires multiset(order) == multiset(files)
    ensures forall i, k :: 0 <= i < k < |order| ==> order[i] != order[k]
  {
    forall i, k | 0 <= i < k < |order|
      ensures order[i] != order[k]
    {
      var rest := order[..i] + order[i + 1..];
      assert order == order[..i] + [order[i]] + order[i + 1..];
      assert multiset(order) == multiset(rest) + multiset{order[i]};
      assert multiset(rest)[order[i]] + 1 == multiset(files)[order[i]] == 1;
      assert rest[k - 1] == order[k] && order[k] in multiset(rest);
    }
  }

  // ----- The sharder

  lemma {:induction false} FlatPlace(shards: seq<seq<string>>, j: nat, path: string)
    requires j < |shards|
    ensures Flat(shards[j := shards[j] + [path]]) == Flat(shards) + multiset{path}
  {
    var n := |shards| - 1;
    var placed := shards[j := shards[j] + [path]];
    if j == n {
      assert placed[..n] == shards[..n];
    } else {
      FlatPlace(shards[..n], j, path);
      assert placed[..n] == shards[..n][j := shards[..n][j] + [path]];
    }
  }

  lemma {:induction false} FlatEmpty(shards: seq<seq<string>>)
    requires forall j :: 0 <= j < |shards| ==> shards[j] == []
    ensures Flat(shards) == multiset{}
  {
    if |shards| > 0 { FlatEmpty(shards[..|shards| - 1]); }
  }

  /** `min(range(shard_count), key=lambda slot: (loads[slot], slot))`. */
  method LeastLoadedSlot(loads: seq<nat>) returns (least: nat)
    requires |loads| > 0
    ensures least < |loads|
    ensures forall j :: 0 <= j < |loads| ==> loads[least] <= loads[j]
    ensures forall j :: 0 <= j < least ==> loads[least] < loads[j]
  {
    least := 0;
    for slot := 1 to |loads|
      invariant least < slot
      invariant forall j :: 0 <= j < slot ==> loads[least] <= loads[j]
      invariant forall j :: 0 <= j < least ==> loads[least] < loads[j]
    {
      if loads[slot] < loads[least] { least := slot; }
    }
  }

  lemma SelectedExtends(paths: seq<string>, i: nat)
    requires i < |paths|
    ensures Selected(paths[..i + 1]) == Selected(paths[..i]) + if IsTestFile(paths[i]) then {paths[i]} else {}
  {
    assert paths[..i + 1] == paths[..i] + [paths[i]];
  }

  /** `order` lists `files`, each once, heavier files first and equally heavy ones by path. */
  ghost predicate Ordered(tests: string -> nat, files: set<string>, order: seq<string>) {
    multiset(order) == multiset(files) && Sorted(tests, order)
  }

  lemma InsertIntoOrder(tests: string -> nat, files: set<string>, order: seq<string>, path: string)
    requires Ordered(tests, files, order) && path !in files
    ensures Ordered(tests, files + {path}, Insert(tests, path, order))
  {
    assert path !in multiset(order);
    InsertKeepsOrder(tests, path, order);
    assert multiset(files + {path}) == multiset(files) + multiset{path};
  }

  /** The selected files, heaviest first. */
  method PlacementOrder(paths: seq<string>, tests: string -> nat) returns (order: seq<string>)
    ensures Ordered(tests, Selected(paths), order)
  {
    order := [];
    var files: set<string> := {};
    for i := 0 to |paths|
      invariant files == Selected(paths[..i])
      invariant Ordered(tests, files, order)
    {
      SelectedExtends(paths, i);
      if IsTestFile(paths[i]) && paths[i] !in files {
        InsertIntoOrder(tests, files, order, paths[i]);
        order := Insert(tests, paths[i], order);
        files := files + {paths[i]};
      }
    }
    assert paths[..|paths|] == paths;
  }

  /** Sending position `i` to a least-loaded shard extends the greedy assignment by one. */
  lemma GreedyExtends(w: seq<nat>, a: seq<nat>, m: nat, i: nat, index: nat)
    requires i < |w| && |a| == i
    requires G.Greedy(w[..i], a, m) && G.LeastLoaded(w[..i], a, m, index)
    ensures G.Greedy(w[..i + 1], a + [index], m)
  {
    var a' := a + [index];
    forall k | 0 <= k < i + 1
      ensures G.LeastLoaded(w[..i + 1][..k], a'[..k], m, a'[k])
    {
      assert w[..i + 1][..k] == w[..i][..k] && a'[..k] == a[..k];
      if k < i { assert a'[k] == a[k]; } else { assert w[..i][..k] == w[..i] && a[..k] == a; }
    }
  }

  lemma LoadExtends(w: seq<nat>, a: seq<nat>, i: nat, index: nat, j: nat)
    requires i < |w| && |a| == i
    ensures G.Load(w[..i + 1], a + [index], j) == G.Load(w[..i], a, j) + if index == j then w[i] else 0
  {
    assert w[..i + 1][..i] == w[..i] && (a + [index])[..i] == a;
  }

  lemma ChosenExtends(order: seq<string>, a: seq<nat>, i: nat, index: nat, j: nat)
    requires i < |order| && |a| == i
    ensures Chosen(order[..i + 1], a + [index], j)
         == Chosen(order[..i], a, j) + if index == j then [order[i]] else []
  {
    assert order[..i + 1][..i] == order[..i] && (a + [index])[..i] == a;
  }

  /** The first of the lightest shards. */
  function Lightest(tests: string -> nat, shards: seq<seq<string>>): (k: nat)
    requires |shards| > 0
    ensures k < |shards|
    ensures forall j :: 0 <= j < |shards| ==> ShardWeight(tests, shards[k]) <= ShardWeight(tests, shards[j])
    ensures forall j :: 0 <= j < k ==> ShardWeight(tests, shards[k]) < ShardWeight(tests, shards[j])
  {
    var n := |shards| - 1;
    if n == 0 then 0
    else
      var k := Lightest(tests, shards[..n]);
      if ShardWeight(tests, shards[n]) < ShardWeight(tests, shards[k]) then n else k
  }

  /** The files of `order` dealt one by one, each to the first of the lightest shards. */
  function Dealt(tests: string -> nat, order: seq<string>, m: nat): (shards: seq<seq<string>>)
    requires m > 0
    ensures |shards| == m
  {
    if |order| == 0 then seq(m, _ => [])
    else
      var n := |order| - 1;
      var shards := Dealt(tests, order[..n], m);
      var k := Lightest(tests, shards);
      shards[k := shards[k] + [order[n]]]
  }

  /** What the greedy loop has done after `i` files, with `a` the assignment it made. */
  ghost predicate Placed(tests: string -> nat, order: seq<string>, m: nat, i: nat,
                         shards: seq<seq<string>>, loads: seq<nat>, a: seq<nat>)
  {
    && i <= |order| && |shards| == |loads| == m && |a| == i
    && G.Greedy(Weights(tests, order)[..i], a, m)
    && (forall j: nat :: j < m ==> loads[j] == G.Load(Weights(tests, order)[..i], a, j))
    && (forall j: nat :: j < m ==> shards[j] == Chosen(order[..i], a, j))
    && Flat(shards) == multiset(order[..i])
  }

  /** The same, as dealing. */
  ghost predicate Dealing(tests: string -> nat, order: seq<string>, m: nat, i: nat,
                          shards: seq<seq<string>>, loads: seq<nat>)
  {
    && 0 < m == |shards| == |loads| && i <= |order|
    && shards == Dealt(tests, order[..i], m)
    && forall j :: 0 <= j < m ==> loads[j] == ShardWeight(tests, shards[j])
  }

  lemma PlaceStep(tests: string -> nat, order: seq<string>, m: nat, i: nat,
                  shards: seq<seq<string>>, loads: seq<nat>, a: seq<nat>, index: nat)
    requires Placed(tests, order, m, i, shards, loads, a) && i < |order| && index < m
    requires forall j :: 0 <= j < m ==> loads[index] <= loads[j]
    ensures Placed(tests, order, m, i + 1, shards[index := shards[index] + [order[i]]],
                   loads[index := loads[index] + Weight(tests, order[i])], a + [index])
  {
    var w := Weights(tests, order);
    var shards' := shards[index := shards[index] + [order[i]]];
    var loads' := loads[index := loads[index] + Weight(tests, order[i])];
    FlatPlace(shards, index, order[i]);
    assert G.LeastLoaded(w[..i], a, m, index) by {
      forall j: nat | j < m
        ensures G.Load(w[..i], a, index) <= G.Load(w[..i], a, j)
      {
        assert loads[index] <= loads[j];
      }
    }
    GreedyExtends(w, a, m, i, index);
    forall j: nat | j < m
      ensures loads'[j] == G.Load(w[..i + 1], a + [index], j)
      ensures shards'[j] == Chosen(order[..i + 1], a + [index], j)
    {
      LoadExtends(w, a, i, index, j);
      ChosenExtends(order, a, i, index, j);
    }
    PrefixExtends(order, i);
  }

  lemma DealStep(tests: string -> nat, order: seq<string>, m: nat, i: nat,
                 shards: seq<seq<string>>, loads: seq<nat>, index: nat)
    requires Dealing(tests, order, m, i, shards, loads) && i < |order| && index < m
    requires forall j :: 0 <= j < m ==> loads[index] <= loads[j]
    requires forall j :: 0 <= j < index ==> loads[index] < loads[j]
    ensures Dealing(tests, order, m, i + 1, shards[index := shards[index] + [order[i]]],
                    loads[index := loads[index] + Weight(tests, order[i])])
  {
    LightestIs(tests, shards, index);
    assert order[..i + 1][..i] == order[..i];
    ShardWeightMore(tests, shards[index], order[i]);
  }

  /** The number of tests in a shard, a file without tests counting as one. */
  function TestsIn(tests: string -> nat, shard: seq<string>): nat {
    if |shard| == 0 then 0
    else
      var n := |shard| - 1;
      TestsIn(tests, shard[..n]) + if tests(shard[n]) == 0 then 1 else tests(shard[n])
  }

  predicate StartsTheApplication(path: string) {
    "tests/integration/" <= path || "tests/security/" <= path
  }

  function Heavy(shard: seq<string>): seq<string> {
    if |shard| == 0 then []
    else
      var n := |shard| - 1;
      Heavy(shard[..n]) + if StartsTheApplication(shard[n]) then [shard[n]] else []
  }

  /** A shard weighs as much as its tests, with those that start the application counted nine more
      times. */
  lemma {:induction false} ShardWeighsItsTests(tests: string -> nat, shard: seq<string>)
    ensures ShardWeight(tests, shard) == TestsIn(tests, shard) + 9 * TestsIn(tests, Heavy(shard))
    ensures |shard| <= TestsIn(tests, shard)
  {
    if |shard| > 0 {
      var n := |shard| - 1;
      ShardWeighsItsTests(tests, shard[..n]);
      var heavy := Heavy(shard[..n]);
      assert (heavy + [shard[n]])[..|heavy|] == heavy && heavy + [] == heavy;
    }
  }

  lemma ShardWeightMore(tests: string -> nat, shard: seq<string>, path: string)
    ensures ShardWeight(tests, shard + [path]) == ShardWeight(tests, shard) + Weight(tests, path)
  {
    assert (shard + [path])[..|shard|] == shard;
  }

  lemma LightestIs(tests: string -> nat, shards: seq<seq<string>>, index: nat)
    requires index < |shards|
    requires forall j :: 0 <= j < |shards| ==> ShardWeight(tests, shards[index]) <= ShardWeight(tests, shards[j])
    requires forall j :: 0 <= j < index ==> ShardWeight(tests, shards[index]) < ShardWeight(tests, shards[j])
    ensures Lightest(tests, shards) == index
  {
  }

  lemma PrefixExtends(order: seq<string>, i: nat)
    requires i < |order|
    ensures multiset(order[..i + 1]) == multiset(order[..i]) + multiset{order[i]}
  {
    assert order[..i + 1] == order[..i] + [order[i]];
  }

  /** The greedy loop over `loads` and `shards`. */
  method PlaceAll(order: seq<string>, tests: string -> nat, m: nat)
      returns (shards: seq<seq<string>>, ghost a: seq<nat>)
    requires m > 0
    ensures |shards| == m && Flat(shards) == multiset(order)
    ensures G.Greedy(Weights(tests, order), a, m)
    ensures forall j :: 0 <= j < m ==> shards[j] == Chosen(order, a, j)
    ensures shards == Dealt(tests, order, m)
  {
    shards, a := seq(m, _ => []), [];
    var loads: seq<nat> := seq(m, _ => 0);
    FlatEmpty(shards);
    for i := 0 to |order|
      invariant Placed(tests, order, m, i, shards, loads, a)
      invariant Dealing(tests, order, m, i, shards, loads)
    {
      var index := LeastLoadedSlot(loads);
      PlaceStep(tests, order, m, i, shards, loads, a, index);
      DealStep(tests, order, m, i, shards, loads, index);
      shards := shards[index := shards[index] + [order[i]]];
      loads := loads[index := loads[index] + Weight(tests, order[i])];
      a := a + [index];
    }
    assert Weights(tests, order)[..|order|] == Weights(tests, order) && order[..|order|] == order;
  }

  /** No shard of `shards` is heavier than Graham's bound allows against any other sharding. */
  ghost predicate WithinGraham(tests: string -> nat, files: set<string>, shards: seq<seq<string>>, m: nat)
    requires |shards| == m
  {
    forall other: seq<seq<string>>, bound: nat, j ::
      Sharding(other, files, m) && WeighAtMost(tests, other, bound) && 0 <= j < m ==>
      3 * m * ShardWeight(tests, shards[j]) <= (4 * m - 1) * bound
  }

  /** `shards` depend on the set of files alone, so every machine that shards the same files
      shards them alike. */
  ghost predicate OnlyDealing(tests: string -> nat, files: set<string>, shards: seq<seq<string>>, m: nat)
    requires m > 0
  {
    forall order :: Ordered(tests, files, order) ==> shards == Dealt(tests, order, m)
  }

  method ShardTestPaths(paths: seq<string>, tests: string -> nat, shardCount: int)
      returns (result: Option<seq<seq<string>>>)
    ensures result.None? <==> shardCount < 1 || Selected(paths) == {}
    ensures result.Some? ==> Sharding(result.value, Selected(paths), shardCount)
    ensures result.Some? ==> WithinGraham(tests, Selected(paths), result.value, shardCount)
    ensures result.Some? ==> OnlyDealing(tests, Selected(paths), result.value, shardCount)
  {
    if shardCount < 1 { return None; }
    var order := PlacementOrder(paths, tests);
    if |order| == 0 {
      assert forall p :: p in Selected(paths) ==> p in multiset(Selected(paths));
      return None;
    }
    assert order[0] in multiset(order);
    var shards, a := PlaceAll(order, tests, shardCount);
    SortedIsHeavierFirst(tests, order);
    forall other | Ordered(tests, Selected(paths), other)
      ensures shards == Dealt(tests, other, shardCount)
    {
      SortedIsUnique(tests, order, other);
    }
    forall other: seq<seq<string>>, bound: nat, j |
      Sharding(other, Selected(paths), shardCount) && WeighAtMost(tests, other, bound) && 0 <= j < shardCount
      ensures 3 * shardCount * ShardWeight(tests, shards[j]) <= (4 * shardCount - 1) * bound
    {
      LongestFirstShards(tests, Selected(paths), order, a, shardCount, other, bound, j);
    }
    return Some(shards);
  }
}
