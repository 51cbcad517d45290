/**
 The catalog of tables and functions: lists in creation order, indexes by storage name, one cached
 handle per table spec, and the names under which the handles are registered in the root catalog and
 its sub-catalogs. Adding registers incrementally; dropping rebuilds everything from the lists.
 */
module Catalog {
  import opened Ascii

  // ----- names -----

  /** A spec is compared by identity: replacing an object creates a new spec with the same name. */
  datatype Spec = Spec(id: nat, namePath: seq<string>)

  /** What the analyzer resolves a name to: the columns of the spec it was built from. */
  datatype Handle = Handle(spec: Spec)

  /** A lower-cased name in the sub-catalog reached by a path of names from the root. */
  datatype Key = Key(catalog: seq<string>, name: string)

  function Join(path: seq<string>, sep: string): string {
    if path == [] then "" else if |path| == 1 then path[0] else path[0] + sep + Join(path[1..], sep)
  }

  function StorageName(s: Spec): string { Join(s.namePath, "_") }

  /** Joining is the one way to write paths that puts the separator between any two parts of them. */
  lemma {:induction false} JoinConcat(a: seq<string>, b: seq<string>, sep: string)
    requires a != [] && b != []
    ensures Join(a + b, sep) == Join(a, sep) + sep + Join(b, sep)
    ensures Join([a[0]], sep) == a[0]
    decreases |a|
  {
    if |a| == 1 {
      assert (a + b)[1..] == b && (a + b)[0] == a[0];
    } else {
      assert (a + b)[1..] == a[1..] + b;
      JoinConcat(a[1..], b, sep);
      var rest := Join(a[1..], sep) + sep + Join(b, sep);
      assert a[0] + sep + rest == (a[0] + sep + Join(a[1..], sep)) + sep + Join(b, sep);
    }
  }

  /** No component holds the separator. */
  predicate Separable(path: seq<string>, c: char) { forall i :: 0 <= i < |path| ==> c !in path[i] }

  /** Up to the first separator two texts are equal when the texts are. */
  lemma SplitAt(a: string, s: string, b: string, u: string, c: char)
    requires c !in a && c !in b && a + [c] + s == b + [c] + u
    ensures a == b && s == u
  {
    var x, y := a + [c] + s, b + [c] + u;
    assert x[|a|] == c && y[|b|] == c;
    assert forall i :: 0 <= i < |a| ==> x[i] != c;
    assert forall i :: 0 <= i < |b| ==> y[i] != c;
    assert a == x[..|a|] == y[..|b|] == b;
    assert s == x[|a| + 1..] == y[|b| + 1..] == u;
  }

  lemma JoinHolds(path: seq<string>, c: char)
    requires path != [] && Separable(path, c)
    ensures c in Join(path, [c]) <==> |path| > 1
  {
    if |path| > 1 { assert Join(path, [c])[|path[0]|] == c; }
  }

  /** Paths whose components do not hold the separator are determined by their join. */
  lemma {:induction false} JoinInjective(a: seq<string>, b: seq<string>, c: char)
    requires a != [] && b != [] && Separable(a, c) && Separable(b, c) && Join(a, [c]) == Join(b, [c])
    ensures a == b
    decreases |a|
  {
    JoinHolds(a, c);
    JoinHolds(b, c);
    if |a| > 1 {
      SplitAt(a[0], Join(a[1..], [c]), b[0], Join(b[1..], [c]), c);
      JoinInjective(a[1..], b[1..], c);
    }
  }

  /** Different paths of components without underscores are stored under different names. */
  lemma DistinctStorage(s: Spec, t: Spec)
    requires s.namePath != [] && t.namePath != [] && Separable(s.namePath, '_') && Separable(t.namePath, '_')
    ensures StorageName(s) == StorageName(t) <==> s.namePath == t.namePath
  {
    if StorageName(s) == StorageName(t) { JoinInjective(s.namePath, t.namePath, '_'); }
  }

  // ----- the keys a table claims -----

  function PathClaims(cat: seq<string>, path: seq<string>): set<Key>
    decreases |path|
  {
    if path == [] then {}
    else if |path| == 1 then {Key(cat, Lower(path[0]))}
    else {Key(cat, Lower(Join(path, ".")))} + PathClaims(cat, path[1..]) + PathClaims(cat + [path[0]], path[1..])
  }

  /** From i on, the sub-catalog named by the first i components joined with dots. */
  function DottedClaims(path: seq<string>, i: nat): set<Key>
    decreases |path| - i
  {
    if i >= |path| then {} else PathClaims([Join(path[..i], ".")], path[i..]) + DottedClaims(path, i + 1)
  }

  function Claims(path: seq<string>): set<Key> { PathClaims([], path) + DottedClaims(path, 2) }

  type Registry = map<Key, Handle>

  /** The keys not taken yet get the handle. */
  function Register(reg: Registry, keys: set<Key>, h: Handle): Registry {
    (map k | k in keys :: h) + reg
  }

  lemma RegisterTwice(reg: Registry, a: set<Key>, b: set<Key>, h: Handle)
    ensures Register(Register(reg, a, h), b, h) == Register(reg, a + b, h)
  {}

  lemma RegisterNothing(reg: Registry, h: Handle)
    ensures Register(reg, {}, h) == reg
  {}

  // ----- the lists and their indexes -----

  predicate Unique(ts: seq<Spec>) {
    forall i, j :: 0 <= i < j < |ts| ==> StorageName(ts[i]) != StorageName(ts[j])
  }

  function Index(ts: seq<Spec>): map<string, Spec> {
    if ts == [] then map[] else Index(ts[..|ts| - 1])[StorageName(ts[|ts| - 1]) := ts[|ts| - 1]]
  }

  /** The registrations made from an empty catalog in list order. */
  function Rebuilt(ts: seq<Spec>): Registry {
    if ts == [] then map[]
    else Register(Rebuilt(ts[..|ts| - 1]), Claims(ts[|ts| - 1].namePath), Handle(ts[|ts| - 1]))
  }

  function Replaced(ts: seq<Spec>, s: Spec): seq<Spec> {
    seq(|ts|, i requires 0 <= i < |ts| => if StorageName(ts[i]) == StorageName(s) then s else ts[i])
  }

  function Without(ts: seq<Spec>, name: string): seq<Spec> {
    if ts == [] then []
    else Without(ts[..|ts| - 1], name) + if StorageName(ts[|ts| - 1]) == name then [] else [ts[|ts| - 1]]
  }

  predicate Named(ts: seq<Spec>) { forall i :: 0 <= i < |ts| ==> ts[i].namePath != [] }

  lemma IndexSnoc(ts: seq<Spec>, s: Spec)
    ensures Index(ts + [s]) == Index(ts)[StorageName(s) := s]
    ensures Rebuilt(ts + [s]) == Register(Rebuilt(ts), Claims(s.namePath), Handle(s))
  {
    assert (ts + [s])[..|ts|] == ts;
  }

  lemma {:induction false} IndexHas(ts: seq<Spec>, i: nat)
    requires Unique(ts) && i < |ts|
    ensures StorageName(ts[i]) in Index(ts) && Index(ts)[StorageName(ts[i])] == ts[i]
    decreases |ts|
  {
    hide StorageName;
    if i < |ts| - 1 { IndexHas(ts[..|ts| - 1], i); }
  }

  lemma {:induction false} IndexFind(ts: seq<Spec>, name: string) returns (i: nat)
    requires name in Index(ts)
    ensures i < |ts| && StorageName(ts[i]) == name && Index(ts)[name] == ts[i]
    decreases |ts|
  {
    hide StorageName;
    var n := |ts| - 1;
    if StorageName(ts[n]) == name { i := n; } else { i := IndexFind(ts[..n], name); }
  }

  // ----- the first claimant -----

  predicate FirstClaim(ts: seq<Spec>, k: Key, i: nat) {
    && i < |ts| && k in Claims(ts[i].namePath)
    && forall j :: 0 <= j < i ==> k !in Claims(ts[j].namePath)
  }

  /** A rebuilt catalog resolves a key to the first table of the list that claims it. */
  lemma {:induction false} RebuiltResolves(ts: seq<Spec>, k: Key, i: nat)
    requires FirstClaim(ts, k, i)
    ensures k in Rebuilt(ts) && Rebuilt(ts)[k] == Handle(ts[i])
    decreases |ts|
  {
    hide Claims;
    var n := |ts| - 1;
    if i < n { RebuiltResolves(ts[..n], k, i); } else if k in Rebuilt(ts[..n]) { var j := RebuiltFirst(ts[..n], k); }
  }

  lemma {:induction false} RebuiltFirst(ts: seq<Spec>, k: Key) returns (i: nat)
    requires k in Rebuilt(ts)
    ensures FirstClaim(ts, k, i)
    decreases |ts|
  {
    hide Claims;
    var n := |ts| - 1;
    if k in Rebuilt(ts[..n]) { i := RebuiltFirst(ts[..n], k); } else {
      i := n;
      forall j | 0 <= j < n ensures k !in Claims(ts[j].namePath) { NotRebuilt(ts[..n], k, j); }
    }
  }

  lemma {:induction false} NotRebuilt(ts: seq<Spec>, k: Key, j: nat)
    requires k !in Rebuilt(ts) && j < |ts|
    ensures k !in Claims(ts[j].namePath)
    decreases |ts|
  {
    hide Claims;
    if j < |ts| - 1 { NotRebuilt(ts[..|ts| - 1], k, j); }
  }

  // ----- the keys of a path -----

  /** The components the mask keeps. */
  function Pick(path: seq<string>, mask: seq<bool>): seq<string>
    requires |mask| <= |path|
  {
    if mask == [] then [] else (if mask[0] then [path[0]] else []) + Pick(path[1..], mask[1..])
  }

  /** Descending through some of the first components and skipping the others, the rest of the path is the name. */
  function KeyOf(cat: seq<string>, path: seq<string>, mask: seq<bool>): Key
    requires |mask| < |path|
  {
    Key(cat + Pick(path, mask), Lower(Join(path[|mask|..], ".")))
  }

  lemma KeyOfFirst(cat: seq<string>, path: seq<string>)
    requires path != []
    ensures KeyOf(cat, path, []) == Key(cat, Lower(Join(path, ".")))
  {
    hide Lower, Join;
    assert path[0..] == path && cat + [] == cat;
  }

  lemma KeyOfRest(cat: seq<string>, path: seq<string>, mask: seq<bool>)
    requires mask != [] && |mask| < |path|
    ensures KeyOf(cat, path, mask) == KeyOf(if mask[0] then cat + [path[0]] else cat, path[1..], mask[1..])
  {
    hide Lower, Join;
    var p := Pick(path[1..], mask[1..]);
    assert path[|mask|..] == path[1..][|mask| - 1..];
    assert cat + ([path[0]] + p) == (cat + [path[0]]) + p && cat + ([] + p) == cat + p;
  }

  lemma {:induction false} MaskClaimed(cat: seq<string>, path: seq<string>, mask: seq<bool>)
    requires |mask| < |path|
    ensures KeyOf(cat, path, mask) in PathClaims(cat, path)
    decreases |path|
  {
    hide Lower, KeyOf;
    if mask == [] {
      KeyOfFirst(cat, path);
    } else {
      KeyOfRest(cat, path, mask);
      MaskClaimed(if mask[0] then cat + [path[0]] else cat, path[1..], mask[1..]);
    }
  }

  lemma {:induction false} ClaimMask(cat: seq<string>, path: seq<string>, k: Key) returns (mask: seq<bool>)
    requires k in PathClaims(cat, path)
    ensures |mask| < |path| && k == KeyOf(cat, path, mask)
    decreases |path|
  {
    hide Lower, KeyOf;
    KeyOfFirst(cat, path);
    if k == Key(cat, Lower(Join(path, "."))) {
      mask := [];
    } else {
      var down := k in PathClaims(cat + [path[0]], path[1..]);
      var rest := ClaimMask(if down then cat + [path[0]] else cat, path[1..], k);
      mask := [down] + rest;
      assert mask[1..] == rest;
      KeyOfRest(cat, path, mask);
    }
  }

  /** A path claims exactly the keys of its masks: every proper suffix, below every selection of what precedes it. */
  lemma PathClaimsAre(cat: seq<string>, path: seq<string>, k: Key)
    ensures k in PathClaims(cat, path) <==> exists mask: seq<bool> :: |mask| < |path| && k == KeyOf(cat, path, mask)
  {
    hide PathClaims, KeyOf;
    if k in PathClaims(cat, path) { var mask := ClaimMask(cat, path, k); }
    if mask: seq<bool> :| |mask| < |path| && k == KeyOf(cat, path, mask) { MaskClaimed(cat, path, mask); }
  }

  /** The sub-catalogs named by a quoted dotted prefix hold the claims of the rest, and nothing else is claimed. */
  lemma {:induction false} DottedClaimsAre(path: seq<string>, from: nat, k: Key)
    ensures k in DottedClaims(path, from) <==>
      exists i :: from <= i < |path| && k in PathClaims([Join(path[..i], ".")], path[i..])
    decreases |path| - from
  {
    hide PathClaims, Join;
    if from < |path| { DottedClaimsAre(path, from + 1, k); }
  }

  /**
   A table is found under every suffix of its path, below every selection of what precedes the suffix, from the root
   and from the sub-catalog named by a dotted prefix of two or more components.
   */
  lemma ClaimsAre(path: seq<string>, k: Key)
    ensures k in Claims(path) <==>
      || (exists mask: seq<bool> :: |mask| < |path| && k == KeyOf([], path, mask))
      || (exists i :: 2 <= i < |path| && BelowPrefix(path, i, k))
  {
    PathClaimsAre([], path, k);
    DottedClaimsAre(path, 2, k);
    forall i | 2 <= i < |path| ensures k in PathClaims([Join(path[..i], ".")], path[i..]) <==> BelowPrefix(path, i, k) {
      PathClaimsAre([Join(path[..i], ".")], path[i..], k);
    }
    hide PathClaims, DottedClaims, KeyOf, BelowPrefix, Join;
  }

  /** Found in the sub-catalog named by the first i components. */
  ghost predicate BelowPrefix(path: seq<string>, i: nat, k: Key)
    requires i < |path|
  {
    exists mask: seq<bool> :: |mask| < |path| - i && k == KeyOf([Join(path[..i], ".")], path[i..], mask)
  }

  // ----- replacing a table -----

  function Paths(reg: Registry): map<Key, seq<string>> { map k | k in reg :: reg[k].spec.namePath }

  /** The registrations name the same tables as a rebuild, though their handles may be older. */
  predicate InStep(reg: Registry, ts: seq<Spec>) { Paths(reg) == Paths(Rebuilt(ts)) }

  /** Whether some key resolves to the i-th table. */
  ghost predicate Wins(ts: seq<Spec>, i: nat) { exists k :: FirstClaim(ts, k, i) }

  lemma PathsAt(ts: seq<Spec>, k: Key, i: nat)
    requires FirstClaim(ts, k, i)
    ensures k in Paths(Rebuilt(ts)) && Paths(Rebuilt(ts))[k] == ts[i].namePath
  {
    RebuiltResolves(ts, k, i);
  }

  lemma PathsFirst(ts: seq<Spec>, k: Key) returns (i: nat)
    requires k in Paths(Rebuilt(ts))
    ensures FirstClaim(ts, k, i) && Paths(Rebuilt(ts))[k] == ts[i].namePath
  {
    i := RebuiltFirst(ts, k);
    PathsAt(ts, k, i);
  }

  /** Two lists of the same storage names. */
  predicate Parallel(ts: seq<Spec>, us: seq<Spec>) {
    |ts| == |us| && forall i :: 0 <= i < |ts| ==> StorageName(ts[i]) == StorageName(us[i])
  }

  /** Where the paths differ, no key resolves to either table. */
  ghost predicate SamePathOrLost(ts: seq<Spec>, us: seq<Spec>)
    requires |ts| == |us|
  {
    forall i :: 0 <= i < |ts| ==> ts[i].namePath == us[i].namePath || (!Wins(ts, i) && !Wins(us, i))
  }

  /** Where the specs differ, no key resolves to either table. */
  ghost predicate SameOrLost(ts: seq<Spec>, us: seq<Spec>)
    requires |ts| == |us|
  {
    forall i :: 0 <= i < |ts| ==> ts[i] == us[i] || (!Wins(ts, i) && !Wins(us, i))
  }

  lemma {:induction false} FirstExists(ts: seq<Spec>, k: Key, j: nat) returns (i: nat)
    requires j < |ts| && k in Claims(ts[j].namePath)
    ensures i <= j && FirstClaim(ts, k, i)
    decreases j
  {
    hide Claims;
    if i' :| 0 <= i' < j && k in Claims(ts[i'].namePath) { i := FirstExists(ts, k, i'); } else { i := j; }
  }

  lemma FirstShared(ts: seq<Spec>, us: seq<Spec>, k: Key, w: nat)
    requires |ts| == |us| && SamePathOrLost(ts, us) && FirstClaim(ts, k, w)
    ensures FirstClaim(us, k, w) && us[w].namePath == ts[w].namePath
  {
    hide Claims;
    assert Wins(ts, w);
    var i := FirstExists(us, k, w);
    assert Wins(us, i);
  }

  lemma PathsSubset(ts: seq<Spec>, us: seq<Spec>, k: Key)
    requires |ts| == |us| && SamePathOrLost(ts, us) && k in Paths(Rebuilt(ts))
    ensures k in Paths(Rebuilt(us)) && Paths(Rebuilt(us))[k] == Paths(Rebuilt(ts))[k]
  {
    var w := PathsFirst(ts, k);
    hide Claims, FirstClaim, Paths, Rebuilt, SamePathOrLost;
    FirstShared(ts, us, k, w);
    PathsAt(us, k, w);
  }

  lemma LostSymmetric(ts: seq<Spec>, us: seq<Spec>)
    requires |ts| == |us|
    ensures SamePathOrLost(ts, us) <==> SamePathOrLost(us, ts)
    ensures SameOrLost(ts, us) <==> SameOrLost(us, ts)
    ensures SameOrLost(ts, us) ==> SamePathOrLost(ts, us)
  {
    hide Wins;
  }

  lemma PathsDiffer(ts: seq<Spec>, us: seq<Spec>, i: nat)
    requires Parallel(ts, us) && Unique(ts) && i < |ts| && us[i].namePath != ts[i].namePath && Wins(ts, i)
    ensures Paths(Rebuilt(us)) != Paths(Rebuilt(ts))
  {
    var k :| FirstClaim(ts, k, i);
    PathsAt(ts, k, i);
    if k in Paths(Rebuilt(us)) {
      var j := PathsFirst(us, k);
      if j != i { assert StorageName(ts[j]) != StorageName(ts[i]); }
      assert us[j].namePath != ts[i].namePath;
    }
  }

  /** Two parallel lists register the same paths exactly when they differ only in tables no key resolves to. */
  lemma SamePathsIff(ts: seq<Spec>, us: seq<Spec>)
    requires Parallel(ts, us) && Unique(ts) && Unique(us)
    ensures Paths(Rebuilt(ts)) == Paths(Rebuilt(us)) <==> SamePathOrLost(ts, us)
  {
    if SamePathOrLost(ts, us) {
      SamePathsFrom(ts, us);
    } else {
      var i :| 0 <= i < |ts| && ts[i].namePath != us[i].namePath && (Wins(ts, i) || Wins(us, i));
      hide *;
      ParallelSymmetric(ts, us);
      if Wins(ts, i) { PathsDiffer(ts, us, i); } else { PathsDiffer(us, ts, i); }
    }
  }

  lemma ParallelSymmetric(ts: seq<Spec>, us: seq<Spec>)
    requires Parallel(ts, us)
    ensures Parallel(us, ts) && |ts| == |us|
  {
    hide StorageName;
  }

  lemma SamePathsFrom(ts: seq<Spec>, us: seq<Spec>)
    requires |ts| == |us| && SamePathOrLost(ts, us)
    ensures Paths(Rebuilt(ts)) == Paths(Rebuilt(us))
  {
    LostSymmetric(ts, us);
    hide *;
    var a, b := Paths(Rebuilt(ts)), Paths(Rebuilt(us));
    forall k | k in a ensures k in b && b[k] == a[k] { PathsSubset(ts, us, k); }
    forall k | k in b ensures k in a { PathsSubset(us, ts, k); }
    assert a == b;
  }

  lemma RebuiltSubset(ts: seq<Spec>, us: seq<Spec>, k: Key)
    requires |ts| == |us| && SameOrLost(ts, us) && k in Rebuilt(ts)
    ensures k in Rebuilt(us) && Rebuilt(us)[k] == Rebuilt(ts)[k]
  {
    var w := RebuiltFirst(ts, k);
    RebuiltResolves(ts, k, w);
    LostSymmetric(ts, us);
    hide Claims, Rebuilt;
    assert Wins(ts, w);
    FirstShared(ts, us, k, w);
    RebuiltResolves(us, k, w);
  }

  lemma RebuiltDiffer(ts: seq<Spec>, us: seq<Spec>, i: nat)
    requires Parallel(ts, us) && Unique(ts) && i < |ts| && us[i] != ts[i] && Wins(ts, i)
    ensures Rebuilt(us) != Rebuilt(ts)
  {
    var k :| FirstClaim(ts, k, i);
    RebuiltResolves(ts, k, i);
    if k in Rebuilt(us) {
      var j := RebuiltFirst(us, k);
      RebuiltResolves(us, k, j);
      if j != i { assert StorageName(ts[j]) != StorageName(ts[i]); }
      assert us[j] != ts[i];
    }
  }

  /** ... and have the same handles exactly when they differ only in specs no key resolves to. */
  lemma SameRebuiltIff(ts: seq<Spec>, us: seq<Spec>)
    requires Parallel(ts, us) && Unique(ts) && Unique(us)
    ensures Rebuilt(ts) == Rebuilt(us) <==> SameOrLost(ts, us)
  {
    var a, b := Rebuilt(ts), Rebuilt(us);
    if SameOrLost(ts, us) {
      LostSymmetric(ts, us);
      hide Rebuilt, SameOrLost;
      forall k | k in a ensures k in b && b[k] == a[k] { RebuiltSubset(ts, us, k); }
      forall k | k in b ensures k in a { RebuiltSubset(us, ts, k); }
      assert a == b;
    } else {
      hide Rebuilt, Wins, StorageName, Unique;
      var i :| 0 <= i < |ts| && ts[i] != us[i] && (Wins(ts, i) || Wins(us, i));
      if Wins(ts, i) { RebuiltDiffer(ts, us, i); } else { RebuiltDiffer(us, ts, i); }
    }
  }

  lemma OneReplaced(ts: seq<Spec>, s: Spec, i: nat)
    requires Unique(ts) && i < |ts| && StorageName(s) == StorageName(ts[i])
    ensures Parallel(ts, ts[i := s]) && Unique(ts[i := s])
    ensures SamePathOrLost(ts, ts[i := s]) <==> s.namePath == ts[i].namePath || (!Wins(ts, i) && !Wins(ts[i := s], i))
    ensures SameOrLost(ts, ts[i := s]) <==> s == ts[i] || (!Wins(ts, i) && !Wins(ts[i := s], i))
  {
    hide StorageName, Wins;
    var us := ts[i := s];
    assert forall j :: 0 <= j < |ts| && j != i ==> us[j] == ts[j];
  }

  /**
   Replacing a table under its storage name leaves the registrations as a rebuild would make them exactly when
   the path is the same, or no key resolves to the table before or after.
   */
  lemma ReplaceInStep(reg: Registry, ts: seq<Spec>, s: Spec, i: nat)
    requires Unique(ts) && i < |ts| && StorageName(s) == StorageName(ts[i]) && InStep(reg, ts)
    ensures InStep(reg, ts[i := s]) <==> s.namePath == ts[i].namePath || (!Wins(ts, i) && !Wins(ts[i := s], i))
  {
    OneReplaced(ts, s, i);
    hide Paths, Rebuilt, Wins, StorageName, SamePathOrLost;
    SamePathsIff(ts, ts[i := s]);
  }

  /** Two paths share a storage name: replacing `a_b` by `a.b` leaves the new path unregistered. */
  lemma SharedStorageNameExample()
    ensures var a, b := Spec(0, ["a_b"]), Spec(1, ["a", "b"]);
      StorageName(a) == StorageName(b) && InStep(Rebuilt([a]), [a]) && !InStep(Rebuilt([a]), [b])
  {
    var a, b := Spec(0, ["a_b"]), Spec(1, ["a", "b"]);
    assert ["a", "b"][1..] == ["b"];
    assert Join(["b"], "_") == "b";
    var k := Key([], Lower(["a_b"][0]));
    assert FirstClaim([a], k, 0);
    assert Wins([a], 0);
    ReplaceInStep(Rebuilt([a]), [a], b, 0);
    assert [a][0 := b] == [b];
  }

  /** A replaced table is still registered with the handle of the old spec until the next rebuild. */
  lemma StaleHandleExample()
    ensures var a, b := Spec(0, ["t"]), Spec(1, ["t"]);
      InStep(Rebuilt([a]), [b]) && Rebuilt([a]) != Rebuilt([b])
  {
    var a, b := Spec(0, ["t"]), Spec(1, ["t"]);
    var k := Key([], Lower(["t"][0]));
    ReplaceInStep(Rebuilt([a]), [a], b, 0);
    assert [a][0 := b] == [b];
    assert FirstClaim([a], k, 0) && FirstClaim([b], k, 0);
    RebuiltResolves([a], k, 0);
    RebuiltResolves([b], k, 0);
  }

  // ----- lists -----

  lemma UniqueSnoc(ts: seq<Spec>, s: Spec)
    requires Unique(ts) && StorageName(s) !in Index(ts)
    ensures Unique(ts + [s])
  {
    hide StorageName;
    forall i | 0 <= i < |ts| ensures StorageName(ts[i]) != StorageName(s) { IndexHas(ts, i); }
  }

  lemma UniqueReplaced(ts: seq<Spec>, s: Spec, i: nat)
    requires Unique(ts) && i < |ts| && StorageName(ts[i]) == StorageName(s)
    ensures Unique(Replaced(ts, s)) && Replaced(ts, s) == ts[i := s]
  {
    hide StorageName;
    var us := Replaced(ts, s);
    forall j | 0 <= j < |ts| && j != i ensures us[j] == ts[j] {}
    forall j | 0 <= j < |ts| ensures StorageName(us[j]) == StorageName(ts[j]) {}
  }

  lemma {:induction false} IndexReplaced(ts: seq<Spec>, s: Spec, i: nat)
    requires Unique(ts) && i < |ts| && StorageName(ts[i]) == StorageName(s)
    ensures Index(ts[i := s]) == Index(ts)[StorageName(s) := s]
    decreases |ts|
  {
    hide StorageName;
    var n := |ts| - 1;
    var us := ts[i := s];
    if i == n {
      assert us[..n] == ts[..n];
    } else {
      assert us[..n] == ts[..n][i := s];
      IndexReplaced(ts[..n], s, i);
      assert StorageName(ts[i]) != StorageName(ts[n]);
    }
  }

  lemma {:induction false} WithoutUnique(ts: seq<Spec>, name: string)
    requires Unique(ts)
    ensures Unique(Without(ts, name)) && forall s :: s in Without(ts, name) <==> s in ts && StorageName(s) != name
    decreases |ts|
  {
    hide StorageName;
    if ts != [] {
      var n := |ts| - 1;
      WithoutUnique(ts[..n], name);
      assert ts == ts[..n] + [ts[n]];
      var us := Without(ts[..n], name);
      forall i | 0 <= i < |us| ensures StorageName(us[i]) != StorageName(ts[n]) { assert us[i] in ts[..n]; }
    }
  }

  lemma WithoutIndex(ts: seq<Spec>, name: string, m: string)
    requires Unique(ts)
    ensures m in Index(Without(ts, name)) <==> m in Index(ts) && m != name
    ensures m in Index(Without(ts, name)) ==> Index(Without(ts, name))[m] == Index(ts)[m]
  {
    WithoutUnique(ts, name);
    var us := Without(ts, name);
    hide StorageName, Without, Index;
    if m in Index(us) {
      var j := IndexFind(us, m);
      assert us[j] in ts;
      var i :| 0 <= i < |ts| && ts[i] == us[j];
      IndexHas(ts, i);
    }
    if m in Index(ts) && m != name {
      var i := IndexFind(ts, m);
      assert ts[i] in us;
      var j :| 0 <= j < |us| && us[j] == ts[i];
      IndexHas(us, j);
    }
  }

  /** A rebuild stops at the first table without a name, having added it. */
  function Loaded(ts: seq<Spec>): (r: seq<Spec>)
    ensures Named(ts) ==> r == ts
  {
    if ts == [] || Named(ts[..|ts| - 1]) then ts else Loaded(ts[..|ts| - 1])
  }

  lemma {:induction false} LoadedPrefix(ts: seq<Spec>, i: nat)
    requires i < |ts| && Named(ts[..i]) && ts[i].namePath == []
    ensures Loaded(ts) == ts[..i + 1]
    decreases |ts|
  {
    var n := |ts| - 1;
    if i < n {
      assert ts[..n][i] == ts[i];
      assert ts[..n][..i] == ts[..i] && ts[..n][..i + 1] == ts[..i + 1];
      LoadedPrefix(ts[..n], i);
    } else {
      assert ts[..i + 1] == ts;
    }
  }

  predicate WellBuilt(handles: map<Spec, Handle>) { forall s :: s in handles ==> handles[s] == Handle(s) }

  predicate Current(handles: map<Spec, Handle>, ts: seq<Spec>) { forall s :: s in handles ==> s in ts }

  /** Replacing a function updates the map and not the list, so only the names agree. */
  predicate NamesAgree(fs: seq<Spec>, m: map<string, Spec>) {
    Unique(fs) && m.Keys == Index(fs).Keys && forall n :: n in m ==> StorageName(m[n]) == n
  }

  lemma NamesAgreeAdd(fs: seq<Spec>, m: map<string, Spec>, s: Spec)
    requires NamesAgree(fs, m)
    ensures NamesAgree(if StorageName(s) in m then fs else fs + [s], m[StorageName(s) := s])
  {
    if StorageName(s) !in m {
      UniqueSnoc(fs, s);
      IndexSnoc(fs, s);
    }
    hide StorageName, Index;
  }

  /** An added table keeps the registrations in step unless it takes over another path's storage name. */
  ghost predicate KeepsStep(ts: seq<Spec>, s: Spec) {
    forall i :: 0 <= i < |ts| && StorageName(ts[i]) == StorageName(s) ==>
      s.namePath == ts[i].namePath || (!Wins(ts, i) && !Wins(ts[i := s], i))
  }

  lemma AppendInStep(reg: Registry, ts: seq<Spec>, s: Spec)
    requires InStep(reg, ts)
    ensures InStep(Register(reg, Claims(s.namePath), Handle(s)), ts + [s])
  {
    IndexSnoc(ts, s);
    var keys, b := Claims(s.namePath), Rebuilt(ts);
    hide Claims, Rebuilt, Index;
    PathsRegister(reg, keys, Handle(s));
    PathsRegister(b, keys, Handle(s));
  }

  lemma PathsRegister(reg: Registry, keys: set<Key>, h: Handle)
    ensures Paths(Register(reg, keys, h)) == (map k | k in keys :: h.spec.namePath) + Paths(reg)
  {}

  /** The two ways of adding a table. */
  lemma AddInStep(reg: Registry, ts: seq<Spec>, s: Spec)
    requires Unique(ts)
    ensures InStep(reg, ts) && StorageName(s) in Index(ts) ==> (InStep(reg, Replaced(ts, s)) <==> KeepsStep(ts, s))
    ensures InStep(reg, ts) && StorageName(s) !in Index(ts) ==>
      InStep(Register(reg, Claims(s.namePath), Handle(s)), ts + [s]) && KeepsStep(ts, s)
  {
    hide StorageName, Index, InStep, Register, Claims, Wins, Replaced;
    if InStep(reg, ts) {
      if StorageName(s) in Index(ts) {
        var i := IndexFind(ts, StorageName(s));
        UniqueReplaced(ts, s, i);
        ReplaceInStep(reg, ts, s, i);
      } else {
        AppendInStep(reg, ts, s);
        forall i | 0 <= i < |ts| ensures StorageName(ts[i]) != StorageName(s) { IndexHas(ts, i); }
      }
    }
  }

  /** An added table keeps the registrations those of a rebuild unless it replaces a spec and either is resolved to. */
  ghost predicate KeepsRebuilt(ts: seq<Spec>, s: Spec) {
    forall i :: 0 <= i < |ts| && StorageName(ts[i]) == StorageName(s) ==>
      s == ts[i] || (!Wins(ts, i) && !Wins(ts[i := s], i))
  }

  lemma AddRebuilt(ts: seq<Spec>, s: Spec)
    requires Unique(ts)
    ensures StorageName(s) in Index(ts) ==> (Rebuilt(ts) == Rebuilt(Replaced(ts, s)) <==> KeepsRebuilt(ts, s))
    ensures StorageName(s) !in Index(ts) ==>
      Register(Rebuilt(ts), Claims(s.namePath), Handle(s)) == Rebuilt(ts + [s]) && KeepsRebuilt(ts, s)
  {
    IndexSnoc(ts, s);
    hide StorageName, Index, Rebuilt, Register, Claims, Wins, Replaced;
    if StorageName(s) in Index(ts) {
      var i := IndexFind(ts, StorageName(s));
      UniqueReplaced(ts, s, i);
      OneReplaced(ts, s, i);
      SameRebuiltIff(ts, ts[i := s]);
    } else {
      forall i | 0 <= i < |ts| ensures StorageName(ts[i]) != StorageName(s) { IndexHas(ts, i); }
    }
  }

  /** Adding a function keeps the map the index of the list exactly when its name is new or it is the spec listed. */
  lemma AddFunctionIndexed(fs: seq<Spec>, s: Spec)
    requires Unique(fs)
    ensures var m, name := Index(fs), StorageName(s);
      m[name := s] == Index(if name in m then fs else fs + [s]) <==> (name !in m || m[name] == s)
  {
    IndexSnoc(fs, s);
    hide StorageName, Index;
    var m, name := Index(fs), StorageName(s);
    if name in m {
      if m[name] == s { assert m[name := s] == m; } else { assert m[name := s][name] != m[name]; }
    }
  }

  predicate IndexedBy(ts: seq<Spec>, m: map<string, Spec>, handles: map<Spec, Handle>) {
    Unique(ts) && m == Index(ts) && WellBuilt(handles)
  }

  lemma ListedIndexed(ts: seq<Spec>, m: map<string, Spec>, handles: map<Spec, Handle>, s: Spec)
    requires IndexedBy(ts, m, handles) && StorageName(s) !in m
    ensures IndexedBy(ts + [s], m[StorageName(s) := s], handles)
  {
    UniqueSnoc(ts, s);
    IndexSnoc(ts, s);
    hide StorageName, Unique, Index;
  }

  lemma DottedStep(path: seq<string>, i: nat)
    ensures DottedClaims(path, i) ==
      if i >= |path| then {} else PathClaims([Join(path[..i], ".")], path[i..]) + DottedClaims(path, i + 1)
  {}

  lemma ClaimsSplit(path: seq<string>)
    ensures Claims(path) == PathClaims([], path) + DottedClaims(path, 2)
  {}

  lemma NoClaims(path: seq<string>)
    requires path == []
    ensures Claims(path) == PathClaims([], path)
  {}

  /** The first i tables are listed and registered, and all of them have names. */
  ghost predicate Reloaded(ts: seq<Spec>, i: nat, tables: seq<Spec>, reg: Registry) {
    i <= |ts| && tables == ts[..i] && reg == Rebuilt(tables) && Named(ts[..i]) && Unique(ts)
  }

  lemma NoneReloaded(ts: seq<Spec>)
    requires Unique(ts)
    ensures Reloaded(ts, 0, [], map[])
  {}

  lemma NextReloaded(ts: seq<Spec>, i: nat, tables: seq<Spec>, reg: Registry)
    requires i < |ts| && Reloaded(ts, i, tables, reg)
    ensures StorageName(ts[i]) !in Index(tables)
    ensures var now := Register(reg, Claims(ts[i].namePath), Handle(ts[i]));
      if ts[i].namePath == [] then !Named(ts) && tables + [ts[i]] == Loaded(ts) && now == Rebuilt(tables + [ts[i]])
      else Reloaded(ts, i + 1, tables + [ts[i]], now)
  {
    NewName(ts, i);
    IndexSnoc(tables, ts[i]);
    assert ts[..i] + [ts[i]] == ts[..i + 1];
    if ts[i].namePath == [] { LoadedPrefix(ts, i); }
    hide Rebuilt, Register, Claims, StorageName, Index, Unique;
  }

  lemma IndexedMap(ts: seq<Spec>, m: map<string, Spec>, handles: map<Spec, Handle>)
    requires IndexedBy(ts, m, handles)
    ensures m == Index(ts)
  {}

  lemma AllReloaded(ts: seq<Spec>, tables: seq<Spec>, reg: Registry)
    requires Reloaded(ts, |ts|, tables, reg)
    ensures Named(ts) && tables == Loaded(ts) && reg == Rebuilt(tables)
  {
    assert ts[..|ts|] == ts;
  }

  lemma StillCurrent(handles: map<Spec, Handle>, ts: seq<Spec>, i: nat)
    requires Current(handles, ts) && i < |ts|
    ensures Current(handles[ts[i] := Handle(ts[i])], ts)
  {}

  class Catalog {
    var tables: seq<Spec>
    var tableMap: map<string, Spec>
    var tableHandles: map<Spec, Handle>
    var registry: Registry
    var functions: seq<Spec>
    var funcMap: map<string, Spec>

    /** The table map is the index of the list, and cached handles were built from their own spec. */
    ghost predicate Indexed()
      reads this
    {
      IndexedBy(tables, tableMap, tableHandles)
    }

    ghost predicate Valid()
      reads this
    {
      Indexed() && Current(tableHandles, tables) && NamesAgree(functions, funcMap)
    }

    /** What holds even after a rebuild that a table without a name stopped, which may leave handles of other tables. */
    ghost predicate Consistent()
      reads this
    {
      Indexed() && NamesAgree(functions, funcMap)
    }

    constructor ()
      ensures Valid() && tables == [] && functions == [] && registry == Rebuilt([])
    {
      tables, tableMap, tableHandles, registry := [], map[], map[], map[];
      functions, funcMap := [], map[];
    }

    method TableHandleForSpec(spec: Spec) returns (h: Handle)
      requires WellBuilt(tableHandles)
      modifies this`tableHandles
      ensures h == Handle(spec) && tableHandles == old(tableHandles)[spec := Handle(spec)]
    {
      if spec in tableHandles {
        h := tableHandles[spec];
        assert tableHandles == tableHandles[spec := h];
        return;
      }
      h := Handle(spec);
      tableHandles := tableHandles[spec := h];
    }

    /** False when the path is empty. */
    method RegisterPath(cat: seq<string>, path: seq<string>, h: Handle) returns (ok: bool)
      modifies this`registry
      ensures ok == (path != []) && registry == Register(old(registry), PathClaims(cat, path), h)
      decreases |path|
    {
      hide Register, Lower, Join;
      if |path| > 1 {
        var key := Key(cat, Lower(Join(path, ".")));
        AddIfAbsent(key, h);
        var a := RegisterPath(cat, path[1..], h);
        var b := RegisterPath(cat + [path[0]], path[1..], h);
        var first, second := PathClaims(cat, path[1..]), PathClaims(cat + [path[0]], path[1..]);
        RegisterTwice(old(registry), {key}, first, h);
        RegisterTwice(old(registry), {key} + first, second, h);
        return true;
      }
      if |path| == 0 {
        RegisterNothing(registry, h);
        return false;
      }
      AddIfAbsent(Key(cat, Lower(path[0])), h);
      return true;
    }

    /** A name that exists in the sub-catalog, in any case, is left as it is. */
    method AddIfAbsent(key: Key, h: Handle)
      modifies this`registry
      ensures registry == Register(old(registry), {key}, h)
    {
      if key !in registry { registry := registry[key := h]; }
    }

    method RegisterTable(spec: Spec) returns (ok: bool)
      requires WellBuilt(tableHandles)
      modifies this`registry, this`tableHandles
      ensures ok == (spec.namePath != [])
      ensures tableHandles == old(tableHandles)[spec := Handle(spec)]
      ensures registry == Register(old(registry), Claims(spec.namePath), Handle(spec))
    {
      var h := TableHandleForSpec(spec);
      ok := RegisterPath([], spec.namePath, h);
      hide *;
      if ok {
        RegisterDotted(spec.namePath, h);
        RegisterTwice(old(registry), PathClaims([], spec.namePath), DottedClaims(spec.namePath, 2), h);
        ClaimsSplit(spec.namePath);
      } else {
        NoClaims(spec.namePath);
      }
    }

    /** The sub-catalogs named by dotted prefixes. */
    method RegisterDotted(path: seq<string>, h: Handle)
      modifies this`registry
      ensures registry == Register(old(registry), DottedClaims(path, 2), h)
    {
      hide *;
      var i: nat := 2;
      ghost var done: set<Key> := {};
      RegisterNothing(registry, h);
      while i < |path|
        invariant done + DottedClaims(path, i) == DottedClaims(path, 2)
        invariant registry == Register(old(registry), done, h)
      {
        ghost var claims := PathClaims([Join(path[..i], ".")], path[i..]);
        var ok := RegisterPath([Join(path[..i], ".")], path[i..], h);
        RegisterTwice(old(registry), done, claims, h);
        DottedStep(path, i);
        done := done + claims;
        i := i + 1;
      }
      DottedStep(path, i);
    }

    method AddTableSpec(spec: Spec) returns (ok: bool)
      requires Indexed()
      modifies this`tables, this`tableMap, this`tableHandles, this`registry
      ensures Indexed() && (old(Valid()) ==> Valid()) && (old(Consistent()) ==> Consistent())
      ensures StorageName(spec) in old(tableMap) ==>
        ok && tables == Replaced(old(tables), spec) && registry == old(registry)
      ensures StorageName(spec) !in old(tableMap) ==>
        && ok == (spec.namePath != []) && tables == old(tables) + [spec]
        && tableHandles == old(tableHandles)[spec := Handle(spec)]
        && registry == Register(old(registry), Claims(spec.namePath), Handle(spec))
      ensures old(InStep(registry, tables)) ==> (InStep(registry, tables) <==> KeepsStep(old(tables), spec))
      ensures old(registry == Rebuilt(tables)) ==> (registry == Rebuilt(tables) <==> KeepsRebuilt(old(tables), spec))
    {
      AddInStep(registry, tables, spec);
      AddRebuilt(tables, spec);
      hide StorageName, Replaced, Unique, Index, WellBuilt, Current, NamesAgree, Register, Claims;
      hide InStep, KeepsStep, KeepsRebuilt, Rebuilt;
      ok := AddOrReplace(spec);
    }

    method AddOrReplace(spec: Spec) returns (ok: bool)
      requires Indexed()
      modifies this`tables, this`tableMap, this`tableHandles, this`registry
      ensures Indexed() && (old(Current(tableHandles, tables)) ==> Current(tableHandles, tables))
      ensures StorageName(spec) in old(tableMap) ==>
        ok && tables == Replaced(old(tables), spec) && registry == old(registry)
      ensures StorageName(spec) !in old(tableMap) ==>
        && ok == (spec.namePath != []) && tables == old(tables) + [spec]
        && tableHandles == old(tableHandles)[spec := Handle(spec)]
        && registry == Register(old(registry), Claims(spec.namePath), Handle(spec))
    {
      hide *;
      if StorageName(spec) in tableMap {
        ReplaceTable(spec);
        return true;
      }
      ok := AppendTable(spec);
    }

    method AppendTable(spec: Spec) returns (ok: bool)
      requires Indexed() && StorageName(spec) !in tableMap
      modifies this`tables, this`tableMap, this`tableHandles, this`registry
      ensures Indexed() && (old(Current(tableHandles, tables)) ==> Current(tableHandles, tables))
      ensures ok == (spec.namePath != []) && tables == old(tables) + [spec]
      ensures tableHandles == old(tableHandles)[spec := Handle(spec)]
      ensures registry == Register(old(registry), Claims(spec.namePath), Handle(spec))
    {
      ListTable(spec);
      AddHandle(tableHandles, old(tables), spec);
      hide *;
      ok := RegisterTable(spec);
    }

    method ListTable(spec: Spec)
      requires Indexed() && StorageName(spec) !in tableMap
      modifies this`tables, this`tableMap
      ensures Indexed() && tables == old(tables) + [spec]
    {
      ListedIndexed(tables, tableMap, tableHandles, spec);
      hide IndexedBy, StorageName;
      tables := tables + [spec];
      tableMap := tableMap[StorageName(spec) := spec];
    }

    method ReplaceTable(spec: Spec)
      requires Indexed() && StorageName(spec) in tableMap
      modifies this`tables, this`tableMap, this`tableHandles
      ensures Indexed() && (old(Current(tableHandles, tables)) ==> Current(tableHandles, tables))
      ensures tables == Replaced(old(tables), spec)
    {
      hide StorageName;
      ghost var at := IndexFind(tables, StorageName(spec));
      tableMap := tableMap[StorageName(spec) := spec];
      var i: nat := 0;
      while i < |tables|
        invariant i <= at && tables == old(tables) && tableHandles == old(tableHandles)
      {
        if StorageName(tables[i]) == StorageName(spec) {
          UniqueReplaced(tables, spec, i);
          IndexReplaced(tables, spec, i);
          DropHandle(tableHandles, tables, spec, i);
          tableHandles := tableHandles - {tables[i]};
          tables := tables[i := spec];
          return;
        }
        i := i + 1;
      }
    }

    method AddFunctionSpec(spec: Spec)
      requires Valid()
      modifies this`functions, this`funcMap
      ensures Valid() && funcMap == old(funcMap)[StorageName(spec) := spec]
      ensures functions == if StorageName(spec) in old(funcMap) then old(functions) else old(functions) + [spec]
      ensures old(funcMap == Index(functions)) ==>
        (funcMap == Index(functions) <==> StorageName(spec) !in old(funcMap) || old(funcMap)[StorageName(spec)] == spec)
    {
      hide IndexedBy, Current, NamesAgree, Index, StorageName;
      SetFunction(spec);
    }

    /** Only a new name is listed. */
    method SetFunction(spec: Spec)
      requires NamesAgree(functions, funcMap)
      modifies this`functions, this`funcMap
      ensures NamesAgree(functions, funcMap) && funcMap == old(funcMap)[StorageName(spec) := spec]
      ensures functions == if StorageName(spec) in old(funcMap) then old(functions) else old(functions) + [spec]
      ensures old(funcMap == Index(functions)) ==>
        (funcMap == Index(functions) <==> StorageName(spec) !in old(funcMap) || old(funcMap)[StorageName(spec)] == spec)
    {
      NamesAgreeAdd(functions, funcMap, spec);
      AddFunctionIndexed(functions, spec);
      hide *;
      if StorageName(spec) !in funcMap { functions := functions + [spec]; }
      funcMap := funcMap[StorageName(spec) := spec];
    }

    /** Rebuilds the catalog from the lists; a table without a name stops it before the functions. */
    method ResetCatalog(ts: seq<Spec>, fs: seq<Spec>) returns (ok: bool)
      requires Unique(ts) && Unique(fs) && WellBuilt(tableHandles)
      modifies this
      ensures ok <==> Named(ts)
      ensures Consistent() && tables == Loaded(ts) && registry == Rebuilt(tables)
      ensures ok ==> Valid() && functions == fs && funcMap == Index(fs)
      ensures !ok ==> functions == [] && funcMap == map[]
    {
      tables, tableMap, registry := [], map[], map[];
      functions, funcMap := [], map[];
      tableHandles := map s | s in ts && s in tableHandles :: tableHandles[s];
      ok := ReloadTables(ts);
      if !ok { return; }
      ReloadFunctions(fs);
    }

    method ReloadTables(ts: seq<Spec>) returns (ok: bool)
      requires Unique(ts) && Indexed() && Current(tableHandles, ts) && tables == [] && registry == map[]
      modifies this`tables, this`tableMap, this`tableHandles, this`registry
      ensures ok <==> Named(ts)
      ensures Indexed() && tables == Loaded(ts) && registry == Rebuilt(tables)
      ensures Current(tableHandles, ts)
    {
      hide IndexedBy, Current, Reloaded, StorageName, Index, Rebuilt, Register, Claims, Named, Loaded, Unique, Replaced;
      hide InStep, KeepsStep, KeepsRebuilt, NamesAgree;
      var i: nat := 0;
      NoneReloaded(ts);
      while i < |ts|
        invariant i <= |ts| && Indexed() && Current(tableHandles, ts) && Reloaded(ts, i, tables, registry)
      {
        NextReloaded(ts, i, tables, registry);
        IndexedMap(tables, tableMap, tableHandles);
        ghost var handles := tableHandles;
        ok := AddTableSpec(ts[i]);
        StillCurrent(handles, ts, i);
        i := i + 1;
        if !ok { return; }
      }
      AllReloaded(ts, tables, registry);
      ok := true;
    }

    method ReloadFunctions(fs: seq<Spec>)
      requires Valid() && Unique(fs) && functions == [] && funcMap == map[]
      modifies this`functions, this`funcMap
      ensures Valid() && functions == fs && funcMap == Index(fs)
    {
      var i: nat := 0;
      while i < |fs|
        invariant i <= |fs| && Valid() && functions == fs[..i] && funcMap == Index(functions)
      {
        NewName(fs, i);
        IndexSnoc(fs[..i], fs[i]);
        assert fs[..i] + [fs[i]] == fs[..i + 1];
        hide Unique, Index, StorageName, WellBuilt, Current;
        AddFunctionSpec(fs[i]);
        i := i + 1;
      }
      assert fs[..i] == fs;
    }

    method DeleteTableSpecByName(name: string) returns (ok: bool)
      requires Consistent()
      modifies this
      ensures Consistent() && (ok <==> name in old(tableMap) && Named(Without(old(tables), name)))
      ensures name !in old(tableMap) ==> unchanged(this)
      ensures name in old(tableMap) ==> tables == Loaded(Without(old(tables), name)) && registry == Rebuilt(tables)
      ensures ok ==> Valid() && functions == old(functions) && funcMap == Index(functions)
    {
      if name !in tableMap { return false; }
      ghost var i := IndexFind(tables, name);
      var kept := Filter(tables, StorageName(tableMap[name]));
      WithoutUnique(tables, name);
      ok := ResetCatalog(kept, functions);
    }

    method DeleteFunctionSpecByName(name: string) returns (ok: bool)
      requires Consistent()
      modifies this
      ensures Consistent() && (ok <==> name in old(funcMap) && Named(old(tables)))
      ensures name !in old(funcMap) ==> unchanged(this)
      ensures name in old(funcMap) ==> tables == Loaded(old(tables)) && registry == Rebuilt(tables)
      ensures ok ==> Valid() && tables == old(tables) && registry == Rebuilt(tables)
      ensures ok ==> functions == Without(old(functions), name) && funcMap == Index(functions)
    {
      if name !in funcMap { return false; }
      var kept := Filter(functions, StorageName(funcMap[name]));
      WithoutUnique(functions, name);
      ok := ResetCatalog(tables, kept);
    }
  }

  /** The specs whose storage name is another one, in order. */
  method Filter(ts: seq<Spec>, name: string) returns (r: seq<Spec>)
    ensures r == Without(ts, name)
  {
    r := [];
    var i: nat := 0;
    while i < |ts|
      invariant i <= |ts| && r == Without(ts[..i], name)
    {
      assert ts[..i + 1][..i] == ts[..i];
      if StorageName(ts[i]) != name { r := r + [ts[i]]; }
      i := i + 1;
    }
    assert ts[..i] == ts;
  }

  lemma NewName(ts: seq<Spec>, i: nat)
    requires Unique(ts) && i < |ts|
    ensures Unique(ts[..i]) && StorageName(ts[i]) !in Index(ts[..i])
  {
    hide StorageName;
    if StorageName(ts[i]) in Index(ts[..i]) {
      var j := IndexFind(ts[..i], StorageName(ts[i]));
      assert false;
    }
  }

  lemma AddHandle(handles: map<Spec, Handle>, ts: seq<Spec>, s: Spec)
    requires WellBuilt(handles)
    ensures WellBuilt(handles[s := Handle(s)])
    ensures Current(handles, ts) ==> Current(handles[s := Handle(s)], ts + [s])
  {}

  /** Without the replaced spec's handle, those cached are for specs still listed. */
  lemma DropHandle(handles: map<Spec, Handle>, ts: seq<Spec>, s: Spec, i: nat)
    requires i < |ts| && WellBuilt(handles)
    ensures WellBuilt(handles - {ts[i]})
    ensures Current(handles, ts) ==> Current(handles - {ts[i]}, ts[i := s])
  {
    if Current(handles, ts) {
      forall x | x in handles - {ts[i]} ensures x in ts[i := s] {
        var j :| 0 <= j < |ts| && ts[j] == x;
        assert ts[i := s][j] == x;
      }
    }
  }

  // ----- whole runs -----

  datatype Change = Add(spec: Spec) | Drop(name: string)

  /** What the list of tables becomes. */
  function Changed(ts: seq<Spec>, c: Change): seq<Spec> {
    match c
    case Add(s) => if StorageName(s) in Index(ts) then Replaced(ts, s) else ts + [s]
    case Drop(name) => if name in Index(ts) then Loaded(Without(ts, name)) else ts
  }

  function ChangedBy(ts: seq<Spec>, cs: seq<Change>): seq<Spec> {
    if cs == [] then ts else Changed(ChangedBy(ts, cs[..|cs| - 1]), cs[|cs| - 1])
  }

  /** The specs the registered handles were built from: those added since the last drop, not their replacements. */
  function Founders(ts: seq<Spec>, cs: seq<Change>): seq<Spec> {
    if cs == [] then ts
    else
      var n := |cs| - 1;
      FoundersAfter(Founders(ts, cs[..n]), ChangedBy(ts, cs[..n]), cs[n])
  }

  function FoundersAfter(fs: seq<Spec>, now: seq<Spec>, c: Change): seq<Spec> {
    match c
    case Add(s) => if StorageName(s) in Index(now) then fs else fs + [s]
    case Drop(name) => if name in Index(now) then Loaded(Without(now, name)) else fs
  }

  predicate NamesTable(c: Change) { c.Add? ==> c.spec.namePath != [] }

  /** The registrations are those of the founders, whose names are the tables' names. */
  ghost predicate Founded(c: Catalog, fs: seq<Spec>)
    reads c
  {
    c.Consistent() && Parallel(fs, c.tables) && c.registry == Rebuilt(fs)
  }

  ghost predicate AllNamed(c: Catalog)
    reads c
  {
    c.Valid() && Named(c.tables)
  }

  lemma ParallelAdd(fs: seq<Spec>, ts: seq<Spec>, s: Spec)
    requires Parallel(fs, ts)
    ensures Parallel(fs + [s], ts + [s]) && Parallel(fs, Replaced(ts, s))
  {
    hide StorageName;
  }

  lemma ParallelSame(ts: seq<Spec>)
    ensures Parallel(ts, ts)
  {}

  lemma NamedAfter(ts: seq<Spec>, c: Change)
    requires Unique(ts) && Named(ts) && NamesTable(c)
    ensures Named(Changed(ts, c))
    ensures c.Drop? ==> Named(Without(ts, c.name))
  {
    hide StorageName, Index;
    if c.Drop? {
      WithoutUnique(ts, c.name);
      var us := Without(ts, c.name);
      hide Without;
      forall i | 0 <= i < |us| ensures us[i].namePath != [] { assert us[i] in ts; }
    }
  }

  method Apply(c: Catalog, change: Change, ghost fs: seq<Spec>)
    requires Founded(c, fs)
    modifies c
    ensures Founded(c, FoundersAfter(fs, old(c.tables), change)) && c.tables == Changed(old(c.tables), change)
    ensures old(AllNamed(c)) && NamesTable(change) ==> AllNamed(c)
  {
    if AllNamed(c) && NamesTable(change) { NamedAfter(c.tables, change); }
    var ok;
    match change
    case Add(spec) =>
      ParallelAdd(fs, c.tables, spec);
      IndexSnoc(fs, spec);
      hide Unique, Index, Rebuilt, Register, Claims, StorageName, Named, Parallel;
      hide InStep, KeepsStep, KeepsRebuilt, Replaced;
      ok := c.AddTableSpec(spec);
    case Drop(name) =>
      ParallelSame(Loaded(Without(c.tables, name)));
      ok := c.DeleteTableSpecByName(name);
  }

  /**
   Any run of adds, replacements and drops: the registrations are exactly those of the founders, they name the
   tables a rebuild would exactly when a founder of another path and its table are both resolved to by no key,
   and they are those of a rebuild exactly when that holds of every founder since replaced.
   */
  method Run(c: Catalog, changes: seq<Change>)
    requires c.Consistent() && c.registry == Rebuilt(c.tables)
    modifies c
    ensures c.Consistent() && c.tables == ChangedBy(old(c.tables), changes)
    ensures old(AllNamed(c)) && (forall i :: 0 <= i < |changes| ==> NamesTable(changes[i])) ==> AllNamed(c)
    ensures var fs := Founders(old(c.tables), changes);
      && Parallel(fs, c.tables) && c.registry == Rebuilt(fs)
      && (InStep(c.registry, c.tables) <==> SamePathOrLost(fs, c.tables))
      && (c.registry == Rebuilt(c.tables) <==> SameOrLost(fs, c.tables))
  {
    var i: nat := 0;
    ParallelSame(c.tables);
    ghost var fs := c.tables;
    while i < |changes|
      invariant i <= |changes| && Founded(c, fs) && fs == Founders(old(c.tables), changes[..i])
      invariant c.tables == ChangedBy(old(c.tables), changes[..i])
      invariant old(AllNamed(c)) && (forall j :: 0 <= j < i ==> NamesTable(changes[j])) ==> AllNamed(c)
    {
      hide Founded, Changed, FoundersAfter, AllNamed;
      assert changes[..i + 1][..i] == changes[..i];
      ghost var now := c.tables;
      Apply(c, changes[i], fs);
      fs := FoundersAfter(fs, now, changes[i]);
      i := i + 1;
    }
    assert changes[..i] == changes;
    hide *;
    FoundedIff(c, fs);
  }

  lemma FoundedIff(c: Catalog, fs: seq<Spec>)
    requires Founded(c, fs)
    ensures c.Consistent() && Parallel(fs, c.tables) && c.registry == Rebuilt(fs)
    ensures InStep(c.registry, c.tables) <==> SamePathOrLost(fs, c.tables)
    ensures c.registry == Rebuilt(c.tables) <==> SameOrLost(fs, c.tables)
  {
    ParallelUnique(fs, c.tables);
    hide Rebuilt, Paths, SamePathOrLost, SameOrLost;
    SamePathsIff(fs, c.tables);
    SameRebuiltIff(fs, c.tables);
  }

  lemma ParallelUnique(fs: seq<Spec>, ts: seq<Spec>)
    requires Parallel(fs, ts) && Unique(ts)
    ensures Unique(fs)
  {
    hide StorageName;
  }

  /** So names stay in step as long as no two paths in the run share a storage name. */
  lemma SharedNamesOnly(fs: seq<Spec>, ts: seq<Spec>)
    requires Parallel(fs, ts)
    requires forall s, t :: s in fs && t in ts && StorageName(s) == StorageName(t) ==> s.namePath == t.namePath
    ensures SamePathOrLost(fs, ts)
  {
    hide StorageName, Wins;
    assert forall i :: 0 <= i < |ts| ==> fs[i] in fs && ts[i] in ts;
  }

  /** Names in step resolve to the first claimant's storage name. */
  lemma InStepResolves(reg: Registry, ts: seq<Spec>, k: Key, i: nat)
    requires InStep(reg, ts) && FirstClaim(ts, k, i)
    ensures k in reg && reg[k].spec.namePath == ts[i].namePath && StorageName(reg[k].spec) == StorageName(ts[i])
  {
    PathsAt(ts, k, i);
    assert k in Paths(reg);
  }

  /** Two tables of different paths without underscores stay two tables. */
  lemma TwoTables(ts: seq<Spec>, s: Spec, u: Spec)
    requires s.namePath != [] && u.namePath != [] && Separable(s.namePath, '_') && Separable(u.namePath, '_')
    requires s.namePath != u.namePath && StorageName(s) !in Index(ts) && StorageName(u) !in Index(ts)
    ensures ChangedBy(ts, [Add(s), Add(u)]) == ts + [s, u]
  {
    DistinctStorage(s, u);
    IndexSnoc(ts, s);
    hide StorageName, Index;
    var cs := [Add(s), Add(u)];
    assert cs[..1] == [Add(s)] && [Add(s)][..0] == [];
    assert ChangedBy(ts, []) == ts;
    assert ChangedBy(ts, [Add(s)]) == ts + [s];
    assert ts + [s] + [u] == ts + [s, u];
  }

  /** A table claims its full path, written with dots, in the root catalog. */
  lemma FullNameClaimed(path: seq<string>)
    requires path != []
    ensures Key([], Lower(Join(path, "."))) in Claims(path)
  {
    MaskClaimed([], path, []);
    KeyOfFirst([], path);
  }

  // ----- functions: a rebuild goes back to the listed spec -----

  /** Replacing a function and then dropping a table brings the first definition back. */
  method ReplacedFunctionExample() returns (before: Spec, after: Spec)
    ensures before == Spec(1, ["f"]) && after == Spec(0, ["f"])
  {
    var c := new Catalog();
    var f, g, t := Spec(0, ["f"]), Spec(1, ["f"]), Spec(2, ["t"]);
    OneTable(f, g, t);
    hide *;
    c.AddFunctionSpec(f);
    c.AddFunctionSpec(g);
    before := c.funcMap["f"];
    var ok := c.AddTableSpec(t);
    assert c.functions == [f] && c.tables == [t];
    ok := DropLast(c, "t");
    after := c.funcMap["f"];
  }

  method DropLast(c: Catalog, name: string) returns (ok: bool)
    requires c.Consistent() && name in Index(c.tables) && Named(Without(c.tables, name))
    modifies c
    ensures ok && c.functions == old(c.functions) && c.funcMap == Index(c.functions)
  {
    IndexedMap(c.tables, c.tableMap, c.tableHandles);
    hide Index, Named, Without, NamesAgree, Rebuilt, Loaded, IndexedBy, Current;
    ok := c.DeleteTableSpecByName(name);
  }

  lemma OneTable(f: Spec, g: Spec, t: Spec)
    requires f.namePath == ["f"] == g.namePath && t.namePath == ["t"]
    ensures StorageName(f) == "f" == StorageName(g) && "f" in Index([f]) && Index([f])["f"] == f
    ensures StorageName(t) == "t" && "t" in Index([t]) && Named(Without([t], "t"))
    ensures Index([]) == map[]
  {
    assert [f][..0] == [] && [t][..0] == [];
    assert Without([t], "t") == [];
  }
}
