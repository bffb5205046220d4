/**
 * What assets/js/app.js does with the raw paths of a chain, in both the
 * evolution panel (`loadEvolutions`) and the evolution catalog
 * (`renderEvolutionCatalog`), which carry identical copies of the code:
 * collapse repeated species inside a path, keep the first path of each
 * species sequence, and (catalog only) fold the surviving paths into one
 * order-independent chain signature used to draw each chain once.
 */
module EvoPaths {
  import opened Wrappers
  import opened Text
  import opened Sorting
  import opened EvoCondition
  import opened EvoChain

  // ---------------------------------------------------------------------------
  // Collapsing repeated species inside one path
  // ---------------------------------------------------------------------------

  /** The filter's test: the first step stays, a later one stays when its name differs from the step before it. */
  predicate Kept(path: Path, i: nat)
    requires i < |path|
  {
    i == 0 || path[i].name != path[i - 1].name
  }

  /** No two neighbouring steps share a name. */
  predicate NoAdjacentRepeat(path: Path) {
    forall i :: 0 < i < |path| ==> path[i].name != path[i - 1].name
  }

  /** The path with every step dropped whose name equals that of the raw step just before it. */
  function Collapse(path: Path): (r: Path)
    ensures |r| <= |path|
    ensures |path| > 0 ==> |r| > 0 && r[0] == path[0]
    ensures |path| > 0 ==> r[|r| - 1].name == path[|path| - 1].name
    ensures NoAdjacentRepeat(r)
    decreases |path|
  {
    if |path| == 0 then []
    else
      var n := |path| - 1;
      Collapse(path[..n]) + (if Kept(path, n) then [path[n]] else [])
  }

  /** The positions the filter keeps, in increasing order. */
  function KeptIndices(path: Path): (ks: seq<nat>)
    ensures forall j :: 0 <= j < |ks| ==> ks[j] < |path| && Kept(path, ks[j])
    ensures forall j, l :: 0 <= j < l < |ks| ==> ks[j] < ks[l]
    ensures forall i :: 0 <= i < |path| && Kept(path, i) ==> i in ks
    decreases |path|
  {
    if |path| == 0 then []
    else
      var n := |path| - 1;
      KeptPrefix(path, n);
      KeptIndices(path[..n]) + (if Kept(path, n) then [n] else [])
  }

  /** Whether a step is kept does not depend on the steps after it. */
  lemma KeptPrefix(path: Path, n: nat)
    requires n <= |path|
    ensures forall i :: 0 <= i < n ==> (Kept(path[..n], i) <==> Kept(path, i))
  {
  }

  /** The `j`-th step of `r` is the step of `path` at the `j`-th position of `ks`. */
  ghost predicate PicksAt(path: Path, r: Path, ks: seq<nat>) {
    |r| == |ks| && forall j :: 0 <= j < |r| ==> ks[j] < |path| && r[j] == path[ks[j]]
  }

  lemma PicksAtSnoc(path: Path, n: nat, r: Path, ks: seq<nat>, keep: bool)
    requires n < |path|
    requires PicksAt(path[..n], r, ks)
    ensures PicksAt(path, r + (if keep then [path[n]] else []), ks + (if keep then [n] else []))
  {
    var r' := r + (if keep then [path[n]] else []);
    var ks' := ks + (if keep then [n] else []);
    forall j | 0 <= j < |r'| ensures ks'[j] < |path| && r'[j] == path[ks'[j]] {
      if j < |r| {
        assert r'[j] == r[j] && ks'[j] == ks[j];
      }
    }
  }

  /**
   * The collapsed path is the raw path read at the kept positions: the first
   * step of every run of equal names is the one that survives.
   */
  lemma {:induction false} CollapseKeepsFirstOfRun(path: Path)
    ensures |Collapse(path)| == |KeptIndices(path)|
    ensures forall j :: 0 <= j < |Collapse(path)| ==> Collapse(path)[j] == path[KeptIndices(path)[j]]
    decreases |path|
  {
    CollapsePicks(path);
  }

  lemma {:induction false} CollapsePicks(path: Path)
    ensures PicksAt(path, Collapse(path), KeptIndices(path))
    decreases |path|
  {
    if |path| > 0 {
      var n := |path| - 1;
      CollapsePicks(path[..n]);
      PicksAtSnoc(path, n, Collapse(path[..n]), KeptIndices(path[..n]), Kept(path, n));
    }
  }

  /** `a` is `b` with some elements left out, the rest in their order. */
  predicate Subsequence<T(==)>(a: seq<T>, b: seq<T>)
    decreases |b|
  {
    if |a| == 0 then true
    else if |b| == 0 then false
    else
      || (a[|a| - 1] == b[|b| - 1] && Subsequence(a[..|a| - 1], b[..|b| - 1]))
      || Subsequence(a, b[..|b| - 1])
  }

  /** The collapsed path keeps its steps in their original order. */
  lemma {:induction false} CollapseSubsequence(path: Path)
    ensures Subsequence(Collapse(path), path)
    decreases |path|
  {
    if |path| > 0 {
      var n := |path| - 1;
      var rest := Collapse(path[..n]);
      CollapseSubsequence(path[..n]);
      assert path[..|path| - 1] == path[..n];
      if Kept(path, n) {
        assert Collapse(path) == rest + [path[n]];
        assert (rest + [path[n]])[..|rest|] == rest;
      } else {
        assert Collapse(path) == rest;
      }
    }
  }

  function NameSet(path: Path): set<string> {
    set i | 0 <= i < |path| :: path[i].name
  }

  /** Appending a step adds its name. */
  lemma NameSetSnoc(a: Path, s: Step)
    ensures NameSet(a + [s]) == NameSet(a) + {s.name}
  {
    var b := a + [s];
    assert b[|a|] == s;
    forall x | x in NameSet(b) ensures x in NameSet(a) + {s.name} {
      var i :| 0 <= i < |b| && b[i].name == x;
      if i < |a| { assert b[i] == a[i]; }
    }
    forall x | x in NameSet(a) ensures x in NameSet(b) {
      var i :| 0 <= i < |a| && a[i].name == x;
      assert b[i] == a[i];
    }
  }

  /** No species is lost: the collapsed path names the same species as the raw one. */
  lemma {:induction false} CollapseKeepsNames(path: Path)
    ensures NameSet(Collapse(path)) == NameSet(path)
    decreases |path|
  {
    if |path| > 0 {
      var n := |path| - 1;
      var prefix := path[..n];
      var rest := Collapse(prefix);
      CollapseKeepsNames(prefix);
      assert path == prefix + [path[n]];
      NameSetSnoc(prefix, path[n]);
      if Kept(path, n) {
        assert Collapse(path) == rest + [path[n]];
        NameSetSnoc(rest, path[n]);
      } else {
        assert Collapse(path) == rest by {
          assert Collapse(path) == rest + [];
        }
        assert path[n].name == prefix[n - 1].name;
      }
    }
  }

  /** A path is left unchanged exactly when no two neighbouring steps share a name. */
  lemma {:induction false} CollapseFixpoint(path: Path)
    ensures Collapse(path) == path <==> NoAdjacentRepeat(path)
    decreases |path|
  {
    if |path| > 0 {
      var n := |path| - 1;
      var prefix := path[..n];
      CollapseFixpoint(prefix);
      assert prefix + [path[n]] == path;
      if NoAdjacentRepeat(path) {
        assert NoAdjacentRepeat(prefix);
      }
      if Collapse(path) == path {
        if !Kept(path, n) {
          assert false;
        }
        assert Collapse(prefix) == path[..n];
      }
    }
  }

  /** Collapsing twice is collapsing once. */
  lemma CollapseIdempotent(path: Path)
    ensures Collapse(Collapse(path)) == Collapse(path)
  {
    CollapseFixpoint(Collapse(path));
  }

  // ---------------------------------------------------------------------------
  // Path signatures
  // ---------------------------------------------------------------------------

  function Names(path: Path): (ns: seq<string>)
    ensures |ns| == |path| && forall i :: 0 <= i < |path| ==> ns[i] == path[i].name
  {
    seq(|path|, i requires 0 <= i < |path| => path[i].name)
  }

  /** The species names of a path joined by `>`. */
  function Signature(path: Path): string {
    Join(Names(path), ">")
  }

  /** No species name holds the character '>'. */
  predicate NamesAngleFree(path: Path) {
    FreeOf(Names(path), '>')
  }

  /**
   * For non-empty paths whose names avoid '>', equal signatures mean equal
   * species sequences and conversely: deduplicating by signature is
   * deduplicating by species sequence.
   */
  lemma SignatureMatchesNames(p: Path, q: Path)
    requires |p| > 0 && |q| > 0
    requires NamesAngleFree(p) && NamesAngleFree(q)
    ensures Signature(p) == Signature(q) <==> Names(p) == Names(q)
  {
    if Signature(p) == Signature(q) {
      JoinInjective(Names(p), Names(q), ">", 0);
    }
  }

  // ---------------------------------------------------------------------------
  // Deduplicating paths
  // ---------------------------------------------------------------------------

  function CollapsedSignature(raw: seq<Path>, k: nat): string
    requires k < |raw|
  {
    Signature(Collapse(raw[k]))
  }

  /**
   * The loop over `rawPaths` with the set `seenSeq`: each raw path is
   * collapsed, and kept unless its signature was seen before.
   */
  function DedupeFrom(raw: seq<Path>, seen: set<string>): (r: seq<Path>)
    ensures |r| <= |raw|
    ensures |raw| > 0 && CollapsedSignature(raw, 0) !in seen ==> |r| > 0
    decreases |raw|
  {
    if |raw| == 0 then []
    else
      var p := Collapse(raw[0]);
      var sig := Signature(p);
      if sig in seen then DedupeFrom(raw[1..], seen)
      else [p] + DedupeFrom(raw[1..], seen + {sig})
  }

  /** `paths` built from `rawPaths`, starting with nothing seen. */
  function Dedupe(raw: seq<Path>): (r: seq<Path>)
    ensures |r| <= |raw|
    ensures |raw| > 0 ==> |r| > 0
  {
    DedupeFrom(raw, {})
  }

  /** Raw path `k` is the first whose collapsed form has its signature. */
  predicate IsFirst(raw: seq<Path>, k: nat)
    requires k < |raw|
  {
    forall j :: 0 <= j < k ==> CollapsedSignature(raw, j) != CollapsedSignature(raw, k)
  }

  /**
   * Reference definition: the collapsed raw paths that are the first of
   * their signature, in the order of the raw paths.
   */
  function FirstOccurrences(raw: seq<Path>): seq<Path>
    decreases |raw|
  {
    if |raw| == 0 then []
    else
      var n := |raw| - 1;
      FirstOccurrences(raw[..n]) + (if IsFirst(raw, n) then [Collapse(raw[n])] else [])
  }

  /** The signatures of the collapsed raw paths. */
  function SeenSet(raw: seq<Path>): set<string> {
    set k | 0 <= k < |raw| :: CollapsedSignature(raw, k)
  }

  lemma SeenSetStep(raw: seq<Path>, m: nat)
    requires m < |raw|
    ensures SeenSet(raw[..m + 1]) == SeenSet(raw[..m]) + {CollapsedSignature(raw, m)}
    ensures CollapsedSignature(raw, m) in SeenSet(raw[..m]) <==> !IsFirst(raw, m)
  {
    var a := raw[..m];
    var b := raw[..m + 1];
    assert forall k :: 0 <= k < m ==> a[k] == raw[k];
    assert forall k :: 0 <= k <= m ==> b[k] == raw[k];
    assert forall k :: 0 <= k < m ==> CollapsedSignature(a, k) == CollapsedSignature(raw, k);
    assert forall k :: 0 <= k <= m ==> CollapsedSignature(b, k) == CollapsedSignature(raw, k);
    assert SeenSet(b) == SeenSet(a) + {CollapsedSignature(raw, m)} by {
      forall x | x in SeenSet(b) ensures x in SeenSet(a) + {CollapsedSignature(raw, m)} {
        var k :| 0 <= k < m + 1 && CollapsedSignature(b, k) == x;
        if k < m { assert CollapsedSignature(a, k) == x; }
      }
      forall x | x in SeenSet(a) ensures x in SeenSet(b) {
        var k :| 0 <= k < m && CollapsedSignature(a, k) == x;
        assert CollapsedSignature(b, k) == x;
      }
      assert CollapsedSignature(b, m) == CollapsedSignature(raw, m);
    }
  }

  lemma FirstOccurrencesStep(raw: seq<Path>, m: nat)
    requires m < |raw|
    ensures FirstOccurrences(raw[..m + 1])
      == FirstOccurrences(raw[..m]) + (if IsFirst(raw, m) then [Collapse(raw[m])] else [])
  {
    var b := raw[..m + 1];
    assert b[..m] == raw[..m];
    assert b[m] == raw[m];
    assert forall k :: 0 <= k <= m ==> CollapsedSignature(b, k) == CollapsedSignature(raw, k);
    assert IsFirst(b, m) == IsFirst(raw, m);
  }

  lemma DedupeFromStep(raw: seq<Path>, m: nat, seen: set<string>)
    requires m < |raw|
    ensures DedupeFrom(raw[m..], seen)
      == (if CollapsedSignature(raw, m) in seen then [] else [Collapse(raw[m])])
         + DedupeFrom(raw[m + 1..], seen + {CollapsedSignature(raw, m)})
  {
    var sig := CollapsedSignature(raw, m);
    assert raw[m..][0] == raw[m];
    assert raw[m..][1..] == raw[m + 1..];
    if sig in seen {
      assert seen + {sig} == seen;
    }
  }

  /** The state of the loop after `n` raw paths: the kept paths so far, then the rest of the loop. */
  predicate SplitHolds(raw: seq<Path>, n: nat)
    requires n <= |raw|
  {
    Dedupe(raw) == FirstOccurrences(raw[..n]) + DedupeFrom(raw[n..], SeenSet(raw[..n]))
  }

  lemma SplitStep(raw: seq<Path>, m: nat)
    requires m < |raw| && SplitHolds(raw, m)
    ensures SplitHolds(raw, m + 1)
  {
    var n := m + 1;
    var F := FirstOccurrences(raw[..m]);
    var S := SeenSet(raw[..m]);
    var sig := CollapsedSignature(raw, m);
    var head := if IsFirst(raw, m) then [Collapse(raw[m])] else [];
    var later := DedupeFrom(raw[n..], S + {sig});
    var S' := SeenSet(raw[..n]);
    assert S' == S + {sig} && (sig in S <==> !IsFirst(raw, m)) by { SeenSetStep(raw, m); }
    assert DedupeFrom(raw[m..], S) == head + later by { DedupeFromStep(raw, m, S); }
    assert FirstOccurrences(raw[..n]) == F + head by { FirstOccurrencesStep(raw, m); }
    Regroup(Dedupe(raw), F, DedupeFrom(raw[m..], S), head, later, FirstOccurrences(raw[..n]));
  }

  lemma Regroup<T>(whole: seq<T>, front: seq<T>, back: seq<T>, head: seq<T>, later: seq<T>, front': seq<T>)
    requires whole == front + back && back == head + later && front' == front + head
    ensures whole == front' + later
  {
  }

  lemma {:induction false} DedupeSplit(raw: seq<Path>, n: nat)
    requires n <= |raw|
    ensures SplitHolds(raw, n)
    decreases n
  {
    if n == 0 {
      assert raw[0..] == raw;
      assert SeenSet(raw[..0]) == {};
    } else {
      DedupeSplit(raw, n - 1);
      SplitStep(raw, n - 1);
    }
  }

  /**
   * The loop keeps exactly the first collapsed raw path of every signature,
   * in the order the raw paths come in.
   */
  lemma DedupeIsFirstOccurrences(raw: seq<Path>)
    ensures Dedupe(raw) == FirstOccurrences(raw)
  {
    DedupeSplit(raw, |raw|);
    assert raw[..|raw|] == raw;
  }

  function SignatureSet(paths: seq<Path>): set<string> {
    set i | 0 <= i < |paths| :: Signature(paths[i])
  }

  /** No path of `r` has a signature in `seen`. */
  predicate FreshFor(r: seq<Path>, seen: set<string>) {
    forall i :: 0 <= i < |r| ==> Signature(r[i]) !in seen
  }

  /** The paths of `r` have pairwise different signatures. */
  predicate DistinctSignatures(r: seq<Path>) {
    forall i, j :: 0 <= i < j < |r| ==> Signature(r[i]) != Signature(r[j])
  }

  lemma ConsFreshDistinct(p: Path, rest: seq<Path>, seen: set<string>)
    requires Signature(p) !in seen
    requires FreshFor(rest, seen + {Signature(p)}) && DistinctSignatures(rest)
    ensures FreshFor([p] + rest, seen) && DistinctSignatures([p] + rest)
  {
    var r := [p] + rest;
    assert forall i :: 0 < i < |r| ==> r[i] == rest[i - 1];
  }

  lemma SignatureSetCons(p: Path, rest: seq<Path>)
    ensures SignatureSet([p] + rest) == {Signature(p)} + SignatureSet(rest)
  {
    var r := [p] + rest;
    assert forall i :: 0 < i < |r| ==> r[i] == rest[i - 1];
    forall x | x in SignatureSet(rest) ensures x in SignatureSet(r) {
      var i :| 0 <= i < |rest| && Signature(rest[i]) == x;
      assert Signature(r[i + 1]) == x;
    }
    assert Signature(r[0]) == Signature(p);
  }

  /** The kept paths have pairwise different signatures, none of them seen before. */
  lemma {:induction false} DedupeFromDistinct(raw: seq<Path>, seen: set<string>)
    ensures FreshFor(DedupeFrom(raw, seen), seen)
    ensures DistinctSignatures(DedupeFrom(raw, seen))
    decreases |raw|
  {
    if |raw| > 0 {
      var p := Collapse(raw[0]);
      var sig := Signature(p);
      if sig !in seen {
        DedupeFromDistinct(raw[1..], seen + {sig});
        ConsFreshDistinct(p, DedupeFrom(raw[1..], seen + {sig}), seen);
      } else {
        DedupeFromDistinct(raw[1..], seen);
      }
    }
  }

  /** Every collapsed raw path's signature is kept or was seen before, and nothing else is kept. */
  lemma {:induction false} DedupeFromCovers(raw: seq<Path>, seen: set<string>)
    ensures SignatureSet(DedupeFrom(raw, seen)) + seen == SeenSet(raw) + seen
    decreases |raw|
  {
    if |raw| == 0 {
      assert SeenSet(raw) == {};
    } else {
      var p := Collapse(raw[0]);
      var sig := Signature(p);
      SeenSetCons(raw);
      assert SeenSet(raw) == {sig} + SeenSet(raw[1..]);
      if sig !in seen {
        var rest := DedupeFrom(raw[1..], seen + {sig});
        assert DedupeFrom(raw, seen) == [p] + rest;
        DedupeFromCovers(raw[1..], seen + {sig});
        SignatureSetCons(p, rest);
      } else {
        assert DedupeFrom(raw, seen) == DedupeFrom(raw[1..], seen);
        DedupeFromCovers(raw[1..], seen);
      }
    }
  }

  lemma SeenSetCons(raw: seq<Path>)
    requires |raw| > 0
    ensures SeenSet(raw) == {CollapsedSignature(raw, 0)} + SeenSet(raw[1..])
  {
    var t := raw[1..];
    assert forall k :: 0 < k < |raw| ==> t[k - 1] == raw[k];
    forall x | x in SeenSet(raw) ensures x in {CollapsedSignature(raw, 0)} + SeenSet(t) {
      var k :| 0 <= k < |raw| && CollapsedSignature(raw, k) == x;
      if k > 0 { assert CollapsedSignature(t, k - 1) == x; }
    }
    forall x | x in SeenSet(t) ensures x in SeenSet(raw) {
      var k :| 0 <= k < |t| && CollapsedSignature(t, k) == x;
      assert CollapsedSignature(raw, k + 1) == x;
    }
  }

  /**
   * The paths kept from a chain have pairwise different signatures, hence
   * pairwise different species sequences, and every collapsed raw path's
   * signature is one of theirs.
   */
  lemma DedupeSignatures(raw: seq<Path>)
    ensures DistinctSignatures(Dedupe(raw))
    ensures forall i, j :: 0 <= i < j < |Dedupe(raw)| ==> Names(Dedupe(raw)[i]) != Names(Dedupe(raw)[j])
    ensures SignatureSet(Dedupe(raw)) == SeenSet(raw)
  {
    DedupeFromDistinct(raw, {});
    DedupeFromCovers(raw, {});
  }

  // ---------------------------------------------------------------------------
  // The paths of one chain
  // ---------------------------------------------------------------------------

  /** Raw paths of the chain, collapsed and deduplicated: the `paths` both views draw. */
  function ChainPaths(root: Option<ChainLink>): seq<Path> {
    Dedupe(RawPaths(root))
  }

  /** `p` is a collapsed root-to-leaf path of the chain, so it starts at the root's step. */
  ghost predicate CollapsedChainPath(root: ChainLink, p: Path) {
    && |p| > 0
    && p[0] == Step(root.species, root.speciesId, None)
    && exists q :: IsChainPath(root, q, None) && p == Collapse(q)
  }

  /**
   * A chain with a root yields at least one path, and each is a collapsed
   * root-to-leaf path starting at the root's step; a missing root yields none.
   */
  lemma ChainPathsShape(root: Option<ChainLink>)
    ensures root.None? ==> ChainPaths(root) == []
    ensures root.Some? ==> |ChainPaths(root)| > 0
    ensures root.Some? ==> forall i :: 0 <= i < |ChainPaths(root)| ==> CollapsedChainPath(root.value, ChainPaths(root)[i])
  {
    if root.Some? {
      var raw := RawPaths(root);
      RawPathsAreRootToLeafPaths(root.value);
      DedupeIsFirstOccurrences(raw);
      var paths := ChainPaths(root);
      assert paths == FirstOccurrences(raw);
      forall i | 0 <= i < |paths| ensures CollapsedChainPath(root.value, paths[i]) {
        var k := FirstOccurrencesFrom(raw, i);
        var q := raw[k];
        assert q in raw;
        assert IsChainPath(root.value, q, None);
        assert paths[i] == Collapse(q);
      }
    }
  }

  /** Every path of the reference list is the collapse of some raw path. */
  lemma {:induction false} FirstOccurrencesFrom(raw: seq<Path>, i: nat) returns (k: nat)
    requires i < |FirstOccurrences(raw)|
    ensures k < |raw| && FirstOccurrences(raw)[i] == Collapse(raw[k])
    decreases |raw|
  {
    var n := |raw| - 1;
    var prefix := FirstOccurrences(raw[..n]);
    if i < |prefix| {
      k := FirstOccurrencesFrom(raw[..n], i);
      assert raw[..n][k] == raw[k];
    } else {
      k := n;
    }
  }

  // ---------------------------------------------------------------------------
  // The chain signature of the catalog
  // ---------------------------------------------------------------------------

  /** `f` applied to every element, in order. */
  function MapSeq<A, B>(f: A -> B, xs: seq<A>): (ys: seq<B>)
    ensures |ys| == |xs|
  {
    seq(|xs|, i requires 0 <= i < |xs| => f(xs[i]))
  }

  /** The signature of each path, in order. */
  function Signatures(paths: seq<Path>): (sigs: seq<string>)
    ensures |sigs| == |paths|
  {
    MapSeq(Signature, paths)
  }

  /** The chain signature: the path signatures, sorted, joined by `|`. */
  function ChainSig(paths: seq<Path>): string {
    Join(Sort(Signatures(paths)), "|")
  }

  /** Removing the element at `j` removes one copy of it from the multiset. */
  lemma MultisetRemoveAt<T>(xs: seq<T>, j: nat)
    requires j < |xs|
    ensures multiset(xs[..j] + xs[j + 1..]) == multiset(xs) - multiset{xs[j]}
  {
    assert xs == xs[..j] + [xs[j]] + xs[j + 1..];
  }

  /** Mapping the list without position `j` loses exactly one copy of the image of element `j`. */
  lemma MapSeqRemoveAt<A, B>(f: A -> B, xs: seq<A>, j: nat)
    requires j < |xs|
    ensures multiset(MapSeq(f, xs)) == multiset(MapSeq(f, xs[..j] + xs[j + 1..])) + multiset{f(xs[j])}
  {
    var a, b := MapSeq(f, xs[..j]), MapSeq(f, xs[j + 1..]);
    var whole := a + [f(xs[j])] + b;
    forall i | 0 <= i < |xs| ensures MapSeq(f, xs)[i] == whole[i] {
      if i > j { assert xs[i] == xs[j + 1..][i - j - 1]; }
    }
    assert MapSeq(f, xs) == whole;
    var rest := xs[..j] + xs[j + 1..];
    forall i | 0 <= i < |rest| ensures MapSeq(f, rest)[i] == (a + b)[i] {
      if i >= j { assert rest[i] == xs[j + 1..][i - j]; }
    }
    assert MapSeq(f, rest) == a + b;
    assert multiset(whole) == multiset(a) + multiset{f(xs[j])} + multiset(b);
  }

  /**
   * Two lists holding the same elements, with the first one's head removed
   * from both, still hold the same elements; `j` is where the head sits in
   * the second list.
   */
  lemma PermutationWithoutHead<A>(xs: seq<A>, ys: seq<A>) returns (j: nat)
    requires |xs| > 0 && multiset(xs) == multiset(ys)
    ensures j < |ys| && ys[j] == xs[0]
    ensures multiset(xs[1..]) == multiset(ys[..j] + ys[j + 1..])
  {
    j := IndexOf(ys, xs[0]);
    var tail := xs[1..];
    assert xs == [xs[0]] + tail;
    MultisetRemoveAt(ys, j);
  }

  /** A position holding `x`. */
  lemma IndexOf<A>(ys: seq<A>, x: A) returns (j: nat)
    requires x in multiset(ys)
    ensures j < |ys| && ys[j] == x
  {
    assert x in ys;
    j :| 0 <= j < |ys| && ys[j] == x;
  }

  /** Reordering a list reorders its image. */
  lemma {:induction false} MapSeqPermutation<A, B>(f: A -> B, xs: seq<A>, ys: seq<A>)
    requires multiset(xs) == multiset(ys)
    ensures multiset(MapSeq(f, xs)) == multiset(MapSeq(f, ys))
    decreases |xs|
  {
    if |xs| == 0 {
      assert |ys| == |multiset(ys)| == 0;
    } else {
      var j := PermutationWithoutHead(xs, ys);
      MapSeqPermutation(f, xs[1..], ys[..j] + ys[j + 1..]);
      MapSeqRemoveAt(f, ys, j);
      MapSeqRemoveAt(f, xs, 0);
      assert xs[..0] + xs[1..] == xs[1..];
    }
  }

  /** Reordering the paths reorders their signatures. */
  lemma SignaturesPermutation(ps: seq<Path>, qs: seq<Path>)
    requires multiset(ps) == multiset(qs)
    ensures multiset(Signatures(ps)) == multiset(Signatures(qs))
  {
    MapSeqPermutation(Signature, ps, qs);
  }

  /** The chain signature does not depend on the order of the paths. */
  lemma ChainSigPermutation(ps: seq<Path>, qs: seq<Path>)
    requires multiset(ps) == multiset(qs)
    ensures ChainSig(ps) == ChainSig(qs)
  {
    SignaturesPermutation(ps, qs);
    SortPermutationInvariant(Signatures(ps), Signatures(qs));
  }

  /**
   * Conversely, when no path signature holds '|', equal chain signatures of
   * non-empty path lists mean the same signatures, counted with multiplicity.
   */
  lemma ChainSigDeterminesSignatures(ps: seq<Path>, qs: seq<Path>)
    requires |ps| > 0 && |qs| > 0
    requires FreeOf(Signatures(ps), '|') && FreeOf(Signatures(qs), '|')
    requires ChainSig(ps) == ChainSig(qs)
    ensures multiset(Signatures(ps)) == multiset(Signatures(qs))
  {
    var a := Sort(Signatures(ps));
    var b := Sort(Signatures(qs));
    assert |a| == |multiset(a)| == |ps|;
    assert |b| == |multiset(b)| == |qs|;
    SortKeepsFree(Signatures(ps), '|');
    SortKeepsFree(Signatures(qs), '|');
    JoinInjective(a, b, "|", 0);
  }

  lemma SortKeepsFree(s: seq<string>, c: char)
    requires FreeOf(s, c)
    ensures FreeOf(Sort(s), c)
  {
    var r := Sort(s);
    forall i | 0 <= i < |r| ensures c !in r[i] {
      assert r[i] in multiset(s);
      var j :| 0 <= j < |s| && s[j] == r[i];
    }
  }

  // ---------------------------------------------------------------------------
  // The evolution catalog
  // ---------------------------------------------------------------------------

  /** A fetched evolution-chain resource; its `chain` may be missing. */
  datatype ChainResource = ChainResource(chain: Option<ChainLink>)

  /**
   * The skip-if-rendered loop, for any entries and any key: entries that are
   * `None` are passed over, an entry whose key is already in `rendered` is
   * skipped, any other is drawn and its key recorded.
   */
  function DrawOnce<T>(entries: seq<Option<T>>, key: T -> string, rendered: set<string>): (drawn: seq<T>)
    ensures |drawn| <= |entries|
    decreases |entries|
  {
    if |entries| == 0 then []
    else if entries[0].None? then DrawOnce(entries[1..], key, rendered)
    else if key(entries[0].value) in rendered then DrawOnce(entries[1..], key, rendered)
    else [entries[0].value] + DrawOnce(entries[1..], key, rendered + {key(entries[0].value)})
  }

  /** The keys of the entries that are present. */
  function ListedKeys<T>(entries: seq<Option<T>>, key: T -> string): set<string> {
    set k | 0 <= k < |entries| && entries[k].Some? :: key(entries[k].value)
  }

  function DrawnKeys<T>(drawn: seq<T>, key: T -> string): set<string> {
    set i | 0 <= i < |drawn| :: key(drawn[i])
  }

  lemma ListedKeysCons<T>(entries: seq<Option<T>>, key: T -> string)
    requires |entries| > 0
    ensures ListedKeys(entries, key)
      == (if entries[0].Some? then {key(entries[0].value)} else {}) + ListedKeys(entries[1..], key)
  {
    var t := entries[1..];
    assert forall k :: 0 < k < |entries| ==> t[k - 1] == entries[k];
    forall x | x in ListedKeys(entries, key)
      ensures x in (if entries[0].Some? then {key(entries[0].value)} else {}) + ListedKeys(t, key)
    {
      var k :| 0 <= k < |entries| && entries[k].Some? && key(entries[k].value) == x;
      if k > 0 { assert t[k - 1].Some? && key(t[k - 1].value) == x; }
    }
    forall x | x in ListedKeys(t, key) ensures x in ListedKeys(entries, key) {
      var k :| 0 <= k < |t| && t[k].Some? && key(t[k].value) == x;
      assert entries[k + 1].Some? && key(entries[k + 1].value) == x;
    }
  }

  lemma DrawnKeysCons<T>(x: T, rest: seq<T>, key: T -> string)
    ensures DrawnKeys([x] + rest, key) == {key(x)} + DrawnKeys(rest, key)
  {
    var r := [x] + rest;
    assert forall i :: 0 < i < |r| ==> r[i] == rest[i - 1];
    forall y | y in DrawnKeys(rest, key) ensures y in DrawnKeys(r, key) {
      var i :| 0 <= i < |rest| && key(rest[i]) == y;
      assert key(r[i + 1]) == y;
    }
    assert key(r[0]) == key(x);
  }

  /** Drawn keys are new: none was rendered before, and no two drawn entries share one. */
  lemma {:induction false} DrawOnceFresh<T>(entries: seq<Option<T>>, key: T -> string, rendered: set<string>)
    ensures forall i :: 0 <= i < |DrawOnce(entries, key, rendered)| ==> key(DrawOnce(entries, key, rendered)[i]) !in rendered
    ensures forall i, j :: 0 <= i < j < |DrawOnce(entries, key, rendered)| ==>
      key(DrawOnce(entries, key, rendered)[i]) != key(DrawOnce(entries, key, rendered)[j])
    decreases |entries|
  {
    if |entries| > 0 {
      var t := entries[1..];
      if entries[0].None? || key(entries[0].value) in rendered {
        DrawOnceFresh(t, key, rendered);
      } else {
        var x := entries[0].value;
        var rest := DrawOnce(t, key, rendered + {key(x)});
        DrawOnceFresh(t, key, rendered + {key(x)});
        var r := [x] + rest;
        assert forall i :: 0 < i < |r| ==> r[i] == rest[i - 1];
      }
    }
  }

  /** Together with the rendered keys, the drawn keys are the keys of the present entries. */
  lemma {:induction false} DrawOnceCovers<T>(entries: seq<Option<T>>, key: T -> string, rendered: set<string>)
    ensures DrawnKeys(DrawOnce(entries, key, rendered), key) + rendered == ListedKeys(entries, key) + rendered
    decreases |entries|
  {
    if |entries| == 0 {
      assert ListedKeys(entries, key) == {};
    } else {
      var t := entries[1..];
      ListedKeysCons(entries, key);
      if entries[0].None? || key(entries[0].value) in rendered {
        DrawOnceCovers(t, key, rendered);
      } else {
        var x := entries[0].value;
        DrawOnceCovers(t, key, rendered + {key(x)});
        DrawnKeysCons(x, DrawOnce(t, key, rendered + {key(x)}), key);
      }
    }
  }

  /** Only present entries are drawn. */
  lemma {:induction false} DrawOnceFromEntries<T>(entries: seq<Option<T>>, key: T -> string, rendered: set<string>)
    ensures forall x :: x in DrawOnce(entries, key, rendered) ==> Some(x) in entries
    decreases |entries|
  {
    if |entries| > 0 {
      var t := entries[1..];
      assert forall y :: y in t ==> y in entries;
      if entries[0].None? || key(entries[0].value) in rendered {
        DrawOnceFromEntries(t, key, rendered);
      } else {
        DrawOnceFromEntries(t, key, rendered + {key(entries[0].value)});
      }
    }
  }

  /**
   * Reference for what the loop draws and in which order: an entry is drawn,
   * in its listing position, exactly when it is present, its key was not
   * rendered before, and no earlier present entry has the same key.
   */
  function FirstKeyed<T>(entries: seq<Option<T>>, key: T -> string, rendered: set<string>): seq<T>
    decreases |entries|
  {
    if |entries| == 0 then []
    else
      var init := entries[..|entries| - 1];
      var e := entries[|entries| - 1];
      FirstKeyed(init, key, rendered)
        + (if e.Some? && key(e.value) !in rendered && key(e.value) !in ListedKeys(init, key) then [e.value] else [])
  }

  /** One more entry at the end is drawn exactly when its key is new to the rendered and earlier listed keys. */
  lemma {:induction false} DrawOnceSnoc<T>(init: seq<Option<T>>, e: Option<T>, key: T -> string, rendered: set<string>)
    ensures DrawOnce(init + [e], key, rendered)
      == DrawOnce(init, key, rendered)
         + (if e.Some? && key(e.value) !in rendered + ListedKeys(init, key) then [e.value] else [])
    decreases |init|
  {
    var tail := if e.Some? && key(e.value) !in rendered + ListedKeys(init, key) then [e.value] else [];
    if |init| == 0 {
      assert ListedKeys(init, key) == {};
      assert [] + [e] == [e];
      assert DrawOnce([e], key, rendered) == tail + DrawOnce([e][1..], key, rendered + (if e.Some? then {key(e.value)} else {}));
    } else {
      var x := init[0];
      var t := init[1..];
      assert (init + [e])[1..] == t + [e];
      ListedKeysCons(init, key);
      if x.None? || key(x.value) in rendered {
        DrawOnceSnoc(t, e, key, rendered);
        assert rendered + ListedKeys(init, key) == rendered + ListedKeys(t, key);
      } else {
        var r' := rendered + {key(x.value)};
        DrawOnceSnoc(t, e, key, r');
        assert r' + ListedKeys(t, key) == rendered + ListedKeys(init, key);
        assert DrawOnce(init + [e], key, rendered) == [x.value] + DrawOnce(t + [e], key, r');
      }
    }
  }

  /** The loop draws exactly the reference's entries, in listing order. */
  lemma {:induction false} DrawOnceIsFirstKeyed<T>(entries: seq<Option<T>>, key: T -> string, rendered: set<string>)
    ensures DrawOnce(entries, key, rendered) == FirstKeyed(entries, key, rendered)
    decreases |entries|
  {
    if |entries| > 0 {
      var init := entries[..|entries| - 1];
      var e := entries[|entries| - 1];
      DrawOnceIsFirstKeyed(init, key, rendered);
      assert entries == init + [e];
      DrawOnceSnoc(init, e, key, rendered);
    }
  }

  /**
   * Nothing is drawn twice: the drawn entries have pairwise different keys,
   * none rendered before; together with the rendered keys they are exactly
   * the keys of the present entries; every drawn entry is a present entry;
   * and the entries are drawn in listing order, the first of each key winning.
   */
  lemma DrawOnceProperties<T>(entries: seq<Option<T>>, key: T -> string, rendered: set<string>)
    ensures forall i :: 0 <= i < |DrawOnce(entries, key, rendered)| ==> key(DrawOnce(entries, key, rendered)[i]) !in rendered
    ensures forall i, j :: 0 <= i < j < |DrawOnce(entries, key, rendered)| ==>
      key(DrawOnce(entries, key, rendered)[i]) != key(DrawOnce(entries, key, rendered)[j])
    ensures DrawnKeys(DrawOnce(entries, key, rendered), key) + rendered == ListedKeys(entries, key) + rendered
    ensures forall x :: x in DrawOnce(entries, key, rendered) ==> Some(x) in entries
    ensures DrawOnce(entries, key, rendered) == FirstKeyed(entries, key, rendered)
  {
    DrawOnceIsFirstKeyed(entries, key, rendered);
    DrawOnceFresh(entries, key, rendered);
    DrawOnceCovers(entries, key, rendered);
    DrawOnceFromEntries(entries, key, rendered);
  }

  function ChainSigOf(res: ChainResource): string {
    ChainSig(ChainPaths(res.chain))
  }

  /**
   * The catalog loop over the listed creatures: one entry per creature, `None`
   * when its species has no evolution-chain link. A chain whose signature was
   * already drawn is skipped; every other chain is drawn, as the card of its
   * `ChainPaths`, in this order.
   */
  function Catalog(chains: seq<Option<ChainResource>>): (drawn: seq<ChainResource>)
    ensures |drawn| <= |chains|
  {
    DrawOnce(chains, ChainSigOf, {})
  }

  /**
   * The catalog draws every listed chain exactly once: the drawn chains have
   * pairwise different chain signatures, the signatures drawn are exactly
   * those of the listed chains, and only listed chains are drawn, in listing
   * order, the first listed chain of each signature being the one drawn.
   */
  lemma CatalogDrawsEachChainOnce(chains: seq<Option<ChainResource>>)
    ensures forall i, j :: 0 <= i < j < |Catalog(chains)| ==> ChainSigOf(Catalog(chains)[i]) != ChainSigOf(Catalog(chains)[j])
    ensures DrawnKeys(Catalog(chains), ChainSigOf) == ListedKeys(chains, ChainSigOf)
    ensures forall res :: res in Catalog(chains) ==> Some(res) in chains
    ensures Catalog(chains) == FirstKeyed(chains, ChainSigOf, {})
  {
    DrawOnceProperties(chains, ChainSigOf, {});
  }

  /**
   * Two drawn chains never have the same paths in another order: a chain
   * whose paths are a reordering of a drawn chain's is recognised and skipped.
   */
  lemma CatalogSkipsReorderedChains(chains: seq<Option<ChainResource>>)
    ensures forall i, j :: 0 <= i < j < |Catalog(chains)| ==>
      multiset(ChainPaths(Catalog(chains)[i].chain)) != multiset(ChainPaths(Catalog(chains)[j].chain))
  {
    var drawn := Catalog(chains);
    CatalogDrawsEachChainOnce(chains);
    forall i, j | 0 <= i < j < |drawn|
      ensures multiset(ChainPaths(drawn[i].chain)) != multiset(ChainPaths(drawn[j].chain))
    {
      if multiset(ChainPaths(drawn[i].chain)) == multiset(ChainPaths(drawn[j].chain)) {
        ChainSigPermutation(ChainPaths(drawn[i].chain), ChainPaths(drawn[j].chain));
        assert false;
      }
    }
  }

  // ---------------------------------------------------------------------------
  // Labels between steps and the names to prefetch
  // ---------------------------------------------------------------------------

  /**
   * The chip drawn before a step: the label of its condition (of the empty
   * condition when it has none), with the arrow as a fallback for an empty label.
   * The formatter never returns the empty string, so the trailing fallback
   * never fires, and a step without a condition gets the arrow.
   */
  function EdgeLabel(step: Step): (s: string)
    ensures s == Format(step.cond.GetOr(NoCondition))
    ensures step.cond.None? ==> s == "→"
  {
    var text := Format(step.cond.GetOr(NoCondition));
    if text == "" then "→" else text
  }

  /** The names of all steps of all paths, path after path. */
  function AllNames(paths: seq<Path>): seq<string> {
    if |paths| == 0 then [] else Names(paths[0]) + AllNames(paths[1..])
  }

  /** Each name at its first occurrence, in order, leaving out those in `seen`. */
  function Distinct(names: seq<string>, seen: set<string>): (r: seq<string>)
    ensures forall i, j :: 0 <= i < j < |r| ==> r[i] != r[j]
    ensures forall x :: x in r <==> x in names && x !in seen
    decreases |names|
  {
    if |names| == 0 then []
    else if names[0] in seen then Distinct(names[1..], seen)
    else [names[0]] + Distinct(names[1..], seen + {names[0]})
  }

  /** The species to prefetch: every name of every path, each once. */
  function UniqueNames(paths: seq<Path>): (r: seq<string>)
    ensures forall i, j :: 0 <= i < j < |r| ==> r[i] != r[j]
    ensures forall x :: x in r <==> x in AllNames(paths)
  {
    Distinct(AllNames(paths), {})
  }

  /**
   * Reference for the order of the prefetch list: a name is kept exactly at
   * the position where it is seen for the first time.
   */
  function FirstNames(ns: seq<string>): (r: seq<string>)
    decreases |ns|
  {
    if |ns| == 0 then []
    else
      var init := ns[..|ns| - 1];
      FirstNames(init) + (if ns[|ns| - 1] in init then [] else [ns[|ns| - 1]])
  }

  /** Resolving names after a prefix `p` continues its first-seen list. */
  lemma {:induction false} DistinctContinuesFirstNames(p: seq<string>, s: seq<string>)
    ensures FirstNames(p + s) == FirstNames(p) + Distinct(s, set x | x in p)
    decreases |s|
  {
    if |s| > 0 {
      var x := s[0];
      var p' := p + [x];
      assert p + s == p' + s[1..];
      DistinctContinuesFirstNames(p', s[1..]);
      assert p'[..|p'| - 1] == p;
      assert (set y | y in p') == (set y | y in p) + {x};
      if x in p {
        assert (set y | y in p') == (set y | y in p);
      }
    } else {
      assert p + s == p;
    }
  }

  /** The prefetch list keeps every name at its first occurrence, in the order the paths name them. */
  lemma UniqueNamesInFirstSeenOrder(paths: seq<Path>)
    ensures UniqueNames(paths) == FirstNames(AllNames(paths))
  {
    DistinctContinuesFirstNames([], AllNames(paths));
    assert [] + AllNames(paths) == AllNames(paths);
    assert (set x: string | x in []) == {};
  }
}
