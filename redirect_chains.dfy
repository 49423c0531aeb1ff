/**
 * The chain walk of the redirect analyser (redirect_analyzer.js, findRedirectChains
 * and its helpers). Every source of the redirect map is followed hop by hop until
 * the hop leaves the site, comes back to a path already in the chain, or stops at
 * a path that has no further redirect and is then looked up in the built site.
 *
 * The redirect map is given as `m`, with `keys` its own keys in `Object.entries`
 * order. The file system is the `Disk` parameter.
 */
module RedirectChains {
  import opened Wrappers
  import opened Text

  /** `isExternalUrl`: the scheme is http or https, or the URL is protocol-relative. */
  predicate IsExternalUrl(url: string)
  {
    StartsWith(url, "http://") || StartsWith(url, "https://") || StartsWith(url, "//")
  }

  /**
   * What the analyser sees of the built site: `join` is `path.join(outPath, ·)`
   * and `fileExists` is the analyser's `fileExists`, which reads any error of the probe as "absent".
   */
  datatype Disk = Disk(join: string -> string, fileExists: string -> bool)

  /** The `{ exists, path }` record of checkFileInOut, with `exists` named `found`. */
  datatype FileCheck = FileCheck(found: bool, path: string)

  /** The relative paths checkFileInOut probes, in order: one leading slash removed, then also without `.html`. */
  function ProbedPaths(target: string): (ps: seq<string>)
  {
    var clean := if StartsWith(target, "/") then target[1..] else target;
    if EndsWith(clean, ".html") then [clean, clean[..|clean| - 5]] else [clean]
  }

  /** `checkFileInOut` (lines 30-49). */
  function CheckFileInOut(target: string, disk: Disk): FileCheck
  {
    var cleanPath := if StartsWith(target, "/") then target[1..] else target;
    var fullPath := disk.join(cleanPath);
    if disk.fileExists(fullPath) then
      FileCheck(true, fullPath)
    else if EndsWith(cleanPath, ".html") && disk.fileExists(disk.join(cleanPath[..|cleanPath| - 5])) then
      FileCheck(true, disk.join(cleanPath[..|cleanPath| - 5]))
    else
      FileCheck(false, fullPath)
  }

  /**
   * checkFileInOut reports the first probed path that exists, and on a miss the
   * first probed path.
   */
  lemma CheckFileInOutFirstHit(target: string, disk: Disk)
    ensures var r, ps := CheckFileInOut(target, disk), ProbedPaths(target);
      && (r.found <==> exists i :: 0 <= i < |ps| && disk.fileExists(disk.join(ps[i])))
      && (r.found ==> exists i :: 0 <= i < |ps| && r.path == disk.join(ps[i]) && disk.fileExists(r.path)
                                 && forall j :: 0 <= j < i ==> !disk.fileExists(disk.join(ps[j])))
      && (!r.found ==> r.path == disk.join(ps[0]))
  {
    var cleanPath := if StartsWith(target, "/") then target[1..] else target;
    var ps := ProbedPaths(target);
    assert ps[0] == cleanPath;
    if EndsWith(cleanPath, ".html") {
      assert ps[1] == cleanPath[..|cleanPath| - 5];
    }
  }

  /**
   * One entry of the `chains` or `invalidRedirects` arrays. The source's `valid`
   * flag and `error` text are fixed by the kind; `externalUrl` and `missingFile`
   * repeat `finalTarget`.
   */
  datatype ChainResult =
    | Circular(chain: seq<string>)
    | Valid(chain: seq<string>, finalTarget: string, finalFile: string)
    | External(chain: seq<string>, finalTarget: string, externalUrl: string)
    | MissingFile(chain: seq<string>, finalTarget: string, missingFile: string, attemptedPath: string)

  /** The `type` field of a result. */
  datatype Kind = CircularKind | ValidKind | ExternalKind | MissingKind

  function KindOf(r: ChainResult): Kind
  {
    match r
    case Circular(_) => CircularKind
    case Valid(_, _, _) => ValidKind
    case External(_, _, _) => ExternalKind
    case MissingFile(_, _, _, _) => MissingKind
  }

  /** The kinds findRedirectChains pushes onto `chains`; missing files go to `invalidRedirects`. */
  const ChainKinds: set<Kind> := {CircularKind, ValidKind, ExternalKind}

  /** The results of the given kinds, in their original order (`Array.prototype.filter`). */
  function OfKinds(rs: seq<ChainResult>, kinds: set<Kind>): (r: seq<ChainResult>)
    ensures forall i :: 0 <= i < |r| ==> KindOf(r[i]) in kinds && r[i] in rs
  {
    if rs == [] then []
    else
      var last := rs[|rs| - 1];
      OfKinds(rs[..|rs| - 1], kinds) + (if KindOf(last) in kinds then [last] else [])
  }

  lemma {:induction false} OfKindsAppend(rs: seq<ChainResult>, more: seq<ChainResult>, kinds: set<Kind>)
    ensures OfKinds(rs + more, kinds) == OfKinds(rs, kinds) + OfKinds(more, kinds)
    decreases |more|
  {
    if more == [] {
      assert rs + more == rs;
    } else {
      var n := |more| - 1;
      assert (rs + more)[..|rs + more| - 1] == rs + more[..n];
      OfKindsAppend(rs, more[..n], kinds);
    }
  }

  lemma OfKindsSingle(r: ChainResult, kinds: set<Kind>)
    ensures OfKinds([r], kinds) == if KindOf(r) in kinds then [r] else []
  {
    assert [r][..0] == [];
  }

  /** The filter keeps exactly the results of the given kinds. */
  lemma {:induction false} OfKindsMember(rs: seq<ChainResult>, kinds: set<Kind>, x: ChainResult)
    ensures x in OfKinds(rs, kinds) <==> x in rs && KindOf(x) in kinds
  {
    if rs != [] {
      var n := |rs| - 1;
      OfKindsMember(rs[..n], kinds, x);
      assert rs == rs[..n] + [rs[n]];
    }
  }

  lemma {:induction false} OfKindsNone(rs: seq<ChainResult>, kinds: set<Kind>)
    requires forall r :: r in rs ==> KindOf(r) !in kinds
    ensures OfKinds(rs, kinds) == []
  {
    if rs != [] {
      var n := |rs| - 1;
      assert rs[n] in rs;
      assert forall r :: r in rs[..n] ==> r in rs;
      OfKindsNone(rs[..n], kinds);
    }
  }

  /** Filtering by disjoint kinds splits the results: the parts add up to the whole. */
  lemma {:induction false} OfKindsSplit(rs: seq<ChainResult>)
    ensures |OfKinds(rs, {CircularKind})| + |OfKinds(rs, {ValidKind})| + |OfKinds(rs, {ExternalKind})|
            + |OfKinds(rs, {MissingKind})| == |rs|
  {
    if rs != [] {
      OfKindsSplit(rs[..|rs| - 1]);
    }
  }

  function Last(s: seq<string>): string
    requires |s| > 0
  {
    s[|s| - 1]
  }

  function Elems(s: seq<string>): set<string>
  {
    set x | x in s
  }

  /** `redirects[x]` is truthy: `x` is a key whose target is not the empty string. */
  predicate HasHop(m: map<string, string>, x: string)
  {
    x in m && m[x] != ""
  }

  /** Each entry of the chain redirects to the next one. */
  ghost predicate Linked(m: map<string, string>, chain: seq<string>)
  {
    forall i :: 0 <= i < |chain| - 1 ==> chain[i] in m && m[chain[i]] == chain[i + 1]
  }

  ghost predicate Distinct(s: seq<string>)
  {
    forall i, j :: 0 <= i < j < |s| ==> s[i] != s[j]
  }

  /** The result recorded when the walk stops at a target with no further hop (lines 84-103). */
  function Terminal(chain: seq<string>, target: string, disk: Disk): ChainResult
  {
    var fileCheck := CheckFileInOut(target, disk);
    if fileCheck.found then Valid(chain, target, fileCheck.path)
    else MissingFile(chain, target, target, fileCheck.path)
  }

  /** The loop variables when the `while` loop ends, and the result it pushed before a `break`, if any. */
  datatype LoopExit = LoopExit(chain: seq<string>, chainVisited: set<string>, currentTarget: string,
                               pushed: Option<ChainResult>)

  /**
   * The state in which the `while` loop of findRedirectChains (lines 64-106)
   * ends when it is entered with the given loop variables. Every hop that does not
   * end the loop adds to `chainVisited` a target of the map that was not yet in it,
   * which is why the loop ends.
   */
  function Follow(m: map<string, string>, disk: Disk, chain: seq<string>, chainVisited: set<string>,
                  currentTarget: string): LoopExit
    decreases (m.Values + {currentTarget}) - chainVisited
  {
    if currentTarget == "" || IsExternalUrl(currentTarget) then
      LoopExit(chain, chainVisited, currentTarget, None)
    else if currentTarget in chainVisited then
      LoopExit(chain, chainVisited, currentTarget, Some(Circular(chain + [currentTarget])))
    else
      var chain', chainVisited' := chain + [currentTarget], chainVisited + {currentTarget};
      if HasHop(m, currentTarget) then
        assert m[currentTarget] in m.Values;
        Follow(m, disk, chain', chainVisited', m[currentTarget])
      else
        LoopExit(chain', chainVisited', currentTarget, Some(Terminal(chain', currentTarget, disk)))
  }

  /** What processing one unvisited source adds: its result, if any, and the paths its walk visited. */
  datatype Traced = Traced(result: Option<ChainResult>, chainVisited: set<string>)

  /** One pass of the outer loop body for an unvisited source (lines 59-117). */
  function TraceSource(m: map<string, string>, disk: Disk, source: string): Traced
    requires source in m
  {
    var e := Follow(m, disk, [source], {source}, m[source]);
    if IsExternalUrl(e.currentTarget) then
      Traced(Some(External(e.chain, e.currentTarget, e.currentTarget)), e.chainVisited)
    else
      Traced(e.pushed, e.chainVisited)
  }

  function OptionToSeq(o: Option<ChainResult>): seq<ChainResult>
  {
    if o.Some? then [o.value] else []
  }

  /** The results in the order they were produced, and the global `visited` set. */
  datatype ScanState = ScanState(results: seq<ChainResult>, visited: set<string>)

  /** One iteration of the outer `for` loop (lines 56-123). */
  function ScanStep(m: map<string, string>, disk: Disk, st: ScanState, source: string): ScanState
    requires source in m
  {
    if source in st.visited then st
    else
      var t := TraceSource(m, disk, source);
      ScanState(st.results + OptionToSeq(t.result), st.visited + t.chainVisited)
  }

  /** The outer loop run over the given keys, in order. */
  function Scan(m: map<string, string>, disk: Disk, keys: seq<string>): ScanState
    requires forall i :: 0 <= i < |keys| ==> keys[i] in m
  {
    if keys == [] then ScanState([], {})
    else ScanStep(m, disk, Scan(m, disk, keys[..|keys| - 1]), keys[|keys| - 1])
  }

  /** How the results of one unvisited source extend the two arrays, given the state the walk ends in. */
  lemma SourceStep(m: map<string, string>, disk: Disk, source: string, before: seq<ChainResult>, e: LoopExit)
    requires source in m && Follow(m, disk, [source], {source}, m[source]) == e
    requires e.pushed.Some? ==> !IsExternalUrl(e.currentTarget)
    ensures var added := if IsExternalUrl(e.currentTarget) then [External(e.chain, e.currentTarget, e.currentTarget)]
                         else OptionToSeq(e.pushed);
      && TraceSource(m, disk, source) == Traced(if added == [] then None else Some(added[0]), e.chainVisited)
      && OfKinds(before + added, ChainKinds)
         == OfKinds(before, ChainKinds) + OfKinds(OptionToSeq(e.pushed), ChainKinds)
            + (if IsExternalUrl(e.currentTarget) then added else [])
      && OfKinds(before + added, {MissingKind})
         == OfKinds(before, {MissingKind}) + OfKinds(OptionToSeq(e.pushed), {MissingKind})
  {
    StepKinds(before, e.pushed, IsExternalUrl(e.currentTarget), External(e.chain, e.currentTarget, e.currentTarget));
  }

  /**
   * How one step extends the results, split by kind: `added` is the external
   * result when the walk ended at an external URL, and the pushed result otherwise.
   */
  lemma StepKinds(before: seq<ChainResult>, pushed: Option<ChainResult>, ext: bool, x: ChainResult)
    requires x.External? && (pushed.Some? ==> !ext)
    ensures var added := if ext then [x] else OptionToSeq(pushed);
      && OfKinds(before + added, ChainKinds)
         == OfKinds(before, ChainKinds) + OfKinds(OptionToSeq(pushed), ChainKinds) + (if ext then added else [])
      && OfKinds(before + added, {MissingKind})
         == OfKinds(before, {MissingKind}) + OfKinds(OptionToSeq(pushed), {MissingKind})
  {
    var added := if ext then [x] else OptionToSeq(pushed);
    OfKindsAppend(before, added, ChainKinds);
    OfKindsAppend(before, added, {MissingKind});
    if ext {
      OfKindsSingle(x, ChainKinds);
      OfKindsSingle(x, {MissingKind});
      assert OptionToSeq(pushed) == [];
    } else if pushed.Some? {
      OfKindsSingle(pushed.value, ChainKinds);
      OfKindsSingle(pushed.value, {MissingKind});
    }
  }

  /** Where a pushed result goes: a missing file to `invalidRedirects`, any other result to `chains`. */
  /** Helper for SourceStep: OfKindsSingle written as the two arrays' appends. */
  lemma PushedKinds(r: ChainResult, chains0: seq<ChainResult>, invalid0: seq<ChainResult>)
    ensures !r.MissingFile? ==>
      (chains0 + [r] == chains0 + OfKinds(OptionToSeq(Some(r)), ChainKinds)
       && invalid0 == invalid0 + OfKinds(OptionToSeq(Some(r)), {MissingKind}))
    ensures r.MissingFile? ==>
      (chains0 == chains0 + OfKinds(OptionToSeq(Some(r)), ChainKinds)
       && invalid0 + [r] == invalid0 + OfKinds(OptionToSeq(Some(r)), {MissingKind}))
  {
    OfKindsSingle(r, ChainKinds);
    OfKindsSingle(r, {MissingKind});
    assert chains0 + [] == chains0 && invalid0 + [] == invalid0;
  }

  /**
   * The body of the outer loop of findRedirectChains for a source not yet
   * visited (lines 59-117): walk the chain, push its result onto `chains` or
   * `invalidRedirects`, and hand back the paths the walk visited.
   */
  method FollowSource(m: map<string, string>, disk: Disk, source: string,
                      chains0: seq<ChainResult>, invalid0: seq<ChainResult>, ghost before: seq<ChainResult>)
    returns (chains: seq<ChainResult>, invalidRedirects: seq<ChainResult>, chainVisited: set<string>)
    requires source in m
    requires chains0 == OfKinds(before, ChainKinds) && invalid0 == OfKinds(before, {MissingKind})
    ensures var t := TraceSource(m, disk, source);
      && chains == OfKinds(before + OptionToSeq(t.result), ChainKinds)
      && invalidRedirects == OfKinds(before + OptionToSeq(t.result), {MissingKind})
      && chainVisited == t.chainVisited
  {
    chains, invalidRedirects := chains0, invalid0;
    var chain := [source];
    var currentTarget := m[source];
    chainVisited := {source};
    ghost var exit := Follow(m, disk, chain, chainVisited, currentTarget);
    ghost var pushed: Option<ChainResult> := None;
    while currentTarget != "" && !IsExternalUrl(currentTarget)
      invariant Follow(m, disk, chain, chainVisited, currentTarget) == exit
      invariant chainVisited <= m.Values + {source}
      invariant pushed == None && chains == chains0 && invalidRedirects == invalid0
      decreases (m.Values + {currentTarget}) - chainVisited
    {
      if currentTarget in chainVisited {
        chains := chains + [Circular(chain + [currentTarget])];
        pushed := Some(Circular(chain + [currentTarget]));
        PushedKinds(pushed.value, chains0, invalid0);
        break;
      }
      chain := chain + [currentTarget];
      chainVisited := chainVisited + {currentTarget};
      if currentTarget in m && m[currentTarget] != "" {
        assert m[currentTarget] in m.Values;
        currentTarget := m[currentTarget];
      } else {
        var fileCheck := CheckFileInOut(currentTarget, disk);
        if fileCheck.found {
          chains := chains + [Valid(chain, currentTarget, fileCheck.path)];
          pushed := Some(Valid(chain, currentTarget, fileCheck.path));
        } else {
          invalidRedirects := invalidRedirects + [MissingFile(chain, currentTarget, currentTarget, fileCheck.path)];
          pushed := Some(MissingFile(chain, currentTarget, currentTarget, fileCheck.path));
        }
        PushedKinds(pushed.value, chains0, invalid0);
        break;
      }
    }
    assert exit == LoopExit(chain, chainVisited, currentTarget, pushed);
    assert pushed.Some? ==> !IsExternalUrl(currentTarget);
    if pushed.None? {
      assert chains == chains0 + [] && invalidRedirects == invalid0 + [];
    }
    SourceStep(m, disk, source, before, exit);
    if IsExternalUrl(currentTarget) {
      chains := chains + [External(chain, currentTarget, currentTarget)];
    }
  }

  /**
   * `findRedirectChains`: the `chains` and `invalidRedirects` arrays are the
   * results of the outer loop over the map's entries, split by kind, each in the
   * order the results were produced.
   */
  method FindRedirectChains(keys: seq<string>, m: map<string, string>, disk: Disk)
    returns (chains: seq<ChainResult>, invalidRedirects: seq<ChainResult>)
    requires forall i :: 0 <= i < |keys| ==> keys[i] in m
    ensures chains == OfKinds(Scan(m, disk, keys).results, ChainKinds)
    ensures invalidRedirects == OfKinds(Scan(m, disk, keys).results, {MissingKind})
  {
    chains, invalidRedirects := [], [];
    var visited: set<string> := {};
    for i := 0 to |keys|
      invariant chains == OfKinds(Scan(m, disk, keys[..i]).results, ChainKinds)
      invariant invalidRedirects == OfKinds(Scan(m, disk, keys[..i]).results, {MissingKind})
      invariant visited == Scan(m, disk, keys[..i]).visited
    {
      var source := keys[i];
      assert keys[..i + 1][..i] == keys[..i];
      if source in visited {
        continue;
      }
      var chainVisited;
      chains, invalidRedirects, chainVisited :=
        FollowSource(m, disk, source, chains, invalidRedirects, Scan(m, disk, keys[..i]).results);
      visited := visited + chainVisited;
    }
    assert keys[..|keys|] == keys;
  }

  // ---------------------------------------------------------------------------
  // What one walk produces

  /** The loop variables in the source's own terms: a distinct, linked chain whose hops after the first are site paths. */
  ghost predicate ChainShape(m: map<string, string>, chain: seq<string>, chainVisited: set<string>)
  {
    && |chain| > 0 && chainVisited == Elems(chain) && Distinct(chain) && Linked(m, chain)
    && forall i :: 1 <= i < |chain| ==> chain[i] != "" && !IsExternalUrl(chain[i])
  }

  /** `currentTarget` is the hop still to be taken from the chain's last entry. */
  ghost predicate Pending(m: map<string, string>, chain: seq<string>, currentTarget: string)
  {
    && |chain| > 0 && Last(chain) in m && m[Last(chain)] == currentTarget
    && (|chain| > 1 ==> currentTarget != "")
  }

  /** How the loop can end: by its condition, at a repeated hop, or at a target without a hop. */
  ghost predicate ExitOk(m: map<string, string>, disk: Disk, e: LoopExit)
  {
    && ChainShape(m, e.chain, e.chainVisited)
    && match e.pushed
       case None =>
         Pending(m, e.chain, e.currentTarget) && (e.currentTarget == "" || IsExternalUrl(e.currentTarget))
       case Some(r) =>
         && e.currentTarget != "" && !IsExternalUrl(e.currentTarget)
         && if r.Circular? then
              Pending(m, e.chain, e.currentTarget) && e.currentTarget in e.chainVisited
              && r.chain == e.chain + [e.currentTarget]
            else
              Last(e.chain) == e.currentTarget && !HasHop(m, e.currentTarget)
              && r == Terminal(e.chain, e.currentTarget, disk)
  }

  /** The loop keeps the chain's shape, only ever extends the chain, and ends in one of the three ways. */
  lemma {:induction false} FollowExit(m: map<string, string>, disk: Disk, chain: seq<string>,
                                      chainVisited: set<string>, currentTarget: string)
    requires ChainShape(m, chain, chainVisited) && Pending(m, chain, currentTarget)
    ensures var e := Follow(m, disk, chain, chainVisited, currentTarget);
      ExitOk(m, disk, e) && |chain| <= |e.chain| && e.chain[..|chain|] == chain
    decreases (m.Values + {currentTarget}) - chainVisited
  {
    if currentTarget == "" || IsExternalUrl(currentTarget) || currentTarget in chainVisited {
    } else {
      var chain', chainVisited' := chain + [currentTarget], chainVisited + {currentTarget};
      assert Elems(chain') == chainVisited';
      assert Linked(m, chain');
      assert Last(chain') == currentTarget;
      if HasHop(m, currentTarget) {
        assert m[currentTarget] in m.Values;
        FollowExit(m, disk, chain', chainVisited', m[currentTarget]);
        var e := Follow(m, disk, chain', chainVisited', m[currentTarget]);
        assert e.chain[..|chain|] == e.chain[..|chain'|][..|chain|];
      }
    }
  }

  /** Every result of a walk, with the paths it visited, for a source whose target is not empty. */
  lemma TraceShape(m: map<string, string>, disk: Disk, source: string)
    requires source in m
    ensures var t := TraceSource(m, disk, source);
      && (t.result.None? <==> m[source] == "")
      && (t.result.None? ==> t.chainVisited == {source})
      && (t.result.Some? ==> t.chainVisited == Elems(t.result.value.chain))
  {
    FollowExit(m, disk, [source], {source}, m[source]);
    var e := Follow(m, disk, [source], {source}, m[source]);
    if e.pushed.Some? && e.pushed.value.Circular? {
      assert Elems(e.chain + [e.currentTarget]) == e.chainVisited;
    }
    if e.pushed.None? && m[source] == "" {
      assert e.chain == [source];
    }
  }

  /**
   * Every recorded chain starts with its source and is linked by the map
   * (`redirects[chain[i]] == chain[i + 1]`); only a source whose target is the
   * empty string records nothing.
   */
  lemma ChainStartsAtSourceAndIsLinked(m: map<string, string>, disk: Disk, source: string)
    requires source in m
    ensures TraceSource(m, disk, source).result.None? <==> m[source] == ""
    ensures match TraceSource(m, disk, source).result
      case None => true
      case Some(r) => |r.chain| > 0 && r.chain[0] == source && Linked(m, r.chain)
  {
    TraceShape(m, disk, source);
    FollowExit(m, disk, [source], {source}, m[source]);
    var e := Follow(m, disk, [source], {source}, m[source]);
    assert e.chain[..1] == [source];
  }

  /**
   * The walk only visits the source and targets of the map: every chain entry
   * is drawn from `{source} + values(redirects)`.
   */
  lemma ChainDrawnFromTargets(m: map<string, string>, disk: Disk, source: string)
    requires source in m
    ensures match TraceSource(m, disk, source).result
      case None => true
      case Some(r) => Elems(r.chain) <= {source} + m.Values
  {
    ChainStartsAtSourceAndIsLinked(m, disk, source);
    match TraceSource(m, disk, source).result
    case None =>
    case Some(r) =>
      forall x | x in Elems(r.chain) ensures x in {source} + m.Values {
        var i :| 0 <= i < |r.chain| && r.chain[i] == x;
        if i > 0 {
          assert m[r.chain[i - 1]] == x;
        }
      }
  }

  /**
   * A chain is recorded as circular exactly when it repeats an entry. A
   * circular chain repeats only its last entry, which is at least its second;
   * every other chain is repetition-free.
   */
  lemma CircularExactlyOnRepeat(m: map<string, string>, disk: Disk, source: string)
    requires source in m
    ensures match TraceSource(m, disk, source).result
      case None => true
      case Some(r) =>
        && (r.Circular? <==> !Distinct(r.chain))
        && (r.Circular? ==> |r.chain| >= 2 && Distinct(r.chain[..|r.chain| - 1])
                            && Last(r.chain) in r.chain[..|r.chain| - 1])
  {
    FollowExit(m, disk, [source], {source}, m[source]);
    var e := Follow(m, disk, [source], {source}, m[source]);
    match TraceSource(m, disk, source).result
    case None =>
    case Some(r) =>
      if r.Circular? {
        assert r.chain[..|r.chain| - 1] == e.chain;
        var k :| 0 <= k < |e.chain| && e.chain[k] == e.currentTarget;
        assert r.chain[k] == r.chain[|r.chain| - 1];
      }
  }

  /** A self-redirect `A -> A` is the circular chain `[A, A]`. */
  lemma SelfRedirectIsCircular(m: map<string, string>, disk: Disk, a: string)
    requires a in m && m[a] == a && a != "" && !IsExternalUrl(a)
    ensures TraceSource(m, disk, a).result == Some(Circular([a, a]))
  {
    assert [a] + [a] == [a, a];
    assert Follow(m, disk, [a], {a}, a) == LoopExit([a], {a}, a, Some(Circular([a, a])));
  }

  /**
   * A chain is external exactly when its last entry has a hop and that hop is an
   * external URL; the URL is then `finalTarget` and `externalUrl`, and no entry
   * after the source is an external URL.
   */
  lemma ExternalExactlyAtExternalHop(m: map<string, string>, disk: Disk, source: string)
    requires source in m
    ensures match TraceSource(m, disk, source).result
      case None => true
      case Some(r) =>
        && |r.chain| > 0
        && (r.External? <==> HasHop(m, Last(r.chain)) && IsExternalUrl(m[Last(r.chain)]))
        && (r.External? ==> r.finalTarget == r.externalUrl == m[Last(r.chain)])
        && (forall i :: 1 <= i < |r.chain| ==> !IsExternalUrl(r.chain[i]))
  {
    FollowExit(m, disk, [source], {source}, m[source]);
    var e := Follow(m, disk, [source], {source}, m[source]);
    match TraceSource(m, disk, source).result
    case None =>
    case Some(r) =>
      if r.Circular? {
        var k :| 0 <= k < |e.chain| && e.chain[k] == e.currentTarget;
        assert Last(r.chain) == e.chain[k];
        if k < |e.chain| - 1 {
          assert m[e.chain[k]] == e.chain[k + 1];
        } else {
          assert m[e.chain[k]] == e.currentTarget;
        }
      }
  }

  /**
   * A chain that neither loops nor leaves the site ends at a target with no hop;
   * it is valid, with the file found, exactly when checkFileInOut finds that
   * target, and otherwise a missing file with the path that was tried.
   */
  lemma TerminalClassification(m: map<string, string>, disk: Disk, source: string)
    requires source in m
    ensures match TraceSource(m, disk, source).result
      case None => true
      case Some(r) =>
        |r.chain| > 0 && (!r.Circular? && !r.External? ==>
          var check := CheckFileInOut(Last(r.chain), disk);
          && r.finalTarget == Last(r.chain) && !HasHop(m, Last(r.chain))
          && (r.Valid? <==> check.found)
          && (r.Valid? ==> r.finalFile == check.path)
          && (r.MissingFile? ==> r.missingFile == r.finalTarget && r.attemptedPath == check.path))
  {
    FollowExit(m, disk, [source], {source}, m[source]);
  }

  // ---------------------------------------------------------------------------
  // What the outer loop produces

  /** The paths of all chains of the results. */
  function Covered(rs: seq<ChainResult>): set<string>
  {
    if rs == [] then {} else Covered(rs[..|rs| - 1]) + Elems(rs[|rs| - 1].chain)
  }

  lemma {:induction false} CoveredMember(rs: seq<ChainResult>, x: string)
    ensures x in Covered(rs) <==> exists j :: 0 <= j < |rs| && x in rs[j].chain
  {
    if rs != [] {
      var n := |rs| - 1;
      CoveredMember(rs[..n], x);
      if x in Covered(rs[..n]) {
        var j :| 0 <= j < n && x in rs[..n][j].chain;
        assert x in rs[j].chain;
      }
      if exists j :: 0 <= j < |rs| && x in rs[j].chain {
        var j :| 0 <= j < |rs| && x in rs[j].chain;
        if j < n { assert x in rs[..n][j].chain; }
      }
    }
  }

  /** The invariant of the outer loop, over the keys processed so far. */
  ghost predicate ScanInvariant(m: map<string, string>, disk: Disk, keys: seq<string>, st: ScanState)
  {
    && st.visited == Covered(st.results) + Elems(keys)
    && (forall j :: 0 <= j < |st.results| ==>
          |st.results[j].chain| > 0 && st.results[j].chain[0] in keys && st.results[j].chain[0] in m
          && TraceSource(m, disk, st.results[j].chain[0]).result == Some(st.results[j]))
    && (forall j, j' :: 0 <= j < j' < |st.results| ==> st.results[j'].chain[0] !in st.results[j].chain)
  }

  /** Processing one more key keeps the invariant. */
  lemma ScanStepKeepsInvariant(m: map<string, string>, disk: Disk, p: seq<string>, st: ScanState, k: string)
    requires k in m && ScanInvariant(m, disk, p, st)
    ensures ScanInvariant(m, disk, p + [k], ScanStep(m, disk, st, k))
  {
    assert Elems(p + [k]) == Elems(p) + {k};
    if k !in st.visited {
      TraceShape(m, disk, k);
      if TraceSource(m, disk, k).result.Some? {
        ScanStepNewResult(m, disk, p, st, k);
      } else {
        assert st.results + OptionToSeq(TraceSource(m, disk, k).result) == st.results;
      }
    }
  }

  /** A key not yet visited whose walk records a result: the result joins the invariant. */
  lemma ScanStepNewResult(m: map<string, string>, disk: Disk, p: seq<string>, st: ScanState, k: string)
    requires k in m && ScanInvariant(m, disk, p, st) && k !in st.visited
    requires TraceSource(m, disk, k).result.Some?
    ensures ScanInvariant(m, disk, p + [k], ScanStep(m, disk, st, k))
  {
    var t := TraceSource(m, disk, k);
    assert ScanStep(m, disk, st, k) == ScanState(st.results + [t.result.value], st.visited + t.chainVisited);
    NewResultVisited(m, disk, p, st, k);
    NewResultRecorded(m, disk, p, st, k);
    NewResultNotRestarted(m, disk, p, st, k);
  }

  lemma NewResultVisited(m: map<string, string>, disk: Disk, p: seq<string>, st: ScanState, k: string)
    requires k in m && ScanInvariant(m, disk, p, st) && k !in st.visited
    requires TraceSource(m, disk, k).result.Some?
    ensures var t := TraceSource(m, disk, k);
      st.visited + t.chainVisited == Covered(st.results + [t.result.value]) + Elems(p + [k])
  {
    var t := TraceSource(m, disk, k);
    var r := t.result.value;
    var rs' := st.results + [r];
    TraceShape(m, disk, k);
    ChainStartsAtSourceAndIsLinked(m, disk, k);
    assert Elems(p + [k]) == Elems(p) + {k};
    assert rs'[..|rs'| - 1] == st.results;
    assert Covered(rs') == Covered(st.results) + Elems(r.chain);
    assert k in Elems(r.chain) by { assert r.chain[0] == k; }
  }

  lemma NewResultRecorded(m: map<string, string>, disk: Disk, p: seq<string>, st: ScanState, k: string)
    requires k in m && ScanInvariant(m, disk, p, st)
    requires TraceSource(m, disk, k).result.Some?
    ensures var rs' := st.results + [TraceSource(m, disk, k).result.value];
      forall j :: 0 <= j < |rs'| ==>
        |rs'[j].chain| > 0 && rs'[j].chain[0] in p + [k] && rs'[j].chain[0] in m
        && TraceSource(m, disk, rs'[j].chain[0]).result == Some(rs'[j])
  {
    var rs := st.results;
    var rs' := rs + [TraceSource(m, disk, k).result.value];
    ChainStartsAtSourceAndIsLinked(m, disk, k);
    forall j | 0 <= j < |rs'|
      ensures |rs'[j].chain| > 0 && rs'[j].chain[0] in p + [k] && rs'[j].chain[0] in m
        && TraceSource(m, disk, rs'[j].chain[0]).result == Some(rs'[j])
    {
      if j < |rs| {
        assert rs'[j] == rs[j];
      }
    }
  }

  lemma NewResultNotRestarted(m: map<string, string>, disk: Disk, p: seq<string>, st: ScanState, k: string)
    requires k in m && ScanInvariant(m, disk, p, st) && k !in st.visited
    requires TraceSource(m, disk, k).result.Some?
    ensures var rs' := st.results + [TraceSource(m, disk, k).result.value];
      forall j, j' :: 0 <= j < j' < |rs'| ==> |rs'[j'].chain| > 0 && rs'[j'].chain[0] !in rs'[j].chain
  {
    var rs := st.results;
    var rs' := rs + [TraceSource(m, disk, k).result.value];
    ChainStartsAtSourceAndIsLinked(m, disk, k);
    forall j, j' | 0 <= j < j' < |rs'| ensures |rs'[j'].chain| > 0 && rs'[j'].chain[0] !in rs'[j].chain {
      if j' < |rs| {
        assert rs'[j] == rs[j] && rs'[j'] == rs[j'];
      } else {
        CoveredMember(rs, k);
        assert rs'[j] == rs[j];
      }
    }
  }

  lemma {:induction false} ScanFacts(m: map<string, string>, disk: Disk, keys: seq<string>)
    requires forall i :: 0 <= i < |keys| ==> keys[i] in m
    ensures ScanInvariant(m, disk, keys, Scan(m, disk, keys))
  {
    if keys != [] {
      var n := |keys| - 1;
      ScanFacts(m, disk, keys[..n]);
      ScanStepKeepsInvariant(m, disk, keys[..n], Scan(m, disk, keys[..n]), keys[n]);
      assert keys[..n] + [keys[n]] == keys;
    }
  }

  /**
   * Every result is the walk of its own source, a key whose target is not the
   * empty string; results come from the outer loop and from nowhere else.
   */
  lemma ResultsAreWalksOfKeys(m: map<string, string>, disk: Disk, keys: seq<string>)
    requires forall i :: 0 <= i < |keys| ==> keys[i] in m
    ensures var rs := Scan(m, disk, keys).results;
      forall j :: 0 <= j < |rs| ==>
        && |rs[j].chain| > 0 && rs[j].chain[0] in keys && m[rs[j].chain[0]] != ""
        && TraceSource(m, disk, rs[j].chain[0]).result == Some(rs[j])
  {
    ScanFacts(m, disk, keys);
    var rs := Scan(m, disk, keys).results;
    forall j | 0 <= j < |rs| ensures m[rs[j].chain[0]] != "" {
      TraceShape(m, disk, rs[j].chain[0]);
    }
  }

  /**
   * A key that appeared in the chain of an earlier result is never started
   * again: no result's source lies on an earlier result's chain. In particular
   * the sources of the results are all different.
   */
  lemma VisitedKeysNotRestarted(m: map<string, string>, disk: Disk, keys: seq<string>)
    requires forall i :: 0 <= i < |keys| ==> keys[i] in m
    ensures var rs := Scan(m, disk, keys).results;
      forall j, j' :: 0 <= j < j' < |rs| ==> |rs[j'].chain| > 0 && rs[j'].chain[0] !in rs[j].chain
  {
    ScanFacts(m, disk, keys);
  }

  /** One key of the last step lies on some chain. */
  lemma KeyOnSomeChainStep(m: map<string, string>, disk: Disk, p: seq<string>, k: string, x: string)
    requires forall i :: 0 <= i < |p| ==> p[i] in m
    requires k in m && k !in p && (x in p || x == k) && m[x] != ""
    requires x in p ==> exists j :: 0 <= j < |Scan(m, disk, p).results| && x in Scan(m, disk, p).results[j].chain
    ensures var rs := ScanStep(m, disk, Scan(m, disk, p), k).results;
      exists j :: 0 <= j < |rs| && x in rs[j].chain
  {
    var st := Scan(m, disk, p);
    var rs := ScanStep(m, disk, st, k).results;
    assert rs[..|st.results|] == st.results;
    if x in p {
      OnEarlierChain(st.results, rs, x);
    } else if k in st.visited {
      ScanFacts(m, disk, p);
      assert k !in Elems(p);
      CoveredMember(st.results, k);
      OnEarlierChain(st.results, rs, x);
    } else {
      NewSourceOnItsChain(m, disk, st, k);
    }
  }

  /** A path on a chain of the earlier results stays on a chain when results are added. */
  lemma OnEarlierChain(before: seq<ChainResult>, after: seq<ChainResult>, x: string)
    requires |before| <= |after| && after[..|before|] == before
    requires exists j :: 0 <= j < |before| && x in before[j].chain
    ensures exists j :: 0 <= j < |after| && x in after[j].chain
  {
    var j :| 0 <= j < |before| && x in before[j].chain;
    assert after[j] == after[..|before|][j];
  }

  /** A key not yet visited lies on the chain its own walk records. */
  lemma NewSourceOnItsChain(m: map<string, string>, disk: Disk, st: ScanState, k: string)
    requires k in m && k !in st.visited && m[k] != ""
    ensures var rs := ScanStep(m, disk, st, k).results;
      exists j :: 0 <= j < |rs| && k in rs[j].chain
  {
    TraceShape(m, disk, k);
    ChainStartsAtSourceAndIsLinked(m, disk, k);
    var r := TraceSource(m, disk, k).result.value;
    var rs := ScanStep(m, disk, st, k).results;
    assert rs == st.results + [r];
    assert rs[|rs| - 1] == r;
    assert r.chain[0] == k;
  }

  /**
   * No key is dropped: every key whose target is not the empty string lies on
   * the chain of some result, as its source or as a later hop.
   */
  lemma {:induction false} EveryKeyOnSomeChain(m: map<string, string>, disk: Disk, keys: seq<string>)
    requires forall i :: 0 <= i < |keys| ==> keys[i] in m
    requires Distinct(keys)
    ensures var rs := Scan(m, disk, keys).results;
      forall x :: x in keys && m[x] != "" ==> exists j :: 0 <= j < |rs| && x in rs[j].chain
  {
    if keys != [] {
      var n := |keys| - 1;
      var p, k := keys[..n], keys[n];
      assert Distinct(p);
      assert k !in p;
      EveryKeyOnSomeChain(m, disk, p);
      assert Scan(m, disk, keys) == ScanStep(m, disk, Scan(m, disk, p), k);
      forall x | x in keys && m[x] != ""
        ensures exists j :: 0 <= j < |Scan(m, disk, keys).results| && x in Scan(m, disk, keys).results[j].chain
      {
        assert x in p || x == k;
        KeyOnSomeChainStep(m, disk, p, k, x);
      }
    }
  }

  /**
   * A hop can lie on more than one chain: a key walked first as a source is
   * not excluded from the chain of a later source that leads into it.
   */
  lemma HopSharedByTwoChains(disk: Disk)
    ensures var m := map["/b" := "/c", "/a" := "/b"];
      var rs := Scan(m, disk, ["/b", "/a"]).results;
      |rs| == 2 && rs[0].chain == ["/b", "/c"] && rs[1].chain == ["/a", "/b", "/c"]
  {
    var m := map["/b" := "/c", "/a" := "/b"];
    assert !IsExternalUrl("/c") by { assert "/c"[..2][1] != "//"[1]; }
    assert !IsExternalUrl("/b") by { assert "/b"[..2][1] != "//"[1]; }
    assert !HasHop(m, "/c");
    var t1 := TraceSource(m, disk, "/b");
    assert Follow(m, disk, ["/b"], {"/b"}, "/c").chain == ["/b", "/c"];
    assert t1.result.value.chain == ["/b", "/c"];
    assert ["/b", "/a"][..1] == ["/b"];
    var st := Scan(m, disk, ["/b"]);
    assert ["/b"][..0] == [];
    assert Scan(m, disk, []) == ScanState([], {});
    assert st == ScanStep(m, disk, Scan(m, disk, []), "/b");
    assert st.visited == {"/b", "/c"};
    assert "/a" !in st.visited;
    assert Follow(m, disk, ["/a", "/b"], {"/a", "/b"}, "/c").chain == ["/a", "/b", "/c"];
    assert Follow(m, disk, ["/a"], {"/a"}, "/b").chain == ["/a", "/b", "/c"];
  }

  /**
   * The external URL stays off the chain except as its first entry: a key
   * that is itself a protocol-relative URL and points to itself is reported
   * as external with that URL as its own source.
   */
  lemma ExternalUrlCanBeTheSource(disk: Disk)
    ensures TraceSource(map["//x" := "//x"], disk, "//x").result == Some(External(["//x"], "//x", "//x"))
  {
    assert IsExternalUrl("//x") by { assert "//x"[..2] == "//"; }
  }
}
