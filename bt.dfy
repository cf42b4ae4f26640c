/**
 * The bookkeeping of the colour-filtering backtrace command (gdbaudy/bt.py): the path
 * trie that shortens file paths, the table that correlates repeated pointer values across
 * frames, the merging of frame-helper verdicts, the parsing of the command's argument
 * words and the selection of the requested frame range.
 */
module Backtrace {
  import opened Wrappers
  import opened Text
  import opened Ranking

  /** `os.path.sep` on the platforms the tool runs on. */
  const Sep: char := '/'

  // ================================================================ path trie

  /** The trie of the source is a nested dict `{segment: (count, children)}`. The model
      keeps it flat: a trie node is named by the list of segments leading to it from the
      root, and the map holds each node's count. */
  type PathCounts = map<seq<string>, nat>

  /** The non-empty entries of a list of path parts, in order (the parts the trie walk
      does not skip). */
  function NonEmpty(parts: seq<string>): (segs: seq<string>)
    ensures |segs| <= |parts|
  {
    if |parts| == 0 then []
    else NonEmpty(parts[..|parts| - 1]) + (if parts[|parts| - 1] == "" then [] else [parts[|parts| - 1]])
  }

  /** The trie nodes a path walks through. */
  function Segments(path: string): seq<string>
  {
    NonEmpty(Split(path, Sep))
  }

  lemma NonEmptyStep(parts: seq<string>, i: nat)
    requires i < |parts|
    ensures NonEmpty(parts[..i + 1]) == NonEmpty(parts[..i]) + (if parts[i] == "" then [] else [parts[i]])
  {
    assert parts[..i + 1][..i] == parts[..i];
  }

  /** The segments of a prefix of the parts are a prefix of the segments. */
  lemma {:induction false} NonEmptyPrefix(parts: seq<string>, i: nat)
    requires i <= |parts|
    ensures var pre := NonEmpty(parts[..i]);
            |pre| <= |NonEmpty(parts)| && NonEmpty(parts)[..|pre|] == pre
    decreases |parts| - i
  {
    if i < |parts| {
      NonEmptyPrefix(parts, i + 1);
      NonEmptyStep(parts, i);
    } else {
      assert parts[..i] == parts;
    }
  }

  /** `p` names a node on the walk of segments `segs`. */
  predicate IsNodeOf(p: seq<string>, segs: seq<string>) {
    1 <= |p| <= |segs| && segs[..|p|] == p
  }

  function Nodes(segs: seq<string>): (ns: set<seq<string>>)
    ensures forall p :: p in ns <==> IsNodeOf(p, segs)
  {
    set k | 1 <= k <= |segs| :: segs[..k]
  }

  function CountOf(counts: PathCounts, p: seq<string>): nat {
    if p in counts then counts[p] else 0
  }

  /** The trie after one more walk along `segs`: every node on the walk gains exactly one,
      missing nodes appear with count one, no other node changes. */
  function Bumped(counts: PathCounts, segs: seq<string>): PathCounts {
    map p | p in counts.Keys + Nodes(segs) :: CountOf(counts, p) + (if IsNodeOf(p, segs) then 1 else 0)
  }

  lemma BumpedNone(counts: PathCounts)
    ensures Bumped(counts, []) == counts
  {
  }

  lemma BumpedExtend(counts: PathCounts, segs: seq<string>, x: string)
    ensures var b, n := Bumped(counts, segs), segs + [x];
            Bumped(counts, n) == b[n := CountOf(b, n) + 1]
  {
    var b, n := Bumped(counts, segs), segs + [x];
    forall p ensures IsNodeOf(p, n) <==> IsNodeOf(p, segs) || p == n {
      if IsNodeOf(p, n) && p != n {
        assert |p| < |n|;
        assert n[..|p|] == segs[..|p|];
      }
      if IsNodeOf(p, segs) {
        assert n[..|p|] == segs[..|p|];
      }
    }
    assert !IsNodeOf(n, segs);
  }

  /** Trie node `p` is the parent of trie node `q`. */
  predicate IsParent(p: seq<string>, q: seq<string>) {
    |q| > 1 && p == q[..|q| - 1]
  }

  /** The trie invariant: every node has a positive count, its parent exists, and a child
      never counts more than its parent. */
  ghost predicate WellFormed(counts: PathCounts) {
    (forall p :: p in counts ==> |p| >= 1 && counts[p] >= 1) &&
    (forall p, q :: q in counts && IsParent(p, q) ==> p in counts && counts[q] <= counts[p])
  }

  lemma BumpedWellFormed(counts: PathCounts, segs: seq<string>)
    requires WellFormed(counts)
    ensures WellFormed(Bumped(counts, segs))
  {
    var b := Bumped(counts, segs);
    forall p, q | q in b && IsParent(p, q)
      ensures p in b && b[q] <= b[p]
    {
      if IsNodeOf(q, segs) {
        assert segs[..|p|] == p;
        assert IsNodeOf(p, segs);
      } else {
        assert q in counts;
      }
    }
  }

  lemma BumpedKeepsNodes(counts: PathCounts, segs: seq<string>)
    ensures var b := Bumped(counts, segs);
            counts.Keys <= b.Keys && (forall p :: IsNodeOf(p, segs) ==> p in b)
  {
  }

  // ---------------------------------------------------------------- chewPath

  /** The remainder of chewPath's loop from part `i`, having walked to trie node `node`
      whose count was `last` (None before the first non-empty part). */
  function ChewFrom(counts: PathCounts, parts: seq<string>, i: nat, node: seq<string>, last: Option<nat>)
    : Result<Option<string>>
    decreases |parts| - i
  {
    if i >= |parts| then Ok(None)
    else if parts[i] == "" then ChewFrom(counts, parts, i + 1, node, last)
    else
      var next := node + [parts[i]];
      if next !in counts then Err(KeyError)
      else if last.Some? && last.value != counts[next] then Ok(Some(Join(parts[i..], Sep)))
      else ChewFrom(counts, parts, i + 1, next, Some(counts[next]))
  }

  /** What chewPath returns: the path itself when it has no separator; otherwise the
      tail of the path from the first segment whose count differs from the one before,
      None when no count differs, and a KeyError on a segment the trie has not seen. */
  function Chew(counts: PathCounts, path: string): Result<Option<string>>
  {
    var parts := Split(path, Sep);
    if |parts| == 1 then Ok(Some(path)) else ChewFrom(counts, parts, 0, [], None)
  }

  lemma ChewSingleSegment(counts: PathCounts, path: string)
    requires Sep !in path
    ensures Chew(counts, path) == Ok(Some(path))
  {
    SplitPieces(path, Sep);
  }

  lemma {:induction false} ChewFromIsTail(counts: PathCounts, parts: seq<string>, i: nat, node: seq<string>, last: Option<nat>)
    requires ChewFrom(counts, parts, i, node, last).Ok?
    requires ChewFrom(counts, parts, i, node, last).value.Some?
    ensures exists j :: i <= j < |parts| && parts[j] != "" &&
                        ChewFrom(counts, parts, i, node, last).value.value == Join(parts[j..], Sep)
    decreases |parts| - i
  {
    if parts[i] == "" {
      ChewFromIsTail(counts, parts, i + 1, node, last);
    } else {
      var next := node + [parts[i]];
      if !(last.Some? && last.value != counts[next]) {
        ChewFromIsTail(counts, parts, i + 1, next, Some(counts[next]));
      }
    }
  }

  /** A shortened path is always a suffix of the path. */
  lemma ChewIsSuffix(counts: PathCounts, path: string)
    requires Chew(counts, path).Ok? && Chew(counts, path).value.Some?
    ensures IsSuffix(Chew(counts, path).value.value, path)
  {
    var parts := Split(path, Sep);
    if |parts| != 1 {
      ChewFromIsTail(counts, parts, 0, [], None);
      var j :| 0 <= j < |parts| && Chew(counts, path).value.value == Join(parts[j..], Sep);
      JoinTailIsSuffix(parts, Sep, j);
      JoinSplit(path, Sep);
    }
  }

  /** Every node on a path's walk is in the trie. */
  ghost predicate Considered(counts: PathCounts, segs: seq<string>) {
    forall k :: 1 <= k <= |segs| ==> segs[..k] in counts
  }

  /** Consecutive nodes of the walk, from node `from` on, have equal counts. */
  ghost predicate FlatFrom(counts: PathCounts, segs: seq<string>, from: nat)
    requires Considered(counts, segs)
  {
    forall k :: 1 <= k && from <= k < |segs| ==> counts[segs[..k]] == counts[segs[..k + 1]]
  }

  /** The count of the m-th node of a walk; None at the root (m = 0). */
  function CountAt(counts: PathCounts, segs: seq<string>, m: nat): Option<nat> {
    if m == 0 || m > |segs| || segs[..m] !in counts then None else Some(counts[segs[..m]])
  }

  lemma {:induction false} ChewFromConsidered(counts: PathCounts, parts: seq<string>, i: nat)
    requires i <= |parts|
    requires Considered(counts, NonEmpty(parts))
    ensures var segs, m := NonEmpty(parts), |NonEmpty(parts[..i])|;
            var r := ChewFrom(counts, parts, i, NonEmpty(parts[..i]), CountAt(counts, segs, m));
            r.Ok? && (r.value.None? <==> FlatFrom(counts, segs, m))
    decreases |parts| - i
  {
    var segs := NonEmpty(parts);
    var node := NonEmpty(parts[..i]);
    var m := |node|;
    NonEmptyPrefix(parts, i);
    assert segs[..m] == node;
    if i == |parts| {
      assert parts[..i] == parts;
    } else {
      NonEmptyStep(parts, i);
      NonEmptyPrefix(parts, i + 1);
      ChewFromConsidered(counts, parts, i + 1);
      if parts[i] != "" {
        var next := node + [parts[i]];
        assert |next| == m + 1 <= |segs| && segs[..m + 1] == next;
      }
    }
  }

  /** For a path whose walk the trie has seen (what considerPath guarantees), chewPath
      never raises, and it answers None exactly when all the counts along the walk are
      equal — that is, when the path never diverges from the others. */
  lemma ChewConsidered(counts: PathCounts, path: string)
    requires Sep in path
    requires Considered(counts, Segments(path))
    ensures Chew(counts, path).Ok?
    ensures Chew(counts, path).value.None? <==> FlatFrom(counts, Segments(path), 0)
  {
    SplitPieces(path, Sep);
    var parts := Split(path, Sep);
    ChewFromConsidered(counts, parts, 0);
    assert parts[..0] == [];
  }

  /** Node m of the walk is the first whose successor's count differs from its own: the
      counts of nodes 1..m are all equal and node m + 1 counts differently. */
  ghost predicate DivergesFirstAt(counts: PathCounts, segs: seq<string>, m: nat)
    requires Considered(counts, segs)
  {
    && 1 <= m < |segs|
    && counts[segs[..m + 1]] != counts[segs[..m]]
    && forall k :: 1 <= k < m ==> counts[segs[..k]] == counts[segs[..k + 1]]
  }

  /** The shortened answer `t` is the path from non-empty part j on, and the walk's node
      before part j is the first divergence. */
  ghost predicate ChewStartsAt(counts: PathCounts, parts: seq<string>, j: nat, t: string)
    requires Considered(counts, NonEmpty(parts))
  {
    j < |parts| && parts[j] != "" && t == Join(parts[j..], Sep) &&
    DivergesFirstAt(counts, NonEmpty(parts), |NonEmpty(parts[..j])|)
  }

  /** The loop invariant behind ChewDivergesFirst: when the walk has been flat up to the
      node reached before part i, a shortened answer from part i on starts at a part j >= i
      that is the first divergence. */
  lemma {:induction false} ChewFromFirst(counts: PathCounts, parts: seq<string>, i: nat) returns (j: nat)
    requires i <= |parts|
    requires Considered(counts, NonEmpty(parts))
    requires var segs, m := NonEmpty(parts), |NonEmpty(parts[..i])|;
             forall k :: 1 <= k < m && k < |segs| ==> counts[segs[..k]] == counts[segs[..k + 1]]
    ensures var segs, m := NonEmpty(parts), |NonEmpty(parts[..i])|;
            var r := ChewFrom(counts, parts, i, NonEmpty(parts[..i]), CountAt(counts, segs, m));
            r.Ok? && r.value.Some? ==> i <= j && ChewStartsAt(counts, parts, j, r.value.value)
    decreases |parts| - i
  {
    j := i;
    var segs := NonEmpty(parts);
    var node := NonEmpty(parts[..i]);
    var m := |node|;
    NonEmptyPrefix(parts, i);
    assert segs[..m] == node;
    if i < |parts| {
      NonEmptyStep(parts, i);
      NonEmptyPrefix(parts, i + 1);
      if parts[i] == "" {
        j := ChewFromFirst(counts, parts, i + 1);
      } else {
        var next := node + [parts[i]];
        assert |next| == m + 1 <= |segs| && segs[..m + 1] == next;
        var last := CountAt(counts, segs, m);
        if last.Some? && last.value != counts[next] {
          assert DivergesFirstAt(counts, segs, m);
        } else {
          assert forall k :: 1 <= k < m + 1 ==> counts[segs[..k]] == counts[segs[..k + 1]];
          j := ChewFromFirst(counts, parts, i + 1);
        }
      }
    }
  }

  /** For a path whose walk the trie has seen, a shortened answer starts at the first
      divergence: it is the path from the non-empty part j on, where the walk's node
      before part j is the first whose count differs from the next one's. */
  lemma ChewDivergesFirst(counts: PathCounts, path: string)
    requires Sep in path
    requires Considered(counts, Segments(path))
    ensures var parts, segs, r := Split(path, Sep), Segments(path), Chew(counts, path);
            r.Ok? && r.value.Some? ==>
              exists j :: 0 <= j < |parts| && parts[j] != "" && r.value.value == Join(parts[j..], Sep) &&
                          DivergesFirstAt(counts, segs, |NonEmpty(parts[..j])|)
  {
    SplitPieces(path, Sep);
    var parts := Split(path, Sep);
    assert parts[..0] == [];
    var j := ChewFromFirst(counts, parts, 0);
    var r := Chew(counts, path);
    if r.Ok? && r.value.Some? {
      assert ChewStartsAt(counts, parts, j, r.value.value);
    }
  }

  /** After considerPath(path), chewPath(path) cannot raise, however many other paths are
      considered afterwards. */
  lemma ConsideredStaysConsidered(counts: PathCounts, segs: seq<string>, other: seq<string>)
    requires Considered(counts, segs)
    ensures Considered(Bumped(counts, other), segs)
  {
    BumpedKeepsNodes(counts, other);
  }

  lemma ConsiderMakesConsidered(counts: PathCounts, segs: seq<string>)
    ensures Considered(Bumped(counts, segs), segs)
  {
    forall k | 1 <= k <= |segs| ensures segs[..k] in Bumped(counts, segs) {
      assert IsNodeOf(segs[..k], segs);
    }
  }

  /** The loop of considerPath: walk down the trie along the non-empty parts, creating
      each missing node with count one and adding one to each existing node. */
  method Walk(counts0: PathCounts, parts: seq<string>) returns (counts: PathCounts)
    ensures counts == Bumped(counts0, NonEmpty(parts))
  {
    counts := counts0;
    var node: seq<string> := [];
    var i := 0;
    BumpedNone(counts0);
    while i < |parts|
      invariant 0 <= i <= |parts|
      invariant node == NonEmpty(parts[..i])
      invariant counts == Bumped(counts0, node)
    {
      var part := parts[i];
      NonEmptyStep(parts, i);
      if part != "" {
        BumpedExtend(counts0, node, part);
        node := node + [part];
        if node in counts {
          counts := counts[node := counts[node] + 1];
        } else {
          counts := counts[node := 1];
        }
      }
      i := i + 1;
    }
    assert parts[..i] == parts;
  }

  // ================================================================ value table

  /** What the table knows of one pointer-shaped value. */
  datatype ValueInfo = ValueInfo(count: nat, name: string, colorName: Option<string>)

  /** The highlight colour of the value at rank r. */
  function ColorName(r: nat): string {
    "i" + NatToString(r)
  }

  /** `e` is the `(count, value)` tuple process() builds for a value seen more than once. */
  ghost predicate IsEligible(e: Entry, seen: map<string, ValueInfo>) {
    e.value in seen && seen[e.value].count > 1 && e.count == seen[e.value].count
  }

  /** `ranked` is the list process() sorts: every value seen more than once, as a
      `(count, value)` tuple, in descending order. */
  ghost predicate IsRanking(ranked: seq<Entry>, seen: map<string, ValueInfo>) {
    StrictlySorted(ranked) &&
    (forall i :: 0 <= i < |ranked| ==> IsEligible(ranked[i], seen)) &&
    (forall v :: v in seen && seen[v].count > 1 ==> Entry(seen[v].count, v) in ranked)
  }

  /** The ranking is determined by the table alone. */
  lemma RankingUnique(a: seq<Entry>, b: seq<Entry>, seen: map<string, ValueInfo>)
    requires IsRanking(a, seen) && IsRanking(b, seen)
    ensures a == b
  {
    forall e ensures e in a <==> e in b {
      if e in a {
        var i :| 0 <= i < |a| && a[i] == e;
        assert IsEligible(e, seen);
      }
      if e in b {
        var i :| 0 <= i < |b| && b[i] == e;
        assert IsEligible(e, seen);
      }
    }
    StrictlySortedUnique(a, b);
  }

  /** In a ranking no value occurs twice. */
  lemma RankingValuesDistinct(ranked: seq<Entry>, seen: map<string, ValueInfo>, i: nat, j: nat)
    requires IsRanking(ranked, seen)
    requires i < j < |ranked|
    ensures ranked[i].value != ranked[j].value
  {
    if ranked[i].value == ranked[j].value {
      assert IsEligible(ranked[i], seen) && IsEligible(ranked[j], seen);
      assert ranked[i] == ranked[j];
      BeforeIrreflexive(ranked[i]);
    }
  }

  /** Value `v`, ranked `r`, carries colour `ColorName(r)` in both tables and is otherwise
      as it was in `seen0`. */
  ghost predicate Labelled(seen: map<string, ValueInfo>, interesting: map<string, ValueInfo>,
                           seen0: map<string, ValueInfo>, v: string, r: nat) {
    v in interesting && v in seen && v in seen0 &&
    interesting[v] == seen[v] == seen0[v].(colorName := Some(ColorName(r)))
  }

  // ================================================================ ContextHelper

  /** The per-invocation state of one backtrace: the path trie and the value tables. */
  class ContextHelper {
    var pathCounts: PathCounts
    var seenValues: map<string, ValueInfo>
    var interestingValues: map<string, ValueInfo>

    ghost predicate Valid()
      reads this
    {
      WellFormed(pathCounts) &&
      (forall v :: v in seenValues ==> StartsWith(v, "0x") && seenValues[v].count >= 1) &&
      (forall v :: v in interestingValues ==> v in seenValues && interestingValues[v].colorName.Some?)
    }

    constructor ()
      ensures Valid()
      ensures pathCounts == map[] && seenValues == map[] && interestingValues == map[]
    {
      pathCounts := map[];
      seenValues := map[];
      interestingValues := map[];
    }

    /** considerPath: a path without a separator is ignored; otherwise each node on its
        walk (empty segments skipped) gains one. */
    method ConsiderPath(path: string)
      requires Valid()
      modifies this
      ensures Valid()
      ensures pathCounts == if Sep in path then Bumped(old(pathCounts), Segments(path)) else old(pathCounts)
      ensures seenValues == old(seenValues) && interestingValues == old(interestingValues)
    {
      var parts := Split(path, Sep);
      SplitPieces(path, Sep);
      if |parts| == 1 {
        return;
      }
      var counts := Walk(pathCounts, parts);
      BumpedWellFormed(pathCounts, NonEmpty(parts));
      pathCounts := counts;
    }

    /** chewPath, a read-only walk down the trie. */
    method ChewPath(path: string) returns (r: Result<Option<string>>)
      ensures r == Chew(pathCounts, path)
    {
      var parts := Split(path, Sep);
      if |parts| == 1 {
        return Ok(Some(path));
      }
      var node: seq<string> := [];
      var lastCount: Option<nat> := None;
      var i := 0;
      while i < |parts|
        invariant 0 <= i <= |parts|
        invariant Chew(pathCounts, path) == ChewFrom(pathCounts, parts, i, node, lastCount)
      {
        var part := parts[i];
        if part != "" {
          node := node + [part];
          if node !in pathCounts {
            return Err(KeyError);
          }
          var count := pathCounts[node];
          if lastCount.Some? && lastCount.value != count {
            return Ok(Some(Join(parts[i..], Sep)));
          }
          lastCount := Some(count);
        }
        i := i + 1;
      }
      return Ok(None);
    }

    /** The file column of a frame line: `filename and chewPath(filename) or '???'`. */
    method ShownPath(filename: string) returns (r: Result<string>)
      ensures r.Ok? ==> r.value == "???" || IsSuffix(r.value, filename)
      ensures filename == "" ==> r == Ok("???")
      ensures Chew(pathCounts, filename).Ok? <==> filename == "" || r.Ok?
      ensures filename != "" && Chew(pathCounts, filename) == Ok(None) ==> r == Ok("???")
      ensures filename != "" && Chew(pathCounts, filename).Ok? && Chew(pathCounts, filename).value.Some?
              ==> r == Ok(if Chew(pathCounts, filename).value.value == "" then "???"
                          else Chew(pathCounts, filename).value.value)
    {
      if filename == "" {
        return Ok("???");
      }
      var chewed := ChewPath(filename);
      match chewed {
        case Err(e) => r := Err(e);
        case Ok(None) => r := Ok("???");
        case Ok(Some(s)) =>
          ChewIsSuffix(pathCounts, filename);
          r := Ok(if s == "" then "???" else s);
      }
    }

    /** considerValue: only values starting with '0x' are tracked; the first sighting
        records the variable name followed by the frame number, later sightings only
        count. */
    method ConsiderValue(frameNum: nat, name: string, value: string)
      requires Valid()
      modifies this
      ensures Valid()
      ensures pathCounts == old(pathCounts) && interestingValues == old(interestingValues)
      ensures !StartsWith(value, "0x") ==> seenValues == old(seenValues)
      ensures StartsWith(value, "0x") && value !in old(seenValues) ==>
                seenValues == old(seenValues)[value := ValueInfo(1, name + NatToString(frameNum), None)]
      ensures StartsWith(value, "0x") && value in old(seenValues) ==>
                seenValues == old(seenValues)[value := old(seenValues)[value].(count := old(seenValues)[value].count + 1)]
    {
      if StartsWith(value, "0x") {
        if value in seenValues {
          var info := seenValues[value];
          seenValues := seenValues[value := info.(count := info.count + 1)];
        } else {
          seenValues := seenValues[value := ValueInfo(1, name + NatToString(frameNum), None)];
        }
      }
    }

    /** Collect the `(count, value)` tuples of the values seen more than once. */
    method Eligible() returns (eligible: seq<Entry>)
      ensures forall i :: 0 <= i < |eligible| ==> IsEligible(eligible[i], seenValues)
      ensures forall v :: v in seenValues && seenValues[v].count > 1 ==> Entry(seenValues[v].count, v) in eligible
      ensures forall i, j :: 0 <= i < j < |eligible| ==> eligible[i] != eligible[j]
    {
      eligible := [];
      var keys := seenValues.Keys;
      while keys != {}
        invariant keys <= seenValues.Keys
        invariant forall i :: 0 <= i < |eligible| ==> IsEligible(eligible[i], seenValues) && eligible[i].value !in keys
        invariant forall v :: v in seenValues && v !in keys && seenValues[v].count > 1 ==>
                    Entry(seenValues[v].count, v) in eligible
        invariant forall i, j :: 0 <= i < j < |eligible| ==> eligible[i] != eligible[j]
        decreases keys
      {
        var v :| v in keys;
        var info := seenValues[v];
        if info.count > 1 {
          eligible := eligible + [Entry(info.count, v)];
        }
        keys := keys - {v};
      }
    }

    /** The first half of process: the values seen more than once, as `(count, value)`
        tuples sorted in descending order, which is the ranking of the table; no value
        occurs twice. */
    method RankEligible() returns (sorted: seq<Entry>)
      ensures IsRanking(sorted, seenValues)
      ensures forall i, j :: 0 <= i < j < |sorted| ==> sorted[i].value != sorted[j].value
    {
      var eligible := Eligible();
      sorted := SortDescending(eligible);
      SortedEligibleIsRanking(eligible, seenValues);
      forall i, j | 0 <= i < j < |sorted| ensures sorted[i].value != sorted[j].value {
        RankingValuesDistinct(sorted, seenValues, i, j);
      }
    }

    /** process: rank the values seen more than once and give the first k of them the
        colours i0, i1, ... in rank order. */
    method Process(k: nat) returns (ghost ranked: seq<Entry>)
      requires Valid()
      modifies this
      ensures Valid()
      ensures pathCounts == old(pathCounts)
      ensures IsRanking(ranked, old(seenValues))
      ensures LabelledUpTo(ranked, Min(k, |ranked|), old(seenValues), old(interestingValues),
                           seenValues, interestingValues)
    {
      var sorted := RankEligible();
      ranked := sorted;
      var seen, interesting := Label(sorted, k, seenValues, interestingValues);
      LabellingLabels(sorted, Min(k, |sorted|), seenValues, interestingValues);
      assert forall v :: v in seen ==> StartsWith(v, "0x") && seen[v].count >= 1 by {
        LabelledKeepsCounts(sorted, Min(k, |sorted|), seenValues, interestingValues, seen, interesting);
      }
      seenValues, interestingValues := seen, interesting;
    }

    /** isInterestingValue */
    predicate IsInterestingValue(value: string)
      reads this
    {
      value in interestingValues
    }

    /** getValueInfo: the name and colour of an interesting value; a KeyError otherwise. */
    function GetValueInfo(value: string): (r: Result<(string, string)>)
      reads this
      ensures r.Ok? <==> IsInterestingValue(value) && interestingValues[value].colorName.Some?
      ensures r.Ok? ==> r.value == (interestingValues[value].name, interestingValues[value].colorName.value)
    {
      if value !in interestingValues then Err(KeyError)
      else
        var info := interestingValues[value];
        if info.colorName.None? then Err(KeyError) else Ok((info.name, info.colorName.value))
    }
  }

  /** Sorting the collected tuples yields the ranking of the table. */
  lemma SortedEligibleIsRanking(eligible: seq<Entry>, seen: map<string, ValueInfo>)
    requires forall i :: 0 <= i < |eligible| ==> IsEligible(eligible[i], seen)
    requires forall v :: v in seen && seen[v].count > 1 ==> Entry(seen[v].count, v) in eligible
    requires forall i, j :: 0 <= i < j < |eligible| ==> eligible[i] != eligible[j]
    ensures IsRanking(SortDescending(eligible), seen)
  {
    var sorted := SortDescending(eligible);
    SortDescendingSorted(eligible);
    forall i, j | 0 <= i < j < |sorted| ensures sorted[i] != sorted[j] {
      if sorted[i] == sorted[j] {
        RepeatedCountsTwice(sorted, i, j);
        DistinctCountsOnce(eligible, sorted[i]);
      }
    }
    SortedDistinctIsStrict(sorted);
    forall i | 0 <= i < |sorted| ensures IsEligible(sorted[i], seen) {
      assert sorted[i] in multiset(eligible);
    }
    forall v | v in seen && seen[v].count > 1 ensures Entry(seen[v].count, v) in sorted {
      assert Entry(seen[v].count, v) in multiset(eligible);
    }
  }

  lemma RepeatedCountsTwice(s: seq<Entry>, i: nat, j: nat)
    requires i < j < |s| && s[i] == s[j]
    ensures multiset(s)[s[i]] >= 2
  {
    var a, b := s[..j], s[j..];
    assert s == a + b;
    assert a[i] == s[i];
    assert b[0] == s[i];
    assert multiset(s) == multiset(a) + multiset(b);
  }

  /** The two tables after the values ranked 0 .. r-1 have been labelled, one rank at a
      time: the value ranked j gets colour i<j>, and the same record is entered in the
      table of interesting values. */
  function Labelling(ranked: seq<Entry>, r: nat, seen0: map<string, ValueInfo>, interesting0: map<string, ValueInfo>)
    : (t: (map<string, ValueInfo>, map<string, ValueInfo>))
    requires r <= |ranked|
    requires forall i :: 0 <= i < |ranked| ==> ranked[i].value in seen0
    ensures t.0.Keys == seen0.Keys
  {
    if r == 0 then (seen0, interesting0)
    else
      var (seen, interesting) := Labelling(ranked, r - 1, seen0, interesting0);
      var value := ranked[r - 1].value;
      var info := seen[value].(colorName := Some(ColorName(r - 1)));
      (seen[value := info], interesting[value := info])
  }

  /** The labelling loop of process, over the first min(k, n) ranked values. */
  method Label(ranked: seq<Entry>, k: nat, seen0: map<string, ValueInfo>, interesting0: map<string, ValueInfo>)
    returns (seen: map<string, ValueInfo>, interesting: map<string, ValueInfo>)
    requires forall r :: 0 <= r < |ranked| ==> ranked[r].value in seen0
    ensures (seen, interesting) == Labelling(ranked, Min(k, |ranked|), seen0, interesting0)
  {
    seen, interesting := seen0, interesting0;
    var n := Min(k, |ranked|);
    var r := 0;
    while r < n
      invariant 0 <= r <= n
      invariant (seen, interesting) == Labelling(ranked, r, seen0, interesting0)
    {
      var value := ranked[r].value;
      var info := seen[value].(colorName := Some(ColorName(r)));
      seen := seen[value := info];
      interesting := interesting[value := info];
      r := r + 1;
    }
  }

  /** What Labelling promises for distinct ranked values: each of the first r is coloured
      by its rank in both tables and nothing else changes (LabelledUpTo). */
  lemma LabellingLabels(ranked: seq<Entry>, r: nat, seen0: map<string, ValueInfo>,
                        interesting0: map<string, ValueInfo>)
    requires r <= |ranked|
    requires forall i :: 0 <= i < |ranked| ==> ranked[i].value in seen0
    requires forall i, j :: 0 <= i < j < |ranked| ==> ranked[i].value != ranked[j].value
    requires forall v :: v in interesting0 ==> v in seen0 && interesting0[v].colorName.Some?
    ensures var t := Labelling(ranked, r, seen0, interesting0);
            LabelledUpTo(ranked, r, seen0, interesting0, t.0, t.1)
  {
    var t := Labelling(ranked, r, seen0, interesting0);
    forall v | v in t.0 ensures t.0[v] == seen0[v].(colorName := t.0[v].colorName) {
      LabellingAt(ranked, r, seen0, interesting0, v);
    }
    forall v ensures v in t.1 <==> v in interesting0 || RankedBelow(ranked, r, v) {
      LabellingAt(ranked, r, seen0, interesting0, v);
    }
    forall v | v in t.0 && !RankedBelow(ranked, r, v) ensures t.0[v] == seen0[v] {
      LabellingAt(ranked, r, seen0, interesting0, v);
    }
    forall v | v in interesting0 && !RankedBelow(ranked, r, v) ensures t.1[v] == interesting0[v] {
      LabellingAt(ranked, r, seen0, interesting0, v);
    }
    forall v | v in t.1 ensures v in t.0 && t.1[v].colorName.Some? {
      LabellingAt(ranked, r, seen0, interesting0, v);
    }
    forall j | 0 <= j < r ensures Labelled(t.0, t.1, seen0, ranked[j].value, j) {
      LabellingRanked(ranked, r, seen0, interesting0, j);
    }
  }

  /** What labelling the first r ranked values does to one value v. */
  ghost predicate LabellingAtHolds(ranked: seq<Entry>, r: nat, seen0: map<string, ValueInfo>,
                                   interesting0: map<string, ValueInfo>,
                                   seen: map<string, ValueInfo>, interesting: map<string, ValueInfo>, v: string)
    requires r <= |ranked|
  {
    && (v in interesting <==> v in interesting0 || RankedBelow(ranked, r, v))
    && (v in seen <==> v in seen0)
    && (v in seen ==> seen[v] == seen0[v].(colorName := seen[v].colorName))
    && (v in seen && !RankedBelow(ranked, r, v) ==> seen[v] == seen0[v])
    && (v in interesting0 && !RankedBelow(ranked, r, v) ==> interesting[v] == interesting0[v])
    && (v in interesting ==> v in seen && interesting[v].colorName.Some?)
  }

  lemma {:induction false} LabellingAt(ranked: seq<Entry>, r: nat, seen0: map<string, ValueInfo>,
                                       interesting0: map<string, ValueInfo>, v: string)
    requires r <= |ranked|
    requires forall i :: 0 <= i < |ranked| ==> ranked[i].value in seen0
    requires forall v :: v in interesting0 ==> v in seen0 && interesting0[v].colorName.Some?
    ensures var t := Labelling(ranked, r, seen0, interesting0);
            LabellingAtHolds(ranked, r, seen0, interesting0, t.0, t.1, v)
  {
    if r == 0 {
      assert !RankedBelow(ranked, 0, v);
    } else {
      LabellingAt(ranked, r - 1, seen0, interesting0, v);
      RankedBelowStep(ranked, r - 1, v);
    }
  }

  lemma {:induction false} LabellingRanked(ranked: seq<Entry>, r: nat, seen0: map<string, ValueInfo>,
                                           interesting0: map<string, ValueInfo>, j: nat)
    requires j < r <= |ranked|
    requires forall i :: 0 <= i < |ranked| ==> ranked[i].value in seen0
    requires forall i, j :: 0 <= i < j < |ranked| ==> ranked[i].value != ranked[j].value
    requires forall v :: v in interesting0 ==> v in seen0 && interesting0[v].colorName.Some?
    ensures var t := Labelling(ranked, r, seen0, interesting0);
            Labelled(t.0, t.1, seen0, ranked[j].value, j)
  {
    var v := ranked[j].value;
    if j == r - 1 {
      LabellingAt(ranked, r - 1, seen0, interesting0, v);
      assert !RankedBelow(ranked, r - 1, v) by {
        assert forall i :: 0 <= i < r - 1 ==> ranked[i].value != ranked[j].value;
      }
    } else {
      LabellingRanked(ranked, r - 1, seen0, interesting0, j);
      assert ranked[r - 1].value != v;
    }
  }

  /** Labelling changes colours only, so the value table keeps its keys and counts. */
  lemma LabelledKeepsCounts(ranked: seq<Entry>, r: nat, seen0: map<string, ValueInfo>,
                            interesting0: map<string, ValueInfo>,
                            seen: map<string, ValueInfo>, interesting: map<string, ValueInfo>)
    requires r <= |ranked|
    requires LabelledUpTo(ranked, r, seen0, interesting0, seen, interesting)
    requires forall v :: v in seen0 ==> StartsWith(v, "0x") && seen0[v].count >= 1
    ensures forall v :: v in seen ==> StartsWith(v, "0x") && seen[v].count >= 1
  {
    forall v | v in seen ensures StartsWith(v, "0x") && seen[v].count >= 1 {
      assert seen[v] == seen0[v].(colorName := seen[v].colorName);
    }
  }

  /** Value v is among the first r ranked values. */
  ghost predicate RankedBelow(ranked: seq<Entry>, r: nat, v: string)
    requires r <= |ranked|
  {
    exists j :: 0 <= j < r && ranked[j].value == v
  }

  lemma RankedBelowStep(ranked: seq<Entry>, r: nat, v: string)
    requires r < |ranked|
    ensures RankedBelow(ranked, r + 1, v) <==> RankedBelow(ranked, r, v) || ranked[r].value == v
  {
    if RankedBelow(ranked, r + 1, v) && ranked[r].value != v {
      var j :| 0 <= j < r + 1 && ranked[j].value == v;
      assert j < r;
    }
  }

  /** What labelling the first `r` ranked values leaves behind: the same keys, with only
      colours changed; each of them coloured by its rank in both tables and otherwise
      unchanged; the interesting table grown by exactly those values; every other value
      as it was; and every interesting value seen and coloured. */
  ghost predicate LabelledUpTo(ranked: seq<Entry>, r: nat, seen0: map<string, ValueInfo>,
                               interesting0: map<string, ValueInfo>,
                               seen: map<string, ValueInfo>, interesting: map<string, ValueInfo>)
    requires r <= |ranked|
  {
    && seen.Keys == seen0.Keys
    && (forall v :: v in seen ==> seen[v] == seen0[v].(colorName := seen[v].colorName))
    && (forall j :: 0 <= j < r ==> Labelled(seen, interesting, seen0, ranked[j].value, j))
    && (forall v :: v in interesting <==> v in interesting0 || RankedBelow(ranked, r, v))
    && (forall v :: v in seen && !RankedBelow(ranked, r, v) ==> seen[v] == seen0[v])
    && (forall v :: v in interesting0 && !RankedBelow(ranked, r, v) ==> interesting[v] == interesting0[v])
    && (forall v :: v in interesting ==> v in seen && interesting[v].colorName.Some?)
  }

  /** An entry occurring twice in a list of pairwise distinct entries is impossible. */
  lemma DistinctCountsOnce(s: seq<Entry>, e: Entry)
    requires forall i, j :: 0 <= i < j < |s| ==> s[i] != s[j]
    ensures multiset(s)[e] <= 1
  {
    if |s| > 0 {
      var t := s[..|s| - 1];
      assert s == t + [s[|s| - 1]];
      DistinctCountsOnce(t, e);
      if s[|s| - 1] == e {
        assert e !in t;
      }
    }
  }

  // ================================================================ runHelpers

  /** What one frame helper's process_frame answered for a frame. */
  datatype Verdict<F> = Verdict(frames: seq<F>, show: bool)

  /** runHelpers: the frame is shown only if every helper shows it; the synthetic frames
      are those of the last helper that produced a non-empty list (None if none did). */
  method RunHelpers<F>(verdicts: seq<Verdict<F>>) returns (synFrames: Option<seq<F>>, show: bool)
    ensures show <==> forall i :: 0 <= i < |verdicts| ==> verdicts[i].show
    ensures synFrames.None? <==> forall i :: 0 <= i < |verdicts| ==> verdicts[i].frames == []
    ensures synFrames.Some? ==> exists i :: 0 <= i < |verdicts| && synFrames.value == verdicts[i].frames != [] &&
                                  forall j :: i < j < |verdicts| ==> verdicts[j].frames == []
  {
    synFrames := None;
    show := true;
    var i := 0;
    while i < |verdicts|
      invariant 0 <= i <= |verdicts|
      invariant show <==> forall j :: 0 <= j < i ==> verdicts[j].show
      invariant synFrames.None? <==> forall j :: 0 <= j < i ==> verdicts[j].frames == []
      invariant synFrames.Some? ==> exists j :: 0 <= j < i && synFrames.value == verdicts[j].frames != [] &&
                                      forall l :: j < l < i ==> verdicts[l].frames == []
    {
      var verdict := verdicts[i];
      if !verdict.show {
        show := false;
      }
      if verdict.frames != [] {
        synFrames := Some(verdict.frames);
      }
      i := i + 1;
    }
  }

  // ================================================================ the cbt command

  datatype Mode = Normal | Terse | Paste | Full

  /** The settings the command's argument words select. */
  datatype Settings = Settings(filter: bool, mode: Mode, count: int)

  predicate IsModeWord(w: string) { w == "full" || w == "terse" || w == "paste" }

  function ModeOf(w: string): Mode
    requires IsModeWord(w)
  {
    if w == "full" then Full else if w == "terse" then Terse else Paste
  }

  /** A word the loop hands to int(). */
  predicate IsCountWord(w: string) { w != "" && w != "raw" && !IsModeWord(w) }

  /** The settings before any word is read: filtered, normal mode, every frame. */
  const Initial := Settings(true, Normal, 0)

  /** The effect of one argument word: '' is skipped, 'raw' turns filtering off, 'full',
      'terse' and 'paste' pick the mode, any other word is a frame count for int(). */
  function ApplyWord(s: Settings, w: string): Result<Settings> {
    if w == "" then Ok(s)
    else if w == "raw" then Ok(s.(filter := false))
    else if IsModeWord(w) then Ok(s.(mode := ModeOf(w)))
    else
      match ParseInt(w)
      case Ok(n) => Ok(s.(count := n))
      case Err(e) => Err(e)
  }

  /** The settings after the words, in order; the first malformed count raises. */
  function Settle(words: seq<string>): Result<Settings>
  {
    if |words| == 0 then Ok(Initial)
    else
      match Settle(words[..|words| - 1])
      case Err(e) => Err(e)
      case Ok(s) => ApplyWord(s, words[|words| - 1])
  }

  lemma SettleStep(words: seq<string>, i: nat)
    requires i < |words|
    ensures Settle(words[..i + 1]) == match Settle(words[..i])
                                      case Err(e) => Err(e)
                                      case Ok(s) => ApplyWord(s, words[i])
  {
    assert words[..i + 1][..i] == words[..i];
  }

  /** Some count word is not an integer literal. */
  predicate HasBadCount(words: seq<string>) {
    exists w :: w in words && IsBadCount(w)
  }

  /** A count word that int() rejects. */
  predicate IsBadCount(w: string) {
    IsCountWord(w) && ParseInt(w).Err?
  }

  lemma ApplyWordFails(s: Settings, w: string)
    ensures ApplyWord(s, w).Err? <==> IsBadCount(w)
  {
  }

  lemma HasBadCountLast(words: seq<string>)
    requires |words| > 0
    ensures var n := |words| - 1;
            HasBadCount(words) <==> HasBadCount(words[..n]) || IsBadCount(words[n])
  {
    var n := |words| - 1;
    assert words == words[..n] + [words[n]];
  }

  /** The command fails exactly when some count word is not an integer literal. */
  lemma {:induction false} SettleFails(words: seq<string>)
    ensures Settle(words).Err? <==> HasBadCount(words)
    decreases |words|
  {
    if |words| > 0 {
      var n := |words| - 1;
      SettleFails(words[..n]);
      HasBadCountLast(words);
      if Settle(words[..n]).Ok? {
        ApplyWordFails(Settle(words[..n]).value, words[n]);
      }
    }
  }

  /** Filtering stays on unless one of the words is 'raw'. */
  lemma {:induction false} SettleFilter(words: seq<string>)
    requires Settle(words).Ok?
    ensures Settle(words).value.filter <==> "raw" !in words
    decreases |words|
  {
    if |words| > 0 {
      var n := |words| - 1;
      SettleFilter(words[..n]);
      assert words == words[..n] + [words[n]];
    }
  }

  /** words[i] is the last mode word. */
  predicate IsLastModeWord(words: seq<string>, i: nat) {
    i < |words| && IsModeWord(words[i]) && forall j :: i < j < |words| ==> !IsModeWord(words[j])
  }

  predicate NoModeWord(words: seq<string>) {
    forall i :: 0 <= i < |words| ==> !IsModeWord(words[i])
  }

  /** The mode is that of the last mode word, Normal when there is none. */
  lemma {:induction false} SettleMode(words: seq<string>)
    requires Settle(words).Ok?
    ensures NoModeWord(words) ==> Settle(words).value.mode == Normal
    ensures forall i: nat :: IsLastModeWord(words, i) ==> Settle(words).value.mode == ModeOf(words[i])
    decreases |words|
  {
    if |words| > 0 {
      var n := |words| - 1;
      var pre := words[..n];
      SettleMode(pre);
      if NoModeWord(words) {
        assert NoModeWord(pre) by {
          forall i | 0 <= i < n ensures !IsModeWord(pre[i]) {
            assert pre[i] == words[i];
          }
        }
      }
      forall i: nat | IsLastModeWord(words, i) ensures Settle(words).value.mode == ModeOf(words[i]) {
        if i < n {
          assert pre[i] == words[i];
          assert IsLastModeWord(pre, i);
        }
      }
    }
  }

  /** words[i] is the last count word. */
  predicate IsLastCountWord(words: seq<string>, i: nat) {
    i < |words| && IsCountWord(words[i]) && forall j :: i < j < |words| ==> !IsCountWord(words[j])
  }

  predicate NoCountWord(words: seq<string>) {
    forall i :: 0 <= i < |words| ==> !IsCountWord(words[i])
  }

  /** A count word sets the count to its value; any other word keeps it. */
  lemma ApplyWordCount(s: Settings, w: string)
    requires ApplyWord(s, w).Ok?
    ensures IsCountWord(w) ==> ParseInt(w) == Ok(ApplyWord(s, w).value.count)
    ensures !IsCountWord(w) ==> ApplyWord(s, w).value.count == s.count
  {
  }

  /** The frame count is the value of the last count word, 0 when there is none. */
  lemma {:induction false} SettleCount(words: seq<string>)
    requires Settle(words).Ok?
    ensures NoCountWord(words) ==> Settle(words).value.count == 0
    ensures forall i: nat :: IsLastCountWord(words, i) ==> ParseInt(words[i]) == Ok(Settle(words).value.count)
    decreases |words|
  {
    if |words| > 0 {
      var n := |words| - 1;
      var pre := words[..n];
      SettleCount(pre);
      ApplyWordCount(Settle(pre).value, words[n]);
      if NoCountWord(words) {
        assert NoCountWord(pre) by {
          forall i | 0 <= i < n ensures !IsCountWord(pre[i]) {
            assert pre[i] == words[i];
          }
        }
      }
      forall i: nat | IsLastCountWord(words, i) ensures ParseInt(words[i]) == Ok(Settle(words).value.count) {
        if i < n {
          assert pre[i] == words[i];
          assert IsLastCountWord(pre, i);
        }
      }
    }
  }

  /** The argument-word loop of invoke, on the words of the argument split at spaces. */
  method ParseSettings(arg: string) returns (r: Result<Settings>)
    ensures r == Settle(Split(arg, ' '))
  {
    var words := Split(arg, ' ');
    var filter, mode, count := true, Normal, 0;
    var i := 0;
    while i < |words|
      invariant 0 <= i <= |words|
      invariant Settle(words[..i]) == Ok(Settings(filter, mode, count))
    {
      var word := words[i];
      SettleStep(words, i);
      if word == "" {
      } else if word == "raw" {
        filter := false;
      } else if IsModeWord(word) {
        mode := ModeOf(word);
      } else {
        var parsed := ParseInt(word);
        if parsed.Err? {
          SettleFailed(words, i + 1);
          return Err(parsed.error);
        }
        count := parsed.value;
      }
      i := i + 1;
    }
    assert words[..i] == words;
    return Ok(Settings(filter, mode, count));
  }

  /** A failure on some prefix of the words is the failure of the whole command. */
  lemma {:induction false} SettleFailed(words: seq<string>, i: nat)
    requires i <= |words| && Settle(words[..i]).Err?
    ensures Settle(words) == Settle(words[..i])
    decreases |words| - i
  {
    if i == |words| {
      assert words[..i] == words;
    } else {
      SettleStep(words, i);
      SettleFailed(words, i + 1);
    }
  }

  /** Python's `s[x:]`. */
  function SliceFrom<T>(s: seq<T>, x: int): (r: seq<T>)
    ensures IsTail(r, s)
  {
    if x < 0 then (if |s| + x < 0 then s else s[|s| + x..])
    else if x > |s| then []
    else s[x..]
  }

  ghost predicate IsTail<T>(t: seq<T>, s: seq<T>) {
    |t| <= |s| && s[|s| - |t|..] == t
  }

  /** final_n: copy the items into a list, then slice it from x. */
  method FinalN<T>(items: seq<T>, x: int) returns (r: seq<T>)
    ensures r == SliceFrom(items, x)
  {
    var result: seq<T> := [];
    var i := 0;
    while i < |items|
      invariant 0 <= i <= |items|
      invariant result == items[..i]
    {
      result := result + [items[i]];
      i := i + 1;
    }
    assert result == items;
    r := SliceFrom(result, x);
  }

  /** The frames the command describes, each with its original 0-based ordinal: the last
      |count| frames for a negative count, the first count frames for a positive one, all
      of them for zero. */
  method SelectFrames<T>(frames: seq<T>, count: int) returns (selected: seq<(nat, T)>)
    ensures count == 0 ==> |selected| == |frames|
    ensures count > 0 ==> |selected| == Min(count, |frames|)
    ensures count < 0 ==> |selected| == Min(-count, |frames|)
    ensures forall j :: 0 <= j < |selected| ==>
              var ordinal := |frames| - |selected| + j;
              if count < 0 then selected[j] == (ordinal, frames[ordinal]) else selected[j] == (j, frames[j])
  {
    var numbered := seq(|frames|, i requires 0 <= i < |frames| => (i as nat, frames[i]));
    if count < 0 {
      selected := FinalN(numbered, count);
    } else if count > 0 {
      selected := numbered[..Min(count, |numbered|)];
    } else {
      selected := numbered;
    }
  }
}
