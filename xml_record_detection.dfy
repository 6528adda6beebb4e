/**
 * Record-path detection over a tree cursor: the qualified-name rule, the
 * subtree skip, the search for a named element and the frequency heuristic
 * that guesses which repeated element is one record.
 */
module XmlRecordDetection {
  import opened Wrappers
  import opened TreeReader
  import opened FileNaming

  /** `prefix:localName` when a prefix is present, else the local name. */
  function ComposeName(prefix: string, localName: string): string {
    if |prefix| > 0 then prefix + ":" + localName else localName
  }

  /** Reads a qualified name back as (prefix, local name), splitting at the first ':'. */
  function SplitName(name: string): (string, string) {
    var i := IndexOf(name, ':');
    if i < 0 then ("", name) else (name[..i], name[i + 1..])
  }

  /** Splitting a composed name at its first ':' recovers its parts when the prefix has no ':'. */
  lemma ComposeSplitRoundTrip(prefix: string, localName: string)
    requires ':' !in prefix
    requires |prefix| == 0 ==> ':' !in localName
    ensures SplitName(ComposeName(prefix, localName)) == (prefix, localName)
  {
    if |prefix| > 0 {
      var s := prefix + ":" + localName;
      var i := IndexOf(s, ':');
      assert i == |prefix| by {
        assert s[|prefix|] == ':';
        assert forall j :: 0 <= j < |prefix| ==> s[j] == prefix[j];
      }
      assert s[..i] == prefix;
      assert s[i + 1..] == localName;
    }
  }

  /** A start node whose local name or qualified name is `tag`. */
  predicate Matches(tok: Token, tag: string) {
    tok.StartEntity? && (tag == tok.localName || tag == ComposeName(tok.prefix, tok.localName))
  }

  /**
   * Consumes the node started at cursor `c` together with its whole subtree:
   * the cursor ends on the balancing end node, or on the last token when the
   * stream ends first.
   */
  method Skip(t: seq<Token>, c: nat) returns (e: nat)
    requires c < |t| && t[c].StartEntity?
    ensures SubtreeSpan(t, c, e)
    decreases |t| - c
  {
    StartOpens(t, c);
    var pos := c;
    while pos + 1 < |t|
      invariant c <= pos < |t|
      invariant OpenThrough(t, c, pos + 1)
      invariant pos + 1 < |t| ==> Depth(t, c, pos + 1) == 1
      decreases |t| - pos
    {
      pos := pos + 1;
      match t[pos]
      case StartEntity(_, _, _) =>
        var e' := Skip(t, pos);
        ChildSpan(t, c, pos, e');
        pos := e';
      case EndEntity(_, _) =>
        return pos;
      case _ =>
        PlainStep(t, c, pos);
    }
    e := pos;
  }

  /**
   * Depth-first search, from the start node at `c`, for the first start node
   * matching `tag`.  On success the path is the local names of the elements
   * open at the match, outermost first; otherwise the enclosing node has been
   * consumed (or the stream has ended) without any match.
   */
  method DetectTagPath(t: seq<Token>, c: nat, tag: string) returns (path: Option<seq<string>>, e: nat)
    requires c < |t| && t[c].StartEntity?
    ensures c <= e < |t|
    ensures forall k :: c <= k < e ==> !Matches(t[k], tag)
    ensures path.Some? ==> Matches(t[e], tag) && OpenThrough(t, c, e) && path.value == OpenNames(t, c, e + 1)
    ensures path.None? ==> SubtreeSpan(t, c, e) && !Matches(t[e], tag)
    decreases |t| - c
  {
    StartOpens(t, c);
    var localName := t[c].localName;
    if Matches(t[c], tag) {
      return Some([localName]), c;
    }
    var pos := c;
    while pos + 1 < |t|
      invariant c <= pos < |t|
      invariant OpenThrough(t, c, pos + 1)
      invariant pos + 1 < |t| ==> Depth(t, c, pos + 1) == 1 && OpenNames(t, c, pos + 1) == [localName]
      invariant forall k :: c <= k <= pos ==> !Matches(t[k], tag)
      decreases |t| - pos
    {
      pos := pos + 1;
      match t[pos]
      case EndEntity(_, _) =>
        return None, pos;
      case StartEntity(_, _, _) =>
        var p, e' := DetectTagPath(t, pos, tag);
        if p.Some? {
          ChildMatch(t, c, pos, e');
          return Some([localName] + p.value), e';
        }
        ChildSpan(t, c, pos, e');
        pos := e';
      case _ =>
        PlainStep(t, c, pos);
    }
    return None, pos;
  }

  /**
   * Scans the whole stream from its initial position for the first start node
   * matching `tag` and returns its path from the top-level element that holds
   * it; None when no start node after the initial position matches.
   */
  method DetectPathFromTag(t: seq<Token>, tag: string) returns (path: Option<seq<string>>, ghost root: nat, ghost at: nat)
    ensures path.Some? ==>
      root <= at < |t| && t[root].StartEntity? && Matches(t[at], tag) &&
      path.value == OpenNames(t, root, at + 1) && path.value != [] &&
      path.value[|path.value| - 1] == t[at].localName &&
      forall k :: 0 < k < at ==> !Matches(t[k], tag)
    ensures path.Some? ==> 1 <= root && OpenStarts(t, 1, root) == []
    ensures path.None? ==> forall k :: 0 < k < |t| ==> !Matches(t[k], tag)
  {
    root, at := 0, 0;
    if |t| == 0 {
      return None, root, at;
    }
    var pos := 0;
    while pos + 1 < |t|
      invariant pos < |t|
      invariant forall k :: 0 < k <= pos ==> !Matches(t[k], tag)
      invariant pos + 1 < |t| ==> OpenStarts(t, 1, pos + 1) == []
      decreases |t| - pos
    {
      pos := pos + 1;
      if t[pos].StartEntity? {
        var p, e := DetectTagPath(t, pos, tag);
        if p.Some? {
          return p, pos, e;
        }
        if Closes(t, pos, e) {
          ClosedAfter(t, pos, e);
          OpenStartsConcat(t, 1, pos, e + 1);
        }
        pos := e;
      }
    }
    return None, root, at;
  }

  // ---------------------------------------------------------------------
  // The record-element heuristic

  /** A possible record element: its path of local names and how often it repeats. */
  datatype Candidate = Candidate(path: seq<string>, count: nat)

  /**
   * The first candidate after sorting by descending count: a most numerous
   * one, the earliest of them in list order.
   */
  function MostNumerous(cs: seq<Candidate>): (b: Candidate)
    requires |cs| > 0
    ensures b in cs
    ensures forall x :: x in cs ==> x.count <= b.count
    ensures forall j :: 0 <= j < |cs| && cs[j] != b ==> cs[j].count < b.count || exists i :: 0 <= i < j && cs[i] == b
  {
    if |cs| == 1 then cs[0]
    else
      var r := MostNumerous(cs[1..]);
      if cs[0].count >= r.count then cs[0] else r
  }

  /** Number of times `n` occurs in `names`. */
  function Occurrences(names: seq<string>, n: string): nat {
    if names == [] then 0
    else Occurrences(names[..|names| - 1], n) + (if names[|names| - 1] == n then 1 else 0)
  }

  /** The distinct names in order of first appearance: the keys of the child-count map. */
  function Distinct(names: seq<string>): (d: seq<string>)
    ensures forall n :: n in d <==> n in names
  {
    if names == [] then []
    else
      var d := Distinct(names[..|names| - 1]);
      var last := names[|names| - 1];
      assert names == names[..|names| - 1] + [last];
      if last in d then d else d + [last]
  }

  /** Candidates for the keys that occur more than once among the immediate children. */
  function Repeating(path: seq<string>, keys: seq<string>, names: seq<string>): seq<Candidate> {
    if keys == [] then []
    else
      var last := keys[|keys| - 1];
      Repeating(path, keys[..|keys| - 1], names) +
      (if Occurrences(names, last) > 1 then [Candidate(path + [last], Occurrences(names, last))] else [])
  }

  /** The immediate-child candidate pool of a node at `path` whose children are named `names`. */
  function ImmediateCandidates(path: seq<string>, names: seq<string>): seq<Candidate> {
    Repeating(path, Distinct(names), names)
  }

  /** Acceptance test on a pool: its most numerous member, if it repeats more than 5 times per pool member. */
  function Accept(pool: seq<Candidate>): Option<Candidate> {
    if |pool| == 0 then None
    else
      var best := MostNumerous(pool);
      if best.count / |pool| > 5 then Some(best) else None
  }

  /**
   * What one node yields: its most numerous repeating immediate child when the
   * pool of repeating children has 1 to 4 members and passes the threshold;
   * otherwise the pool's best joins the descendant candidates, which then face
   * the same threshold.
   */
  function Decide(path: seq<string>, names: seq<string>, descendants: seq<Candidate>): Option<Candidate> {
    var immediate := ImmediateCandidates(path, names);
    if 0 < |immediate| < 5 then
      var ours := MostNumerous(immediate);
      if ours.count / |immediate| > 5 then Some(ours) else Accept(descendants + [ours])
    else Accept(descendants)
  }

  lemma {:induction false} RepeatingMembers(path: seq<string>, keys: seq<string>, names: seq<string>)
    ensures forall x :: x in Repeating(path, keys, names) ==>
      |x.path| == |path| + 1 && x.path[..|path|] == path && x.path[|path|] in keys &&
      x.count == Occurrences(names, x.path[|path|]) && x.count > 1
    ensures forall n :: n in keys && Occurrences(names, n) > 1 ==>
      Candidate(path + [n], Occurrences(names, n)) in Repeating(path, keys, names)
    decreases |keys|
  {
    if keys != [] {
      var init := keys[..|keys| - 1];
      RepeatingMembers(path, init, names);
      assert keys == init + [keys[|keys| - 1]];
      forall x | x in Repeating(path, keys, names)
        ensures x.path[..|path|] == path && x.path[|path|] in keys
      {
        if x !in Repeating(path, init, names) {
          assert x.path == path + [keys[|keys| - 1]];
        }
      }
    }
  }

  /**
   * Only immediate children seen more than once become candidates, each with
   * its number of occurrences, and every such child does.
   */
  lemma ImmediateCandidatesAreRepeatedChildren(path: seq<string>, names: seq<string>)
    ensures forall x :: x in ImmediateCandidates(path, names) ==>
      |x.path| == |path| + 1 && x.path[..|path|] == path && x.path[|path|] in names &&
      x.count == Occurrences(names, x.path[|path|]) && x.count > 1
    ensures forall n :: n in names && Occurrences(names, n) > 1 ==>
      Candidate(path + [n], Occurrences(names, n)) in ImmediateCandidates(path, names)
  {
    RepeatingMembers(path, Distinct(names), names);
  }

  lemma QuotientBound(a: nat, n: nat)
    requires n >= 1 && a / n > 5
    ensures a >= 6 * n
  {
    assert a == n * (a / n) + a % n;
    assert n * (a / n) >= n * 6;
  }

  /** An accepted candidate comes from its pool and repeats at least six times per pool member. */
  lemma AcceptSound(pool: seq<Candidate>)
    ensures Accept(pool).Some? ==>
      Accept(pool).value in pool && Accept(pool).value.count >= 6 * |pool| &&
      forall x :: x in pool ==> x.count <= Accept(pool).value.count
  {
    if Accept(pool).Some? {
      QuotientBound(MostNumerous(pool).count, |pool|);
    }
  }

  /**
   * A node yields only a candidate drawn from its repeating immediate children
   * or from its descendants' candidates, and only one that repeats at least six times.
   */
  lemma DecideSound(path: seq<string>, names: seq<string>, descendants: seq<Candidate>)
    ensures Decide(path, names, descendants).Some? ==>
      var x := Decide(path, names, descendants).value;
      x.count >= 6 && (x in ImmediateCandidates(path, names) || x in descendants)
  {
    var immediate := ImmediateCandidates(path, names);
    if 0 < |immediate| < 5 {
      var ours := MostNumerous(immediate);
      if ours.count / |immediate| > 5 {
        QuotientBound(ours.count, |immediate|);
      } else {
        AcceptSound(descendants + [ours]);
      }
    } else {
      AcceptSound(descendants);
    }
  }

  /** The immediate pool is ignored unless it has between one and four members. */
  lemma PoolSizeRule(path: seq<string>, names: seq<string>, descendants: seq<Candidate>)
    requires |ImmediateCandidates(path, names)| == 0 || |ImmediateCandidates(path, names)| >= 5
    ensures Decide(path, names, descendants) == Accept(descendants)
  {
  }

  /**
   * Integer division: in a pool of two whose first candidate is at least as
   * numerous as the second, the first is accepted exactly when it occurs 12
   * times or more (eleven occurrences over two give 5, which is rejected).
   */
  lemma PairThreshold(p: seq<string>, q: seq<string>, n: nat, m: nat)
    requires m <= n
    ensures Accept([Candidate(p, n), Candidate(q, m)]).Some? <==> n >= 12
    ensures n >= 12 ==> Accept([Candidate(p, n), Candidate(q, m)]) == Some(Candidate(p, n))
  {
  }

  // ---------------------------------------------------------------------
  // The detection walk

  /** Local names of the immediate children of the node at `c` among positions c+1 .. b-1. */
  ghost function ChildNames(t: seq<Token>, c: nat, b: nat): seq<string>
    requires c < b <= |t|
    decreases b
  {
    if b == c + 1 then []
    else
      ChildNames(t, c, b - 1) +
      (if t[b - 1].StartEntity? && Depth(t, c, b - 1) == 1 then [t[b - 1].localName] else [])
  }

  lemma {:induction false} ChildNamesInside(t: seq<Token>, c: nat, s: nat, b: nat)
    requires c < s < b <= |t|
    requires forall k :: s < k < b ==> Depth(t, c, k) >= 2
    ensures ChildNames(t, c, b) == ChildNames(t, c, s + 1)
    decreases b
  {
    if b > s + 1 {
      ChildNamesInside(t, c, s, b - 1);
    }
  }

  /** After a child subtree the parent is open at depth one again, and the child is its newest child name. */
  lemma ChildStep(t: seq<Token>, c: nat, s: nat, e: nat)
    requires c < s < |t| && OpenThrough(t, c, s) && Depth(t, c, s) == 1 && t[s].StartEntity?
    requires SubtreeSpan(t, s, e)
    ensures s <= e < |t| && OpenThrough(t, c, e + 1)
    ensures e + 1 < |t| ==> Depth(t, c, e + 1) == 1
    ensures ChildNames(t, c, e + 1) == ChildNames(t, c, s) + [t[s].localName]
  {
    ChildSpan(t, c, s, e);
    ChildNamesInside(t, c, s, e + 1);
  }

  /** The child-count map and its key list agree with the child names seen so far. */
  ghost predicate Tally(counts: map<string, nat>, keys: seq<string>, names: seq<string>) {
    keys == Distinct(names) &&
    (forall n :: n in counts <==> n in names) &&
    (forall n :: n in counts ==> counts[n] == Occurrences(names, n))
  }

  /** Counting one more child keeps the count map and the key list in step with the names seen. */
  lemma CountStep(names: seq<string>, n: string, counts: map<string, nat>, keys: seq<string>)
    requires Tally(counts, keys, names)
    ensures Tally(counts[n := if n in counts then counts[n] + 1 else 1],
                  if n in keys then keys else keys + [n], names + [n])
  {
    var names' := names + [n];
    assert names'[..|names'| - 1] == names;
    var counts' := counts[n := if n in counts then counts[n] + 1 else 1];
    forall m | m in counts'
      ensures counts'[m] == Occurrences(names', m)
    {
      assert Occurrences(names', m) == Occurrences(names, m) + (if m == n then 1 else 0);
      if m == n && n !in counts {
        assert n !in names;
        OccurrencesAbsent(names, n);
      }
    }
  }

  lemma {:induction false} OccurrencesAbsent(names: seq<string>, n: string)
    requires n !in names
    ensures Occurrences(names, n) == 0
  {
    if names != [] {
      assert n !in names[..|names| - 1];
      OccurrencesAbsent(names[..|names| - 1], n);
    }
  }

  /**
   * The state of the walk over the node started at `c` once the token at
   * `pos` has been consumed: the node is still open (at depth one unless the
   * stream has ended), the child names and their tally are those seen so
   * far, and every descendant candidate lies below `path`.
   */
  ghost predicate Walked(t: seq<Token>, c: nat, pos: nat, path: seq<string>, counts: map<string, nat>,
                         keys: seq<string>, names: seq<string>, descendants: seq<Candidate>)
  {
    c <= pos < |t| && OpenThrough(t, c, pos + 1) &&
    (pos + 1 < |t| ==> Depth(t, c, pos + 1) == 1) &&
    names == ChildNames(t, c, pos + 1) &&
    Tally(counts, keys, names) &&
    forall d :: d in descendants ==> |d.path| > |path| + 1 && d.path[..|path|] == path
  }

  lemma WalkPlain(t: seq<Token>, c: nat, pos: nat, path: seq<string>, counts: map<string, nat>,
                  keys: seq<string>, names: seq<string>, descendants: seq<Candidate>)
    requires Walked(t, c, pos, path, counts, keys, names, descendants) && pos + 1 < |t|
    requires !t[pos + 1].StartEntity? && !t[pos + 1].EndEntity?
    ensures Walked(t, c, pos + 1, path, counts, keys, names, descendants)
    ensures ChildCandidates(t, pos, path, descendants) == ChildCandidates(t, pos + 1, path, descendants)
  {
    PlainStep(t, c, pos + 1);
  }

  lemma WalkChild(t: seq<Token>, c: nat, pos: nat, path: seq<string>, counts: map<string, nat>,
                  keys: seq<string>, names: seq<string>, descendants: seq<Candidate>,
                  sub: Option<Candidate>, e: nat, counts': map<string, nat>, keys': seq<string>,
                  names': seq<string>, descendants': seq<Candidate>)
    requires Walked(t, c, pos, path, counts, keys, names, descendants) && pos + 1 < |t|
    requires t[pos + 1].StartEntity?
    requires (sub, e) == CandidateOf(t, pos + 1, path + [t[pos + 1].localName]) && SubtreeSpan(t, pos + 1, e)
    requires var p := path + [t[pos + 1].localName];
             sub.Some? ==> |sub.value.path| > |p| && sub.value.path[..|p|] == p
    requires var n := t[pos + 1].localName;
             counts' == counts[n := if n in counts then counts[n] + 1 else 1] &&
             keys' == (if n in keys then keys else keys + [n]) && names' == names + [n] &&
             descendants' == if sub.Some? then descendants + [sub.value] else descendants
    ensures Walked(t, c, e, path, counts', keys', names', descendants')
    ensures ChildCandidates(t, pos, path, descendants) == ChildCandidates(t, e, path, descendants')
  {
    var n := t[pos + 1].localName;
    assert Tally(counts', keys', names') by {
      CountStep(names, n, counts, keys);
    }
    assert c <= e < |t| && OpenThrough(t, c, e + 1) && (e + 1 < |t| ==> Depth(t, c, e + 1) == 1) &&
           names' == ChildNames(t, c, e + 1) by {
      ChildStep(t, c, pos + 1, e);
    }
    BelowStep(path, n, descendants, sub);
  }

  /** A candidate found below a child named `n` lies below the parent's path as well. */
  lemma BelowStep(path: seq<string>, n: string, descendants: seq<Candidate>, sub: Option<Candidate>)
    requires forall d :: d in descendants ==> |d.path| > |path| + 1 && d.path[..|path|] == path
    requires sub.Some? ==> |sub.value.path| > |path + [n]| && sub.value.path[..|path + [n]|] == path + [n]
    ensures var all := if sub.Some? then descendants + [sub.value] else descendants;
            forall d :: d in all ==> |d.path| > |path| + 1 && d.path[..|path|] == path
  {
    if sub.Some? {
      var p := path + [n];
      assert sub.value.path[..|path|] == sub.value.path[..|p|][..|path|];
    }
  }

  /**
   * The candidates the child nodes yield once the walk over a node at `path`
   * has consumed position `p` and gathered `pool`, with the position where
   * the walk stops: the balancing end node, or the last token.
   */
  ghost function ChildCandidates(t: seq<Token>, p: nat, path: seq<string>, pool: seq<Candidate>): (r: (seq<Candidate>, nat))
    requires p < |t|
    ensures p <= r.1 < |t|
    decreases |t| - p, 0
  {
    if p + 1 == |t| then (pool, p)
    else if t[p + 1].EndEntity? then (pool, p + 1)
    else if t[p + 1].StartEntity? then
      var (sub, e) := CandidateOf(t, p + 1, path + [t[p + 1].localName]);
      ChildCandidates(t, e, path, if sub.Some? then pool + [sub.value] else pool)
    else ChildCandidates(t, p + 1, path, pool)
  }

  /**
   * What the heuristic yields for the node started at `c` at `path`: Decide
   * applied to the node's child names and to the candidates its children
   * yield, together with the position where the node's walk stops.
   */
  ghost function CandidateOf(t: seq<Token>, c: nat, path: seq<string>): (r: (Option<Candidate>, nat))
    requires c < |t| && t[c].StartEntity?
    ensures c <= r.1 < |t|
    decreases |t| - c, 1
  {
    var (pool, e) := ChildCandidates(t, c, path, []);
    (Decide(path, ChildNames(t, c, e + 1), pool), e)
  }

  /** The candidates of the top-level nodes met past position `p`, after those in `found`. */
  ghost function TopCandidatesFrom(t: seq<Token>, p: nat, found: seq<Candidate>): seq<Candidate>
    requires p < |t|
    decreases |t| - p
  {
    if p + 1 == |t| then found
    else if t[p + 1].StartEntity? then
      var (cand, e) := CandidateOf(t, p + 1, [t[p + 1].localName]);
      TopCandidatesFrom(t, e, if cand.Some? then found + [cand.value] else found)
    else TopCandidatesFrom(t, p + 1, found)
  }

  /** The candidates of every top-level node of the stream past its initial position, in stream order. */
  ghost function TopCandidates(t: seq<Token>): seq<Candidate> {
    if |t| == 0 then [] else TopCandidatesFrom(t, 0, [])
  }

  /**
   * Walks the node started at `c` (whose path is `path`) to its end, counting
   * its immediate children by local name and collecting the candidates its
   * children yield, then applies the heuristic to both.
   */
  method DetectCandidate(t: seq<Token>, c: nat, path: seq<string>)
    returns (cand: Option<Candidate>, e: nat, ghost childNames: seq<string>, ghost descendants: seq<Candidate>)
    requires c < |t| && t[c].StartEntity?
    ensures c <= e < |t| && SubtreeSpan(t, c, e)
    ensures childNames == ChildNames(t, c, e + 1)
    ensures forall d :: d in descendants ==> |d.path| > |path| + 1 && d.path[..|path|] == path
    ensures cand == Decide(path, childNames, descendants)
    ensures (cand, e) == CandidateOf(t, c, path) && descendants == ChildCandidates(t, c, path, []).0
    ensures cand.Some? ==> cand.value.count >= 6 && |cand.value.path| > |path| && cand.value.path[..|path|] == path
    decreases |t| - c
  {
    StartOpens(t, c);
    childNames, descendants := [], [];
    var counts: map<string, nat> := map[];
    var keys: seq<string> := [];
    var pool: seq<Candidate> := [];
    var pos := c;
    while pos + 1 < |t| && !t[pos + 1].EndEntity?
      invariant Walked(t, c, pos, path, counts, keys, childNames, pool)
      invariant ChildCandidates(t, pos, path, pool) == ChildCandidates(t, c, path, [])
      decreases |t| - pos
    {
      var s := pos + 1;
      if t[s].StartEntity? {
        var tagName := t[s].localName;
        var sub, e', _, _ := DetectCandidate(t, s, path + [tagName]);
        ghost var counts0, keys0, names0, pool0 := counts, keys, childNames, pool;
        counts := counts[tagName := if tagName in counts then counts[tagName] + 1 else 1];
        if tagName !in keys {
          keys := keys + [tagName];
        }
        childNames := childNames + [tagName];
        if sub.Some? {
          pool := pool + [sub.value];
        }
        WalkChild(t, c, pos, path, counts0, keys0, names0, pool0, sub, e', counts, keys, childNames, pool);
        pos := e';
      } else {
        WalkPlain(t, c, pos, path, counts, keys, childNames, pool);
        pos := s;
      }
    }
    WalkEnds(t, c, pos, path, counts, keys, childNames, pool);
    e, descendants := if pos + 1 < |t| then pos + 1 else pos, pool;
    ChildPathsExtend(path, childNames, descendants);
    cand := ChooseCandidate(path, keys, counts, childNames, pool);
  }

  /** The walk ends on the node's end node, or on the last token, having seen all of the node's children. */
  lemma WalkEnds(t: seq<Token>, c: nat, pos: nat, path: seq<string>, counts: map<string, nat>,
                 keys: seq<string>, names: seq<string>, pool: seq<Candidate>)
    requires Walked(t, c, pos, path, counts, keys, names, pool)
    requires pos + 1 == |t| || t[pos + 1].EndEntity?
    ensures var e := if pos + 1 < |t| then pos + 1 else pos;
            SubtreeSpan(t, c, e) && names == ChildNames(t, c, e + 1) && ChildCandidates(t, pos, path, pool) == (pool, e)
  {
  }

  lemma ChildPathsExtend(path: seq<string>, names: seq<string>, descendants: seq<Candidate>)
    requires forall d :: d in descendants ==> |d.path| > |path| + 1 && d.path[..|path|] == path
    ensures Decide(path, names, descendants).Some? ==>
      var x := Decide(path, names, descendants).value;
      x.count >= 6 && |x.path| > |path| && x.path[..|path|] == path
  {
    ImmediateCandidatesAreRepeatedChildren(path, names);
    DecideSound(path, names, descendants);
  }

  /** The candidates for the immediate children seen more than once, in key order. */
  method CollectRepeating(path: seq<string>, keys: seq<string>, counts: map<string, nat>, ghost names: seq<string>)
    returns (immediate: seq<Candidate>)
    requires Tally(counts, keys, names)
    ensures immediate == ImmediateCandidates(path, names)
  {
    immediate := [];
    var i := 0;
    while i < |keys|
      invariant 0 <= i <= |keys|
      invariant immediate == Repeating(path, keys[..i], names)
    {
      assert keys[..i + 1][..i] == keys[..i];
      assert keys[i] in names;
      if counts[keys[i]] > 1 {
        immediate := immediate + [Candidate(path + [keys[i]], counts[keys[i]])];
      }
      i := i + 1;
    }
    assert keys[..|keys|] == keys;
  }

  /**
   * The decision taken once a node has been walked: builds the pool of
   * repeating immediate children from the child-count map and applies the
   * threshold to it and then to the descendant candidates.
   */
  method ChooseCandidate(path: seq<string>, keys: seq<string>, counts: map<string, nat>,
                         ghost names: seq<string>, descendants: seq<Candidate>)
    returns (cand: Option<Candidate>)
    requires Tally(counts, keys, names)
    ensures cand == Decide(path, names, descendants)
  {
    var immediate := CollectRepeating(path, keys, counts, names);
    var pool := descendants;
    if 0 < |immediate| < 5 {
      var ours := MostNumerous(immediate);
      if ours.count / |immediate| > 5 {
        return Some(ours);
      }
      pool := pool + [ours];
    }
    if |pool| > 0 {
      var best := MostNumerous(pool);
      if best.count / |pool| > 5 {
        return Some(best);
      }
    }
    return None;
  }

  /**
   * Runs the heuristic on every top-level element of the stream; returns the
   * path of the first of the surviving candidates after sorting, or None when
   * no element yields one (fewer than six repetitions anywhere).
   */
  method DetectRecordElement(t: seq<Token>) returns (r: Option<seq<string>>)
    ensures forall x :: x in TopCandidates(t) ==> x.count >= 6 && |x.path| >= 2
    ensures r == if TopCandidates(t) == [] then None else Some(MostNumerous(TopCandidates(t)).path)
  {
    if |t| == 0 {
      return None;
    }
    var found: seq<Candidate> := [];
    var pos := 0;
    while pos + 1 < |t|
      invariant pos < |t|
      invariant TopCandidatesFrom(t, pos, found) == TopCandidates(t)
      invariant forall x :: x in found ==> x.count >= 6 && |x.path| >= 2
      decreases |t| - pos
    {
      pos := pos + 1;
      if t[pos].StartEntity? {
        var cand, e, _, _ := DetectCandidate(t, pos, [t[pos].localName]);
        if cand.Some? {
          found := found + [cand.value];
        }
        pos := e;
      }
    }
    if |found| > 0 {
      return Some(MostNumerous(found).path);
    }
    return None;
  }
}
