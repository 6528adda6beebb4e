/**
 * The token alphabet of the tree cursor (TreeReader) and the structural facts
 * about a token sequence that the tree-import routines rely on.
 *
 * A reader is modelled as a sequence of tokens plus a cursor index: the token
 * at the cursor is `current()`, `hasNext()` holds when a further token exists,
 * and `next()` moves the cursor one step and returns the token there.
 */
module TreeReader {
  import opened Wrappers

  datatype Attribute = Attribute(prefix: string, localName: string, value: string)

  /**
   * One position of the stream together with what the accessors report there:
   * a start node carries its prefix, local name and attributes, a value carries
   * the field name the reader reports for it (None when the reader has none)
   * and its text.  A prefix of "" stands for both a null and an empty prefix.
   */
  datatype Token =
    | StartEntity(prefix: string, localName: string, attributes: seq<Attribute>)
    | EndEntity(prefix: string, localName: string)
    | Value(fieldName: Option<string>, text: string)
    | Ignorable

  /** Change of nesting depth caused by one token. */
  function Delta(tok: Token): int {
    match tok
    case StartEntity(_, _, _) => 1
    case EndEntity(_, _) => -1
    case _ => 0
  }

  /** Net nesting depth of the run of tokens t[a..b]. */
  function Depth(t: seq<Token>, a: nat, b: nat): int
    requires a <= b <= |t|
    decreases b
  {
    if b == a then 0 else Depth(t, a, b - 1) + Delta(t[b - 1])
  }

  /** The stack of open element names after one more token. */
  function Apply(open: seq<string>, tok: Token): seq<string> {
    match tok
    case StartEntity(_, name, _) => open + [name]
    case EndEntity(_, _) => if open == [] then [] else open[..|open| - 1]
    case _ => open
  }

  /** Local names of the elements still open after the run t[a..b], outermost first. */
  function OpenNames(t: seq<Token>, a: nat, b: nat): seq<string>
    requires a <= b <= |t|
    decreases b
  {
    if b == a then [] else Apply(OpenNames(t, a, b - 1), t[b - 1])
  }

  /** The stack of open start nodes after one more token. */
  function PushPop(open: seq<Token>, tok: Token): seq<Token> {
    match tok
    case StartEntity(_, _, _) => open + [tok]
    case EndEntity(_, _) => if open == [] then [] else open[..|open| - 1]
    case _ => open
  }

  /**
   * The start nodes of the elements still open after the run t[a..b],
   * outermost first; OpenNames holds their local names.
   */
  function OpenStarts(t: seq<Token>, a: nat, b: nat): seq<Token>
    requires a <= b <= |t|
    decreases b
  {
    if b == a then [] else PushPop(OpenStarts(t, a, b - 1), t[b - 1])
  }

  /** The open names are the local names of the open start nodes. */
  lemma {:induction false} OpenNamesOfStarts(t: seq<Token>, a: nat, b: nat)
    requires a <= b <= |t|
    ensures |OpenNames(t, a, b)| == |OpenStarts(t, a, b)|
    ensures forall i :: 0 <= i < |OpenStarts(t, a, b)| ==>
      OpenStarts(t, a, b)[i].StartEntity? && OpenNames(t, a, b)[i] == OpenStarts(t, a, b)[i].localName
    decreases b
  {
    if b > a {
      OpenNamesOfStarts(t, a, b - 1);
    }
  }

  /** The node started at `c` is still open before each of the tokens t[c+1..b]. */
  ghost predicate OpenThrough(t: seq<Token>, c: nat, b: nat) {
    c < |t| && c <= b <= |t| &&
    forall k :: c < k <= b ==> Depth(t, c, k) >= 1
  }

  /** The start node at `c` is balanced by the end node at `e`. */
  ghost predicate Closes(t: seq<Token>, c: nat, e: nat) {
    c < e < |t| && OpenThrough(t, c, e) && t[e].EndEntity? && Depth(t, c, e) == 1
  }

  /** The stream ends at `e` while the node started at `c` is still open. */
  ghost predicate Exhausted(t: seq<Token>, c: nat, e: nat) {
    c <= e && e + 1 == |t| && OpenThrough(t, c, |t|)
  }

  /** Consuming the node started at `c` stops at `e`. */
  ghost predicate SubtreeSpan(t: seq<Token>, c: nat, e: nat) {
    Closes(t, c, e) || Exhausted(t, c, e)
  }

  lemma {:induction false} DepthSplit(t: seq<Token>, a: nat, m: nat, b: nat)
    requires a <= m <= b <= |t|
    ensures Depth(t, a, b) == Depth(t, a, m) + Depth(t, m, b)
    decreases b
  {
    if b > m {
      DepthSplit(t, a, m, b - 1);
    }
  }

  /**
   * Open names compose over a run that never closes more elements than it
   * opened: the names it leaves open are stacked on top of the earlier ones.
   */
  lemma {:induction false} OpenNamesConcat(t: seq<Token>, a: nat, m: nat, b: nat)
    requires a <= m <= b <= |t|
    requires forall k :: m <= k <= b ==> Depth(t, m, k) >= 0
    ensures OpenNames(t, a, b) == OpenNames(t, a, m) + OpenNames(t, m, b)
    ensures |OpenNames(t, m, b)| == Depth(t, m, b)
    decreases b
  {
    if b > m {
      OpenNamesConcat(t, a, m, b - 1);
      var x, y := OpenNames(t, a, m), OpenNames(t, m, b - 1);
      match t[b - 1]
      case StartEntity(_, name, _) =>
        assert (x + y) + [name] == x + (y + [name]);
      case EndEntity(_, _) =>
        assert |y| >= 1;
        assert (x + y)[..|x + y| - 1] == x + y[..|y| - 1];
      case _ =>
    }
  }

  /** Open start nodes compose over a run that never closes more elements than it opened. */
  lemma {:induction false} OpenStartsConcat(t: seq<Token>, a: nat, m: nat, b: nat)
    requires a <= m <= b <= |t|
    requires forall k :: m <= k <= b ==> Depth(t, m, k) >= 0
    ensures OpenStarts(t, a, b) == OpenStarts(t, a, m) + OpenStarts(t, m, b)
    ensures |OpenStarts(t, m, b)| == Depth(t, m, b)
    decreases b
  {
    if b > m {
      OpenStartsConcat(t, a, m, b - 1);
      var x, y := OpenStarts(t, a, m), OpenStarts(t, m, b - 1);
      match t[b - 1]
      case StartEntity(_, _, _) =>
        assert (x + y) + [t[b - 1]] == x + (y + [t[b - 1]]);
      case EndEntity(_, _) =>
        assert |y| >= 1;
        assert (x + y)[..|x + y| - 1] == x + y[..|y| - 1];
      case _ =>
    }
  }

  /** A value or ignorable token inside an open node changes neither depth nor names. */
  lemma PlainStep(t: seq<Token>, c: nat, s: nat)
    requires c < s < |t| && OpenThrough(t, c, s) && Depth(t, c, s) == 1
    requires !t[s].StartEntity? && !t[s].EndEntity?
    ensures OpenThrough(t, c, s + 1) && Depth(t, c, s + 1) == 1
    ensures OpenNames(t, c, s + 1) == OpenNames(t, c, s)
  {
  }

  /**
   * A child node that starts at `s` inside the node opened at `c` and is
   * consumed up to `e` leaves the parent exactly as it found it, or takes the
   * parent with it to the end of the stream.
   */
  lemma ChildSpan(t: seq<Token>, c: nat, s: nat, e: nat)
    requires c < s < |t| && OpenThrough(t, c, s) && Depth(t, c, s) == 1
    requires SubtreeSpan(t, s, e)
    ensures Closes(t, s, e) ==>
      OpenThrough(t, c, e + 1) && Depth(t, c, e + 1) == 1 &&
      OpenNames(t, c, e + 1) == OpenNames(t, c, s)
    ensures Exhausted(t, s, e) ==> Exhausted(t, c, e)
    ensures forall k :: s < k <= e ==> Depth(t, c, k) >= 2
  {
    var b := if Closes(t, s, e) then e + 1 else |t|;
    forall k | s < k <= b
      ensures Depth(t, c, k) >= 1
      ensures k <= e ==> Depth(t, c, k) >= 2
    {
      DepthSplit(t, c, s, k);
    }
    if Closes(t, s, e) {
      DepthSplit(t, c, s, e + 1);
      OpenNamesConcat(t, c, s, e + 1);
      assert OpenNames(t, s, e + 1) == [];
    }
  }

  /** A match found at start node `e` inside a child started at `s`: the parent's open names come first. */
  lemma ChildMatch(t: seq<Token>, c: nat, s: nat, e: nat)
    requires c < s <= e < |t| && OpenThrough(t, c, s) && Depth(t, c, s) == 1
    requires OpenThrough(t, s, e) && t[e].StartEntity?
    ensures OpenThrough(t, c, e)
    ensures OpenNames(t, c, e + 1) == OpenNames(t, c, s) + OpenNames(t, s, e + 1)
  {
    forall k | s < k <= e
      ensures Depth(t, c, k) >= 1
    {
      DepthSplit(t, c, s, k);
    }
    OpenNamesConcat(t, c, s, e + 1);
  }

  /** A run still open inside a child of the node opened at `c` keeps that node open too. */
  lemma ChildOpen(t: seq<Token>, c: nat, s: nat, b: nat)
    requires c < s < |t| && OpenThrough(t, c, s) && Depth(t, c, s) == 1
    requires OpenThrough(t, s, b)
    ensures OpenThrough(t, c, b)
  {
    forall k | s < k <= b
      ensures Depth(t, c, k) >= 1
    {
      DepthSplit(t, c, s, k);
    }
  }

  /** Right after a start node, that node is open at depth one and is the only open name. */
  lemma StartOpens(t: seq<Token>, c: nat)
    requires c < |t| && t[c].StartEntity?
    ensures OpenThrough(t, c, c + 1) && Depth(t, c, c + 1) == 1
    ensures OpenNames(t, c, c + 1) == [t[c].localName]
  {
  }

  /**
   * Where the skip loop stops inside the node started at `c` once position
   * `p` is consumed: on the balancing end node, or on the last token.
   */
  ghost function SkipFrom(t: seq<Token>, c: nat, p: nat): (e: nat)
    requires c <= p < |t| && OpenThrough(t, c, p + 1) && (p + 1 < |t| ==> Depth(t, c, p + 1) == 1)
    ensures p <= e && SubtreeSpan(t, c, e)
    decreases |t| - p
  {
    if p + 1 == |t| then p
    else if t[p + 1].EndEntity? then p + 1
    else if t[p + 1].StartEntity? then
      StartOpens(t, p + 1);
      var e := SkipFrom(t, p + 1, p + 1);
      ChildSpan(t, c, p + 1, e);
      SkipFrom(t, c, e)
    else
      PlainStep(t, c, p + 1);
      SkipFrom(t, c, p + 1)
  }

  /** The position where consuming the node started at `c` stops. */
  ghost function SubtreeEnd(t: seq<Token>, c: nat): (e: nat)
    requires c < |t| && t[c].StartEntity?
    ensures SubtreeSpan(t, c, e)
  {
    StartOpens(t, c);
    SkipFrom(t, c, c)
  }

  /** Past its balancing end node a node is no longer open. */
  lemma ClosedAfter(t: seq<Token>, c: nat, e: nat)
    requires Closes(t, c, e)
    ensures Depth(t, c, e + 1) == 0
  {
  }

  /** A node's subtree ends at one position only. */
  lemma SpanUnique(t: seq<Token>, c: nat, e1: nat, e2: nat)
    requires SubtreeSpan(t, c, e1) && SubtreeSpan(t, c, e2)
    ensures e1 == e2
  {
    if Closes(t, c, e1) {
      ClosedAfter(t, c, e1);
    }
    if Closes(t, c, e2) {
      ClosedAfter(t, c, e2);
    }
  }
}
