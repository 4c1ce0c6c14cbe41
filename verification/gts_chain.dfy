/**
 * GTS identifier chains: a sequence of segments, each terminated by `~`.
 * A type that extends another has its parent's chain followed by one more
 * segment; as a URI the chain is written after `gts://`.
 *
 * The grammar of a single segment (vendor, package, namespace, type,
 * version) is not part of this model: a segment is any text without `~`.
 */
module GtsChain {
  import opened Wrappers
  import opened Text

  /** The scheme prefix of an error type's URI. */
  const URI_PREFIX := "gts://"

  /** The character that terminates every segment. */
  const SEGMENT_END := '~'

  /** Segments that can be read back from their chain: none contains `~`. */
  predicate ValidSegments(segs: seq<string>) {
    forall k :: 0 <= k < |segs| ==> SEGMENT_END !in segs[k]
  }

  /** The chain text: every segment followed by `~`. */
  function Chain(segs: seq<string>): string {
    if |segs| == 0 then "" else segs[0] + [SEGMENT_END] + Chain(segs[1..])
  }

  /** The chain of a type URI, behind the `gts://` prefix. */
  function Uri(segs: seq<string>): string {
    URI_PREFIX + Chain(segs)
  }

  /** Extending a chain by one segment appends that segment and its `~`. */
  lemma {:induction false} ChainExtend(segs: seq<string>, s: string)
    ensures Chain(segs + [s]) == Chain(segs) + s + [SEGMENT_END]
    decreases |segs|
  {
    if |segs| == 0 {
      assert [s][1..] == [];
    } else {
      assert (segs + [s])[1..] == segs[1..] + [s];
      ChainExtend(segs[1..], s);
    }
  }

  /** A non-empty chain is the `~`-join of its segments with one more `~` at the end. */
  lemma {:induction false} ChainIsJoin(segs: seq<string>)
    requires |segs| > 0
    ensures Chain(segs) == JoinWith(segs, SEGMENT_END) + [SEGMENT_END]
    decreases |segs|
  {
    if |segs| > 1 {
      ChainIsJoin(segs[1..]);
    } else {
      assert segs[1..] == [];
    }
  }

  /** The chain of a prefix of the segments is a prefix of the chain. */
  lemma {:induction false} ChainPrefix(segs: seq<string>, k: nat)
    requires k <= |segs|
    ensures Chain(segs[..k]) <= Chain(segs)
    decreases k
  {
    if k > 0 {
      assert segs[..k][1..] == segs[1..][..k - 1];
      ChainPrefix(segs[1..], k - 1);
    }
  }

  /**
   * The segments of a type URI the way the tests read them: strip `gts://`,
   * strip the final `~`, split on `~`.
   */
  function UriSegments(uri: string): (r: Option<seq<string>>)
    ensures r.Some? ==> |r.value| >= 1 && ValidSegments(r.value)
  {
    match StripPrefix(uri, URI_PREFIX)
    case None => None
    case Some(chain) =>
      match StripSuffix(chain, [SEGMENT_END])
      case None => None
      case Some(body) =>
        SplitPartsFree(body, SEGMENT_END);
        Some(Split(body, SEGMENT_END))
  }

  /** Reading the segments back from a type URI gives the segments it was built from. */
  lemma {:induction false} UriRoundTrip(segs: seq<string>)
    requires |segs| > 0 && ValidSegments(segs)
    ensures UriSegments(Uri(segs)) == Some(segs)
  {
    ChainIsJoin(segs);
    var body := JoinWith(segs, SEGMENT_END);
    assert Uri(segs) == URI_PREFIX + (body + [SEGMENT_END]);
    assert (URI_PREFIX + (body + [SEGMENT_END]))[|URI_PREFIX|..] == body + [SEGMENT_END];
    JoinSplitRoundTrip(segs, SEGMENT_END);
  }

  /** A type URI starts with `gts://` and, with at least one segment, ends with `~`. */
  lemma {:induction false} UriShape(segs: seq<string>)
    requires |segs| > 0
    ensures URI_PREFIX <= Uri(segs)
    ensures EndsWith(Uri(segs), [SEGMENT_END])
  {
    ChainIsJoin(segs);
  }

  /**
   * The chain a chain extends: everything up to and including the `~` before
   * the last segment, or nothing for a single-segment chain.
   */
  function ParentChain(chain: string): (r: Option<string>)
    ensures r.Some? ==> r.value < chain
  {
    match StripSuffix(chain, [SEGMENT_END])
    case None => None
    case Some(body) =>
      match LastIndexOf(body, SEGMENT_END)
      case None => None
      case Some(i) => Some(body[..i + 1])
  }

  /** Dropping the last segment of a chain gives the chain of the remaining segments. */
  lemma {:induction false} ParentOfExtendedChain(segs: seq<string>, s: string)
    requires |segs| > 0 && ValidSegments(segs) && SEGMENT_END !in s
    ensures ParentChain(Chain(segs + [s])) == Some(Chain(segs))
  {
    ChainExtend(segs, s);
    ChainIsJoin(segs);
    var c := Chain(segs);
    var body := c + s;
    assert Chain(segs + [s]) == body + [SEGMENT_END];
    assert StripSuffix(body + [SEGMENT_END], [SEGMENT_END]) == Some(body);
    LastIndexOfAfter(c, s, SEGMENT_END);
    assert body[..|c|] == c;
  }

  /** A single-segment chain extends nothing. */
  lemma {:induction false} ParentOfSingleSegment(s: string)
    requires SEGMENT_END !in s
    ensures ParentChain(Chain([s])) == None
  {
    assert Chain([s]) == s + [SEGMENT_END];
    assert StripSuffix(s + [SEGMENT_END], [SEGMENT_END]) == Some(s);
  }
}
