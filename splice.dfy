/** Replacing line ranges of a file, as the search-and-replace renderers
    do: each edit replaces `span` lines starting at index `at` with a block
    of new lines (Python's `lines[at:at + span] = block`), and the edits
    are applied from the last to the first so that earlier indices stay
    valid. The forward definition `Forward` says what the result is:
    the untouched gaps of the original, in order, with each edit's block
    in place of its range. */
module Splice {

  datatype Edit = Edit(at: int, span: nat, block: seq<string>)

  /** One slice assignment, skipped when `at` is not an index of the list;
      a range running past the end is cut at the end, as Python slicing does. */
  function SpliceOne(lines: seq<string>, e: Edit): seq<string> {
    if 0 <= e.at < |lines| then
      var stop := if e.at + e.span <= |lines| then e.at + e.span else |lines|;
      lines[..e.at] + e.block + lines[stop..]
    else lines
  }

  /** The edits applied from the last to the first: the later edits are
      applied, then the first one. */
  function SpliceFromLast(lines: seq<string>, edits: seq<Edit>): seq<string>
    decreases |edits|
  {
    if |edits| == 0 then lines
    else SpliceOne(SpliceFromLast(lines, edits[1..]), edits[0])
  }

  /** The `for match in reversed(matches)` loop of the renderers. */
  method ApplyFromLast(lines: seq<string>, edits: seq<Edit>) returns (out: seq<string>)
    ensures out == SpliceFromLast(lines, edits)
  {
    out := lines;
    var k := |edits|;
    while k > 0
      invariant 0 <= k <= |edits|
      invariant out == SpliceFromLast(lines, edits[k..])
    {
      assert edits[k - 1..][1..] == edits[k..];
      out := SpliceOne(out, edits[k - 1]);
      k := k - 1;
    }
    assert edits[0..] == edits;
  }

  /** Edits inside from..to, each at least one line long, in increasing
      order and not overlapping. */
  predicate Ordered(edits: seq<Edit>, from: int, to: int)
    decreases |edits|
  {
    if |edits| == 0 then from <= to
    else 1 <= edits[0].span && from <= edits[0].at && Ordered(edits[1..], edits[0].at + edits[0].span, to)
  }

  /** Reference definition: gap, block, gap, block, ..., final gap. */
  function Forward(lines: seq<string>, edits: seq<Edit>, from: nat, to: nat): seq<string>
    requires from <= to <= |lines| && Ordered(edits, from, to)
    decreases |edits|
  {
    if |edits| == 0 then lines[from..to]
    else
      OrderedBounds(edits[1..], edits[0].at + edits[0].span, to);
      lines[from..edits[0].at] + edits[0].block + Forward(lines, edits[1..], edits[0].at + edits[0].span, to)
  }

  /** Net change in line count of the edits. */
  function Growth(edits: seq<Edit>): int {
    if |edits| == 0 then 0 else |edits[0].block| - edits[0].span + Growth(edits[1..])
  }

  // ---------------------------------------------------------------------
  // Small facts about slices and the unfolding of Forward, kept apart so
  // that the inductive proofs below stay cheap.
  // ---------------------------------------------------------------------

  lemma {:induction false} OrderedBounds(edits: seq<Edit>, from: int, to: int)
    requires Ordered(edits, from, to)
    ensures from <= to
    decreases |edits|
  {
    if |edits| > 0 {
      OrderedBounds(edits[1..], edits[0].at + edits[0].span, to);
    }
  }

  lemma ForwardUnfold(lines: seq<string>, edits: seq<Edit>, from: nat, to: nat)
    requires from <= to <= |lines| && Ordered(edits, from, to) && |edits| > 0
    ensures edits[0].at + edits[0].span <= to && Ordered(edits[1..], edits[0].at + edits[0].span, to)
    ensures Forward(lines, edits, from, to)
         == lines[from..edits[0].at] + edits[0].block + Forward(lines, edits[1..], edits[0].at + edits[0].span, to)
  {
    OrderedBounds(edits[1..], edits[0].at + edits[0].span, to);
  }

  lemma PrefixSplit(lines: seq<string>, from: int, at: int, mid: int)
    requires 0 <= from <= at <= mid <= |lines|
    ensures lines[..mid][..at] == lines[..from] + lines[from..at]
  {
  }

  lemma ThreeParts(lines: seq<string>, from: int, to: int)
    requires 0 <= from <= to <= |lines|
    ensures lines[..from] + lines[from..to] + lines[to..] == lines
  {
  }

  lemma Regroup(a: seq<string>, b: seq<string>, c: seq<string>, d: seq<string>, f: seq<string>)
    ensures a + b + c + (d + f) == a + (b + c + d) + f
  {
  }

  lemma SliceMiddle(g: seq<string>, b: seq<string>, r: seq<string>)
    ensures (g + b + r)[|g|..|g| + |b|] == b
  {
  }

  lemma IndexBefore(x: seq<string>, r: seq<string>, i: int)
    requires 0 <= i < |x|
    ensures (x + r)[i] == x[i]
  {
  }

  lemma IndexAfter(x: seq<string>, r: seq<string>, i: int)
    requires 0 <= i < |r|
    ensures (x + r)[|x| + i] == r[i]
  {
  }

  lemma SliceAfter(x: seq<string>, r: seq<string>, i: int, j: int)
    requires 0 <= i <= j <= |r|
    ensures (x + r)[|x| + i..|x| + j] == r[i..j]
  {
  }

  lemma GrowthOfPrefix(edits: seq<Edit>, k: nat)
    requires 0 < k <= |edits|
    ensures Growth(edits[..k]) == |edits[0].block| - edits[0].span + Growth(edits[1..][..k - 1])
  {
    assert edits[..k][0] == edits[0];
    assert edits[..k][1..] == edits[1..][..k - 1];
  }

  /** Each edit of an ordered list lies inside from..to. */
  lemma {:induction false} OrderedWithin(edits: seq<Edit>, from: int, to: int, j: nat)
    requires Ordered(edits, from, to) && j < |edits|
    ensures from <= edits[j].at && 1 <= edits[j].span && edits[j].at + edits[j].span <= to
    decreases |edits|
  {
    if j == 0 {
      OrderedBounds(edits[1..], edits[0].at + edits[0].span, to);
    } else {
      OrderedWithin(edits[1..], edits[0].at + edits[0].span, to, j - 1);
    }
  }

  // ---------------------------------------------------------------------
  // Applying the edits from the last is the forward result
  // ---------------------------------------------------------------------

  /** Applying ordered edits from the last to the first keeps the lines
      outside from..to and puts the forward result in between: each block
      stands in place of its range and every other line is kept, in order. */
  lemma {:induction false} SpliceFromLastWithin(lines: seq<string>, edits: seq<Edit>, from: nat, to: nat)
    requires from <= to <= |lines| && Ordered(edits, from, to)
    ensures SpliceFromLast(lines, edits) == lines[..from] + Forward(lines, edits, from, to) + lines[to..]
    decreases |edits|
  {
    if |edits| == 0 {
      ThreeParts(lines, from, to);
    } else {
      var e := edits[0];
      var mid := e.at + e.span;
      ForwardUnfold(lines, edits, from, to);
      SpliceFromLastWithin(lines, edits[1..], mid, to);
      SpliceOneStep(lines, from, to, e, Forward(lines, edits[1..], mid, to),
                    SpliceFromLast(lines, edits[1..]), Forward(lines, edits, from, to));
    }
  }

  /** One step of the above, on plain sequences: the first edit applied to
      a list whose part after the edit's range is already done. */
  lemma SpliceOneStep(lines: seq<string>, from: int, to: int, e: Edit, r: seq<string>,
                      later: seq<string>, fw: seq<string>)
    requires 0 <= from <= e.at && 1 <= e.span && e.at + e.span <= to <= |lines|
    requires later == lines[..e.at + e.span] + r + lines[to..]
    requires fw == lines[from..e.at] + e.block + r
    ensures SpliceOne(later, e) == lines[..from] + fw + lines[to..]
  {
    var mid := e.at + e.span;
    assert later == lines[..mid] + (r + lines[to..]);
    SpliceOneAt(lines[..mid], r + lines[to..], e);
    PrefixSplit(lines, from, e.at, mid);
    Regroup(lines[..from], lines[from..e.at], e.block, r, lines[to..]);
  }

  /** A slice assignment that ends exactly where the list's prefix p ends. */
  lemma SpliceOneAt(p: seq<string>, q: seq<string>, e: Edit)
    requires 0 <= e.at && 1 <= e.span && e.at + e.span == |p|
    ensures SpliceOne(p + q, e) == p[..e.at] + e.block + q
  {
    assert (p + q)[..e.at] == p[..e.at];
    assert (p + q)[e.at + e.span..] == q;
  }

  /** The whole file: applying ordered edits from the last is the forward result. */
  lemma SpliceFromLastIsForward(lines: seq<string>, edits: seq<Edit>)
    requires Ordered(edits, 0, |lines|)
    ensures SpliceFromLast(lines, edits) == Forward(lines, edits, 0, |lines|)
  {
    SpliceFromLastWithin(lines, edits, 0, |lines|);
    assert lines[..0] == [] && lines[|lines|..] == [];
  }

  // ---------------------------------------------------------------------
  // What the forward result holds: its length, where each kept line and
  // each block ends up
  // ---------------------------------------------------------------------

  /** The result has the original length plus the growth of every edit. */
  lemma {:induction false} ForwardLength(lines: seq<string>, edits: seq<Edit>, from: nat, to: nat)
    requires from <= to <= |lines| && Ordered(edits, from, to)
    ensures |Forward(lines, edits, from, to)| == to - from + Growth(edits)
    decreases |edits|
  {
    if |edits| > 0 {
      ForwardUnfold(lines, edits, from, to);
      ForwardLength(lines, edits[1..], edits[0].at + edits[0].span, to);
    }
  }

  /** Where an original line p that lies in the gap before edit k (after
      edit k - 1) ends up: shifted by the growth of the edits before it. */
  lemma {:induction false} ForwardKeepsLine(lines: seq<string>, edits: seq<Edit>, from: nat, to: nat, k: nat, p: int)
    requires from <= to <= |lines| && Ordered(edits, from, to) && k <= |edits| && from <= p < to
    requires k == 0 || edits[k - 1].at + edits[k - 1].span <= p
    requires k == |edits| || p < edits[k].at
    ensures 0 <= p - from + Growth(edits[..k]) < |Forward(lines, edits, from, to)|
    ensures Forward(lines, edits, from, to)[p - from + Growth(edits[..k])] == lines[p]
    decreases |edits|
  {
    if |edits| == 0 {
      assert edits[..0] == [];
    } else {
      var e := edits[0];
      var rest := edits[1..];
      var mid := e.at + e.span;
      ForwardUnfold(lines, edits, from, to);
      var x := lines[from..e.at] + e.block;
      var r := Forward(lines, rest, mid, to);
      if k == 0 {
        assert edits[..0] == [];
        IndexBefore(x, r, p - from);
      } else {
        GapInRest(edits, from, to, k, p);
        GrowthOfPrefix(edits, k);
        ForwardKeepsLine(lines, rest, mid, to, k - 1, p);
        var i := p - mid + Growth(rest[..k - 1]);
        assert p - from + Growth(edits[..k]) == |x| + i;
        IndexAfter(x, r, i);
      }
    }
  }

  /** A line in the gap before edit k > 0 lies in the gap before edit
      k - 1 of the remaining edits. */
  lemma GapInRest(edits: seq<Edit>, from: int, to: int, k: nat, p: int)
    requires Ordered(edits, from, to) && 0 < k <= |edits|
    requires edits[k - 1].at + edits[k - 1].span <= p
    requires k == |edits| || p < edits[k].at
    ensures edits[0].at + edits[0].span <= p
    ensures k - 1 == 0 || edits[1..][k - 2].at + edits[1..][k - 2].span <= p
    ensures k - 1 == |edits[1..]| || p < edits[1..][k - 1].at
  {
    var rest := edits[1..];
    var mid := edits[0].at + edits[0].span;
    if k > 1 {
      assert rest[k - 2] == edits[k - 1];
      OrderedWithin(rest, mid, to, k - 2);
    }
    if k - 1 < |rest| {
      assert rest[k - 1] == edits[k];
    }
  }

  /** Edit k's block sits right after the gap before it, shifted by the
      growth of the edits before it. */
  lemma {:induction false} ForwardPlacesBlock(lines: seq<string>, edits: seq<Edit>, from: nat, to: nat, k: nat)
    requires from <= to <= |lines| && Ordered(edits, from, to) && k < |edits|
    ensures 0 <= edits[k].at - from + Growth(edits[..k])
    ensures edits[k].at - from + Growth(edits[..k]) + |edits[k].block| <= |Forward(lines, edits, from, to)|
    ensures Forward(lines, edits, from, to)[edits[k].at - from + Growth(edits[..k])
                                            ..edits[k].at - from + Growth(edits[..k]) + |edits[k].block|]
         == edits[k].block
    decreases |edits|
  {
    var e := edits[0];
    var rest := edits[1..];
    var mid := e.at + e.span;
    ForwardUnfold(lines, edits, from, to);
    var x := lines[from..e.at] + e.block;
    var r := Forward(lines, rest, mid, to);
    assert Forward(lines, edits, from, to) == x + r;
    if k == 0 {
      assert edits[..0] == [];
      SliceMiddle(lines[from..e.at], e.block, r);
    } else {
      assert rest[k - 1] == edits[k];
      GrowthOfPrefix(edits, k);
      OrderedWithin(rest, mid, to, k - 1);
      ForwardPlacesBlock(lines, rest, mid, to, k - 1);
      ForwardLength(lines, rest, mid, to);
      var i := edits[k].at - mid + Growth(rest[..k - 1]);
      SliceAfter(x, r, i, i + |edits[k].block|);
    }
  }
}
