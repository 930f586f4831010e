/** Ratcliff/Obershelp "gestalt" matching as Python's `difflib.SequenceMatcher`
    computes it when no junk heuristic applies: `find_longest_match` with its
    tie-break, the sum of the recursively found matching blocks, and
    `ratio() = 2*M / (len(a) + len(b))`, which is 1.0 for two empty strings. */
module Gestalt {

  /** A matching block `a[i..i+size] == b[j..j+size]`. */
  datatype Block = Block(i: nat, j: nat, size: nat)

  ghost predicate IsBlock(a: string, b: string, i: int, j: int, k: int)
  {
    0 <= i && 0 <= j && 0 <= k && i + k <= |a| && j + k <= |b| && a[i..i + k] == b[j..j + k]
  }

  /** Position (i1, j1) comes strictly before (i2, j2): earlier in `a`, then
      earlier in `b`. */
  ghost predicate Before(i1: int, j1: int, i2: int, j2: int)
  {
    i1 < i2 || (i1 == i2 && j1 < j2)
  }

  /** What `find_longest_match()` promises: a block of maximal size, and among
      the maximal ones the one starting earliest in `a`, then earliest in `b`
      (with `(0, 0, 0)` when nothing matches). */
  ghost predicate IsLongestMatch(a: string, b: string, m: Block)
  {
    && IsBlock(a, b, m.i, m.j, m.size)
    && (forall i, j, k :: IsBlock(a, b, i, j, k) ==> k <= m.size)
    && (forall i, j :: IsBlock(a, b, i, j, m.size) ==> !Before(i, j, m.i, m.j))
  }

  /** Length of the longest common prefix. */
  function CommonPrefix(a: string, b: string): (n: nat)
    ensures n <= |a| && n <= |b|
    ensures a[..n] == b[..n]
    ensures n < |a| && n < |b| ==> a[n] != b[n]
  {
    if |a| == 0 || |b| == 0 || a[0] != b[0] then 0
    else
      var n := 1 + CommonPrefix(a[1..], b[1..]);
      assert a[..n] == [a[0]] + a[1..][..n - 1];
      assert b[..n] == [b[0]] + b[1..][..n - 1];
      n
  }

  /** The longest block starting exactly at (i, j). */
  function RunAt(a: string, b: string, i: nat, j: nat): (k: nat)
    requires i <= |a| && j <= |b|
    ensures IsBlock(a, b, i, j, k)
  {
    var k := CommonPrefix(a[i..], b[j..]);
    assert a[i..i + k] == a[i..][..k];
    assert b[j..j + k] == b[j..][..k];
    k
  }

  /** A common prefix is never longer than the one `CommonPrefix` finds. */
  lemma {:induction false} CommonPrefixIsMaximal(x: string, y: string, k: nat)
    requires k <= |x| && k <= |y| && x[..k] == y[..k]
    ensures k <= CommonPrefix(x, y)
  {
    if k > 0 {
      assert x[0] == x[..k][0] == y[..k][0] == y[0];
      assert x[1..][..k - 1] == x[..k][1..] == y[..k][1..] == y[1..][..k - 1];
      CommonPrefixIsMaximal(x[1..], y[1..], k - 1);
    }
  }

  /** Every block starting at (i, j) is at most as long as the run there. */
  lemma RunIsMaximal(a: string, b: string, i: nat, j: nat, k: nat)
    requires IsBlock(a, b, i, j, k)
    ensures k <= RunAt(a, b, i, j)
  {
    assert a[i..][..k] == a[i..i + k] == b[j..j + k] == b[j..][..k];
    CommonPrefixIsMaximal(a[i..], b[j..], k);
  }

  ghost predicate ScanInvariant(a: string, b: string, i: nat, j: nat, best: Block)
    requires i <= |a| && j <= |b|
  {
    && IsBlock(a, b, best.i, best.j, best.size)
    && (forall i', j' :: 0 <= i' <= |a| && 0 <= j' <= |b| && Before(i', j', i, j)
          ==> RunAt(a, b, i', j') <= best.size)
    && (best.size > 0 ==> Before(best.i, best.j, i, j))
    && (best.size > 0 ==>
          (forall i', j' :: 0 <= i' <= |a| && 0 <= j' <= |b| && Before(i', j', best.i, best.j)
             ==> RunAt(a, b, i', j') < best.size))
    && (best.size == 0 ==> best.i == 0 && best.j == 0)
  }

  /** Scans the positions from (i, j) on, row by row, keeping the first
      strictly longer run. */
  function Scan(a: string, b: string, i: nat, j: nat, best: Block): (r: Block)
    requires i <= |a| && j <= |b|
    requires ScanInvariant(a, b, i, j, best)
    ensures ScanInvariant(a, b, |a|, 0, r)
    decreases |a| - i, |b| - j
  {
    if i == |a| then
      if j == 0 then best
      else
        assert ScanInvariant(a, b, |a|, 0, best) by {
          forall i', j' | 0 <= i' <= |a| && 0 <= j' <= |b| && Before(i', j', |a|, 0)
            ensures RunAt(a, b, i', j') <= best.size
          {
            assert Before(i', j', i, j);
          }
        }
        best
    else if j == |b| then
      assert ScanInvariant(a, b, i + 1, 0, best) by {
        forall i', j' | 0 <= i' <= |a| && 0 <= j' <= |b| && Before(i', j', i + 1, 0)
          ensures RunAt(a, b, i', j') <= best.size
        {
          if i' == i && j' == |b| {
            assert RunAt(a, b, i', j') == 0;
          } else {
            assert Before(i', j', i, j);
          }
        }
      }
      Scan(a, b, i + 1, 0, best)
    else
      var k := RunAt(a, b, i, j);
      var next := if k > best.size then Block(i, j, k) else best;
      assert ScanInvariant(a, b, i, j + 1, next) by {
        forall i', j' | 0 <= i' <= |a| && 0 <= j' <= |b| && Before(i', j', i, j + 1)
          ensures RunAt(a, b, i', j') <= next.size
        {
          if !(i' == i && j' == j) {
            assert Before(i', j', i, j);
          }
        }
        if k > best.size {
          forall i', j' | 0 <= i' <= |a| && 0 <= j' <= |b| && Before(i', j', i, j)
            ensures RunAt(a, b, i', j') < next.size
          {
          }
        }
      }
      Scan(a, b, i, j + 1, next)
  }

  /** `SequenceMatcher(None, a, b).find_longest_match()`. */
  function LongestMatch(a: string, b: string): (m: Block)
    ensures IsBlock(a, b, m.i, m.j, m.size)
  {
    Scan(a, b, 0, 0, Block(0, 0, 0))
  }

  /** The block found is the longest, and the earliest among the longest. */
  lemma LongestMatchIsLongest(a: string, b: string)
    ensures IsLongestMatch(a, b, LongestMatch(a, b))
  {
    var m := LongestMatch(a, b);
    forall i, j, k | IsBlock(a, b, i, j, k) ensures k <= m.size {
      RunIsMaximal(a, b, i, j, k);
      if i < |a| {
        assert Before(i, j, |a|, 0);
      } else {
        assert k == 0;
      }
    }
    forall i, j | IsBlock(a, b, i, j, m.size) ensures !Before(i, j, m.i, m.j) {
      if m.size > 0 && Before(i, j, m.i, m.j) {
        RunIsMaximal(a, b, i, j, m.size);
        assert false;
      }
    }
  }

  /** The total size `M` of the matching blocks: the longest block, then the
      same search to its left and to its right. */
  function MatchedTotal(a: string, b: string): (m: nat)
    ensures m <= |a| && m <= |b|
    decreases |a| + |b|
  {
    var blk := LongestMatch(a, b);
    if blk.size == 0 then 0
    else
      blk.size
      + MatchedTotal(a[..blk.i], b[..blk.j])
      + MatchedTotal(a[blk.i + blk.size..], b[blk.j + blk.size..])
  }

  /** `SequenceMatcher(None, a, b).ratio()`. */
  function Ratio(a: string, b: string): (r: real)
    ensures 0.0 <= r <= 1.0
    ensures |a| + |b| == 0 ==> r == 1.0
  {
    if |a| + |b| == 0 then 1.0
    else
      var m := MatchedTotal(a, b);
      FractionAtMostOne(2 * m, |a| + |b|);
      (2 * m) as real / (|a| + |b|) as real
  }

  lemma FractionAtMostOne(x: nat, y: nat)
    requires x <= y && y > 0
    ensures 0.0 <= x as real / y as real <= 1.0
  {
    assert x as real <= y as real;
  }

  /** `SequenceMatcher(None, a, b).find_longest_match().size`. */
  function LongestMatchSize(a: string, b: string): (n: nat)
    ensures n <= |a| && n <= |b|
    ensures exists i, j :: IsBlock(a, b, i, j, n)
  {
    var m := LongestMatch(a, b);
    assert IsBlock(a, b, m.i, m.j, m.size);
    m.size
  }

  /** A string matches itself completely. */
  lemma RatioSelf(a: string)
    ensures Ratio(a, a) == 1.0
  {
    MatchedSelf(a);
    if |a| > 0 {
      var n := (2 * |a|) as real;
      assert Ratio(a, a) == n / n;
    }
  }

  lemma MatchedSelf(a: string)
    ensures MatchedTotal(a, a) == |a|
  {
    var m := LongestMatch(a, a);
    LongestMatchIsLongest(a, a);
    assert IsBlock(a, a, 0, 0, |a|);
    assert m.size == |a|;
    assert !Before(0, 0, m.i, m.j);
    assert m.i == 0 && m.j == 0;
    assert a[..0] == [] && a[|a|..] == [];
    EmptyMatchesNothing();
  }

  /** The longest block of a string against itself is the whole string. */
  lemma LongestSelf(a: string)
    ensures LongestMatchSize(a, a) == |a|
  {
    LongestMatchIsLongest(a, a);
    assert IsBlock(a, a, 0, 0, |a|);
  }

  lemma EmptyMatchesNothing()
    ensures MatchedTotal([], []) == 0
  {
  }
}
