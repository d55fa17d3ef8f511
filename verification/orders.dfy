/**
 * The three-valued comparison result of Rust's `std::cmp::Ordering`, with
 * `then_with` and `reverse`, and the lexicographic order that Rust's `Ord`
 * gives to slices and strings.
 */
module Orders {

  datatype Ordering = Less | Equal | Greater {

    /** The ordering seen from the other side (`Ordering::reverse`). */
    function Flip(): Ordering {
      match this
      case Less => Greater
      case Equal => Equal
      case Greater => Less
    }

    /** `self.then_with(|| next)`: `next` decides only a tie. */
    function Then(next: Ordering): (r: Ordering)
      ensures this != Equal ==> r == this
      ensures r == Equal <==> this == Equal && next == Equal
      ensures r == Less <==> this == Less || (this == Equal && next == Less)
    {
      if this == Equal then next else this
    }
  }

  /** Comparison of two integers. */
  function Compare(a: int, b: int): (r: Ordering)
    ensures r == Less <==> a < b
    ensures r == Equal <==> a == b
    ensures r == Greater <==> a > b
  {
    if a < b then Less else if a == b then Equal else Greater
  }

  lemma FlipThen(x: Ordering, y: Ordering)
    ensures x.Then(y).Flip() == x.Flip().Then(y.Flip())
  {
  }

  /**
   * Lexicographic comparison: the first differing element decides, and a
   * proper prefix is smaller than the sequence it starts.
   */
  function LexCompare(a: seq<int>, b: seq<int>): (r: Ordering)
    ensures r == Equal <==> a == b
    decreases |a|
  {
    if |a| == 0 then (if |b| == 0 then Equal else Less)
    else if |b| == 0 then Greater
    else
      var rest := LexCompare(a[1..], b[1..]);
      assert a == b <==> a[0] == b[0] && a[1..] == b[1..] by {
        if a[0] == b[0] && a[1..] == b[1..] {
          assert a == [a[0]] + a[1..];
          assert b == [b[0]] + b[1..];
        }
      }
      Compare(a[0], b[0]).Then(rest)
  }

  /**
   * An independent description of "a comes before b": a is a proper prefix
   * of b, or the two agree up to some index where a's element is smaller.
   */
  ghost predicate LexLess(a: seq<int>, b: seq<int>) {
    || (|a| < |b| && a == b[..|a|])
    || exists k :: 0 <= k < |a| && k < |b| && a[..k] == b[..k] && a[k] < b[k]
  }

  lemma {:induction false} LexCompareFlip(a: seq<int>, b: seq<int>)
    ensures LexCompare(b, a) == LexCompare(a, b).Flip()
    decreases |a|
  {
    if |a| > 0 && |b| > 0 {
      LexCompareFlip(a[1..], b[1..]);
      FlipThen(Compare(a[0], b[0]), LexCompare(a[1..], b[1..]));
    }
  }

  lemma {:induction false} LexCompareLessTransitive(a: seq<int>, b: seq<int>, c: seq<int>)
    requires LexCompare(a, b) == Less && LexCompare(b, c) == Less
    ensures LexCompare(a, c) == Less
    decreases |a|
  {
    if |a| > 0 && |b| > 0 && |c| > 0 {
      if a[0] == b[0] && b[0] == c[0] {
        LexCompareLessTransitive(a[1..], b[1..], c[1..]);
      }
    }
  }

  /** LexCompare agrees with the reference description of the order. */
  lemma {:induction false} LexCompareLessIff(a: seq<int>, b: seq<int>)
    ensures LexCompare(a, b) == Less <==> LexLess(a, b)
    decreases |a|
  {
    if |a| == 0 {
      if |b| > 0 {
        assert a == b[..0];
      }
    } else if |b| == 0 {
    } else if a[0] < b[0] {
      assert a[..0] == b[..0];
    } else if a[0] > b[0] {
      assert forall k | 0 < k <= |a| && k <= |b| :: a[..k][0] == a[0] && b[..k][0] == b[0];
    } else {
      LexCompareLessIff(a[1..], b[1..]);
      if LexLess(a[1..], b[1..]) {
        if |a| - 1 < |b| - 1 && a[1..] == b[1..][..|a| - 1] {
          assert a == b[..|a|] by {
            assert a == [a[0]] + a[1..];
            assert b[..|a|] == [b[0]] + b[1..][..|a| - 1];
          }
        } else {
          var k :| 0 <= k < |a| - 1 && k < |b| - 1 && a[1..][..k] == b[1..][..k] && a[1..][k] < b[1..][k];
          assert a[..k + 1] == b[..k + 1] by {
            assert a[..k + 1] == [a[0]] + a[1..][..k];
            assert b[..k + 1] == [b[0]] + b[1..][..k];
          }
          assert a[k + 1] < b[k + 1];
        }
      }
      if LexLess(a, b) {
        if |a| < |b| && a == b[..|a|] {
          assert a[1..] == b[1..][..|a| - 1];
        } else {
          var k :| 0 <= k < |a| && k < |b| && a[..k] == b[..k] && a[k] < b[k];
          assert k > 0;
          assert a[1..][..k - 1] == b[1..][..k - 1] by {
            assert a[1..][..k - 1] == a[..k][1..];
            assert b[1..][..k - 1] == b[..k][1..];
          }
          assert a[1..][k - 1] < b[1..][k - 1];
        }
      }
    }
  }
}
