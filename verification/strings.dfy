/**
 * The `str` operations the source relies on: `split` on a character,
 * `join`, `ends_with`, `trim_end_matches`, `to_lowercase`, and the
 * left-aligned padding of `format!("{:<w$}", ..)`.
 *
 * A `string` stands for a Rust `&str` read one byte per character: the
 * source measures lengths with `len()` and slices with `&s[..n]`, both
 * counted in bytes, which agree with character counts on ASCII text.
 */
module Strings {

  /** `s.split(c)`: the pieces between occurrences of `c`, never fewer than one. */
  function Split(s: string, c: char): (parts: seq<string>)
    ensures |parts| >= 1
    ensures forall i :: 0 <= i < |parts| ==> c !in parts[i]
    decreases |s|
  {
    if |s| == 0 then [""]
    else
      var rest := Split(s[1..], c);
      if s[0] == c then [""] + rest
      else [[s[0]] + rest[0]] + rest[1..]
  }

  /** `parts.join(sep)`. */
  function Join(parts: seq<string>, sep: string): string
    decreases |parts|
  {
    if |parts| == 0 then ""
    else if |parts| == 1 then parts[0]
    else parts[0] + sep + Join(parts[1..], sep)
  }

  /** Joining the pieces of a split with the separator gives the text back. */
  lemma {:induction false} JoinSplit(s: string, c: char)
    ensures Join(Split(s, c), [c]) == s
    decreases |s|
  {
    if |s| > 0 {
      var rest := Split(s[1..], c);
      JoinSplit(s[1..], c);
      if s[0] == c {
        assert Split(s, c) == [""] + rest;
        assert s == [c] + s[1..];
      } else {
        assert s == [s[0]] + s[1..];
        if |rest| > 1 {
          assert Join(Split(s, c), [c]) == [s[0]] + rest[0] + [c] + Join(rest[1..], [c]);
        }
      }
    }
  }

  /** The pieces counted by a split are at least two exactly when the separator occurs. */
  lemma {:induction false} SplitAtLeastTwo(s: string, c: char)
    ensures |Split(s, c)| >= 2 <==> c in s
    decreases |s|
  {
    if |s| > 0 {
      SplitAtLeastTwo(s[1..], c);
      assert c in s <==> s[0] == c || c in s[1..] by {
        assert s == [s[0]] + s[1..];
      }
    }
  }

  /** Splitting a piece without the separator, followed by more text, extends the first piece. */
  lemma {:induction false} SplitPrefix(x: string, rest: string, c: char)
    requires c !in x
    ensures Split(x + rest, c) == [x + Split(rest, c)[0]] + Split(rest, c)[1..]
    decreases |x|
  {
    if |x| > 0 {
      var R := Split(rest, c);
      var t := x + rest;
      SplitPrefix(x[1..], rest, c);
      assert t[0] == x[0] && x[0] != c;
      assert t[1..] == x[1..] + rest;
      var inner := Split(t[1..], c);
      assert inner == [x[1..] + R[0]] + R[1..];
      assert Split(t, c) == [[x[0]] + inner[0]] + inner[1..];
      assert [x[0]] + (x[1..] + R[0]) == x + R[0];
    } else {
      var R := Split(rest, c);
      assert x + rest == rest;
      assert x + R[0] == R[0];
      assert [R[0]] + R[1..] == R;
    }
  }

  /** Splitting undoes joining, provided no piece holds the separator. */
  lemma {:induction false} SplitJoin(parts: seq<string>, c: char)
    requires |parts| >= 1
    requires forall i :: 0 <= i < |parts| ==> c !in parts[i]
    ensures Split(Join(parts, [c]), c) == parts
    decreases |parts|
  {
    if |parts| == 1 {
      SplitPrefix(parts[0], "", c);
      assert parts[0] + "" == parts[0];
    } else {
      var tail := Join(parts[1..], [c]);
      SplitJoin(parts[1..], c);
      assert Join(parts, [c]) == parts[0] + ([c] + tail);
      var u := [c] + tail;
      SplitPrefix(parts[0], u, c);
      assert u[0] == c && u[1..] == tail;
      assert Split(u, c) == [""] + parts[1..];
      assert parts[0] + "" == parts[0];
      assert parts == [parts[0]] + parts[1..];
    }
  }

  /** A join of two or more pieces ends with the separator and the last piece. */
  lemma {:induction false} JoinLast(parts: seq<string>, sep: string)
    requires |parts| >= 2
    ensures Join(parts, sep) == Join(parts[..|parts| - 1], sep) + sep + parts[|parts| - 1]
    decreases |parts|
  {
    if |parts| > 2 {
      JoinLast(parts[1..], sep);
      assert parts[1..][..|parts| - 2] == parts[..|parts| - 1][1..];
    }
  }

  /** The lengths of the pieces added up. */
  function TotalLength(parts: seq<string>): nat
    decreases |parts|
  {
    if |parts| == 0 then 0 else |parts[0]| + TotalLength(parts[1..])
  }

  /** The pieces written one after another, as successive `write!` calls produce them. */
  function Concat(parts: seq<string>): (r: string)
    ensures |r| == TotalLength(parts)
    decreases |parts|
  {
    if |parts| == 0 then "" else parts[0] + Concat(parts[1..])
  }

  /** A stretch of `a + b` that lies within `a` is that stretch of `a`. */
  lemma SliceWithin(a: string, b: string, lo: nat, hi: nat)
    requires lo <= hi <= |a|
    ensures (a + b)[lo..hi] == a[lo..hi]
  {
  }

  /** A stretch of `a + b` that lies after `a` is the matching stretch of `b`. */
  lemma SliceAfter(a: string, b: string, lo: nat, hi: nat)
    requires lo <= hi <= |b|
    ensures (a + b)[|a| + lo..|a| + hi] == b[lo..hi]
  {
  }

  /**
   * Piece `i` of a concatenation is found right after the pieces before it,
   * so every piece can be read back from its place.
   */
  lemma {:induction false} ConcatAt(parts: seq<string>, i: nat)
    requires i < |parts|
    ensures TotalLength(parts[..i]) + |parts[i]| <= |Concat(parts)|
    ensures Concat(parts)[TotalLength(parts[..i])..TotalLength(parts[..i]) + |parts[i]|] == parts[i]
    decreases i
  {
    var rest := Concat(parts[1..]);
    if i == 0 {
      assert parts[..0] == [];
    } else {
      ConcatAt(parts[1..], i - 1);
      var o := TotalLength(parts[1..][..i - 1]);
      assert parts[..i][1..] == parts[1..][..i - 1];
      assert TotalLength(parts[..i]) == |parts[0]| + o;
      SliceAfter(parts[0], rest, o, o + |parts[i]|);
    }
  }

  /** `s.ends_with(suffix)`. */
  predicate EndsWith(s: string, suffix: string) {
    |suffix| <= |s| && s[|s| - |suffix|..] == suffix
  }

  /** A text that ends with the suffix is what comes before it followed by the suffix. */
  lemma EndsWithSplit(s: string, suffix: string)
    requires EndsWith(s, suffix)
    ensures s == s[..|s| - |suffix|] + suffix
  {
  }

  /** Every text followed by the suffix ends with it. */
  lemma EndsWithAppend(t: string, suffix: string)
    ensures EndsWith(t + suffix, suffix)
  {
    assert (t + suffix)[|t|..] == suffix;
  }

  /** `k` copies of `x` back to back. */
  function Repeat(x: string, k: nat): (r: string)
    ensures |r| == k * |x|
  {
    if k == 0 then "" else Repeat(x, k - 1) + x
  }

  /** `s.trim_end_matches(suffix)`: removes every trailing repetition of `suffix`. */
  function TrimEndMatches(s: string, suffix: string): (r: string)
    requires |suffix| > 0
    ensures !EndsWith(r, suffix)
    ensures |r| <= |s| && r == s[..|r|]
    decreases |s|
  {
    if EndsWith(s, suffix) then TrimEndMatches(s[..|s| - |suffix|], suffix) else s
  }

  /** What the trim removed is a whole number `k` of copies of the suffix. */
  lemma {:induction false} TrimEndMatchesRemovesCopies(s: string, suffix: string) returns (k: nat)
    requires |suffix| > 0
    ensures s == TrimEndMatches(s, suffix) + Repeat(suffix, k)
    decreases |s|
  {
    if EndsWith(s, suffix) {
      var shorter := s[..|s| - |suffix|];
      var r := TrimEndMatches(shorter, suffix);
      var j := TrimEndMatchesRemovesCopies(shorter, suffix);
      assert TrimEndMatches(s, suffix) == r;
      assert s == shorter + suffix;
      k := j + 1;
      calc {
        s;
        (r + Repeat(suffix, j)) + suffix;
        r + (Repeat(suffix, j) + suffix);
      }
    } else {
      k := 0;
      assert s == s + Repeat(suffix, 0);
    }
  }

  /** Trailing copies of the suffix make no difference to the trimmed text. */
  lemma {:induction false} TrimEndMatchesRepeat(s: string, suffix: string, k: nat)
    requires |suffix| > 0
    ensures TrimEndMatches(s + Repeat(suffix, k), suffix) == TrimEndMatches(s, suffix)
    decreases k
  {
    var t := s + Repeat(suffix, k);
    if k == 0 {
      assert t == s;
    } else {
      var shorter := s + Repeat(suffix, k - 1);
      assert t == shorter + suffix;
      assert EndsWith(t, suffix);
      assert t[..|t| - |suffix|] == shorter;
      assert TrimEndMatches(t, suffix) == TrimEndMatches(shorter, suffix);
      TrimEndMatchesRepeat(s, suffix, k - 1);
    }
  }

  /** ASCII lower-casing of one character. */
  function LowerChar(ch: char): char {
    if 'A' <= ch <= 'Z' then (ch as int + 32) as char else ch
  }

  /** `s.to_lowercase()`, restricted to the ASCII letters. */
  function ToLower(s: string): (r: string)
    ensures |r| == |s|
    ensures forall i :: 0 <= i < |r| ==> !('A' <= r[i] <= 'Z')
    ensures forall i :: 0 <= i < |r| && !('A' <= s[i] <= 'Z') ==> r[i] == s[i]
    ensures forall i :: 0 <= i < |r| && 'A' <= s[i] <= 'Z' ==> r[i] as int == s[i] as int + 32
  {
    seq(|s|, i requires 0 <= i < |s| => LowerChar(s[i]))
  }

  /** The code points of a string, the order Rust compares `String`s in. */
  function Codes(s: string): (r: seq<int>)
    ensures |r| == |s|
    ensures forall i :: 0 <= i < |s| ==> r[i] == s[i] as int
  {
    seq(|s|, i requires 0 <= i < |s| => s[i] as int)
  }

  lemma CodesInjective(a: string, b: string)
    requires Codes(a) == Codes(b)
    ensures a == b
  {
    assert |a| == |Codes(a)| == |Codes(b)| == |b|;
    forall i | 0 <= i < |a|
      ensures a[i] == b[i]
    {
      assert Codes(a)[i] == Codes(b)[i];
    }
  }

  /** `n` spaces. */
  function Spaces(n: nat): (r: string)
    ensures |r| == n
    ensures forall i :: 0 <= i < n ==> r[i] == ' '
  {
    seq(n, _ => ' ')
  }

  function Max(a: nat, b: nat): nat {
    if a < b then b else a
  }

  function Min(a: nat, b: nat): nat {
    if a < b then a else b
  }

  /** `format!("{:<w$}", s)`: left-aligned, right-padded with spaces to at least `w`. */
  function PadRight(s: string, w: nat): (r: string)
    ensures |r| == Max(|s|, w)
    ensures r[..|s|] == s
    ensures forall i :: |s| <= i < |r| ==> r[i] == ' '
  {
    if |s| >= w then s else s + Spaces(w - |s|)
  }
}
