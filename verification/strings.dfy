/** Text utilities shared by the model: literal substring tests and searches
    (JavaScript `includes`, `indexOf`), the `${n}` rendering of a
    non-negative number, and `trim`. Strings are `string` (= `seq<char>`),
    one Unicode scalar value per character. */
module Strings {
  import opened Results

  /** `p` occurs in `s` starting at index `i`. */
  predicate HasPrefixAt(s: string, i: nat, p: string)
  {
    i + |p| <= |s| && s[i..i + |p|] == p
  }

  /** JavaScript `s.includes(t)`: `t` occurs somewhere in `s` (the empty
      string occurs everywhere). */
  predicate Contains(s: string, t: string)
  {
    exists i: nat :: i <= |s| && HasPrefixAt(s, i, t)
  }

  /** Index of the first occurrence of `t` in `s` at or after `from`. */
  function IndexOfFrom(s: string, t: string, from: nat): (r: Option<nat>)
    requires from <= |s|
    ensures r.Some? ==> from <= r.value <= |s| && HasPrefixAt(s, r.value, t)
    ensures r.Some? ==> forall p: nat :: from <= p < r.value ==> !HasPrefixAt(s, p, t)
    ensures r.None? ==> forall p: nat :: from <= p <= |s| ==> !HasPrefixAt(s, p, t)
    decreases |s| - from
  {
    if HasPrefixAt(s, from, t) then Some(from)
    else if from == |s| then None
    else IndexOfFrom(s, t, from + 1)
  }

  /** JavaScript `s.indexOf(t)`, with -1 rendered as `None`. */
  function IndexOf(s: string, t: string): (r: Option<nat>)
    ensures r.Some? <==> Contains(s, t)
    ensures r.Some? ==> HasPrefixAt(s, r.value, t)
    ensures r.Some? ==> forall p: nat :: p < r.value ==> !HasPrefixAt(s, p, t)
  {
    IndexOfFrom(s, t, 0)
  }

  /** `p` occurs in `s` at `i`, stated character by character. */
  predicate SameAt(s: string, i: nat, p: string)
  {
    i + |p| <= |s| && forall q :: 0 <= q < |p| ==> s[i + q] == p[q]
  }

  /** The two readings of "`p` occurs at `i`" agree. */
  lemma PrefixSame(s: string, i: nat, p: string)
    ensures HasPrefixAt(s, i, p) <==> SameAt(s, i, p)
  {
    if HasPrefixAt(s, i, p) {
      forall q | 0 <= q < |p| ensures s[i + q] == p[q] {
        assert s[i..i + |p|][q] == s[i + q];
      }
    }
    if SameAt(s, i, p) {
      assert s[i..i + |p|] == p;
    }
  }

  /** `p ++ r` occurs at `i` exactly when `p` occurs there and `r` right
      after it. */
  lemma PrefixSplit(s: string, i: nat, p: string, r: string)
    ensures HasPrefixAt(s, i, p + r) <==> HasPrefixAt(s, i, p) && HasPrefixAt(s, i + |p|, r)
  {
    PrefixSame(s, i, p + r);
    PrefixSame(s, i, p);
    PrefixSame(s, i + |p|, r);
    if SameAt(s, i, p) && SameAt(s, i + |p|, r) {
      forall q | 0 <= q < |p + r| ensures s[i + q] == (p + r)[q] {
        if q >= |p| {
          assert s[i + |p| + (q - |p|)] == r[q - |p|];
        }
      }
    }
  }

  /** `SameAt` form of `PrefixSplit`. */
  lemma SameSplit(s: string, i: nat, p: string, r: string)
    ensures SameAt(s, i, p + r) <==> SameAt(s, i, p) && SameAt(s, i + |p|, r)
  {
    if SameAt(s, i, p + r) {
      forall q | 0 <= q < |p| ensures s[i + q] == p[q] {
        assert (p + r)[q] == p[q];
      }
      forall q | 0 <= q < |r| ensures s[i + |p| + q] == r[q] {
        assert s[i + (|p| + q)] == (p + r)[|p| + q];
      }
    }
    if SameAt(s, i, p) && SameAt(s, i + |p|, r) {
      forall q | 0 <= q < |p + r| ensures s[i + q] == (p + r)[q] {
        if q >= |p| {
          assert s[i + |p| + (q - |p|)] == r[q - |p|];
        }
      }
    }
  }

  /** No position of `s` in `[lo, hi)` holds `c`. */
  predicate NoneIn(s: string, c: char, lo: nat, hi: nat)
  {
    forall p :: lo <= p < hi && p < |s| ==> s[p] != c
  }

  /** Index of the first `c` at or after `from`, or `|s|` when there is none:
      the end of the run that a greedy `[^c]*` consumes from `from`. */
  function FindChar(s: string, c: char, from: nat): (r: nat)
    requires from <= |s|
    ensures from <= r <= |s|
    ensures r < |s| ==> s[r] == c
    decreases |s| - from
  {
    if from == |s| || s[from] == c then from else FindChar(s, c, from + 1)
  }

  /** The run that `FindChar` skips holds no `c`. */
  lemma {:induction false} FindCharSkips(s: string, c: char, from: nat)
    requires from <= |s|
    ensures NoneIn(s, c, from, FindChar(s, c, from))
    decreases |s| - from
  {
    if from < |s| && s[from] != c {
      FindCharSkips(s, c, from + 1);
    }
  }

  /** The run end is the only position with the properties above. */
  lemma {:induction false} FindCharUnique(s: string, c: char, from: nat, x: nat)
    requires from <= x <= |s|
    requires x < |s| ==> s[x] == c
    requires NoneIn(s, c, from, x)
    ensures FindChar(s, c, from) == x
    decreases x - from
  {
    if from < x {
      FindCharUnique(s, c, from + 1, x);
    }
  }

  /** `s` contains no `c` at all. */
  predicate Free(s: string, c: char)
  {
    forall p :: 0 <= p < |s| ==> s[p] != c
  }

  /** A range of `s` without `c` is a `c`-free slice. */
  lemma FreeSlice(s: string, c: char, lo: nat, hi: nat)
    requires lo <= hi <= |s|
    requires NoneIn(s, c, lo, hi)
    ensures Free(s[lo..hi], c)
  {
    forall p | 0 <= p < hi - lo
      ensures s[lo..hi][p] != c
    {
      assert s[lo..hi][p] == s[lo + p];
    }
  }

  /** A `c`-free string placed at `i` leaves its range of `s` free of `c`. */
  lemma FreePlaced(s: string, c: char, i: nat, x: string)
    requires SameAt(s, i, x) && Free(x, c)
    ensures NoneIn(s, c, i, i + |x|)
  {
    forall p | i <= p < i + |x| ensures s[p] != c {
      assert s[i + (p - i)] == x[p - i];
    }
  }

  lemma FreeConcat(x: string, y: string, c: char)
    requires Free(x, c) && Free(y, c)
    ensures Free(x + y, c)
  {
    forall p | 0 <= p < |x + y| ensures (x + y)[p] != c {
      if p >= |x| { assert (x + y)[p] == y[p - |x|]; }
    }
  }

  lemma SliceOfSlice(s: string, lo: nat, hi: nat, a: nat, c: nat)
    requires lo <= hi <= |s| && a <= c <= hi - lo
    ensures s[lo..hi][a..c] == s[lo + a..lo + c]
  {
    assert |s[lo..hi][a..c]| == |s[lo + a..lo + c]|;
    forall q | 0 <= q < c - a
      ensures s[lo..hi][a..c][q] == s[lo + a..lo + c][q]
    {
      assert s[lo..hi][a..c][q] == s[lo..hi][a + q] == s[lo + a + q];
    }
  }

  /** Replacing an occurrence of `y` at `p` by `x + y` inserts `x` at `p`. */
  lemma InsertBefore(s: string, p: nat, x: string, y: string)
    requires HasPrefixAt(s, p, y)
    ensures s[..p] + (x + y) + s[p + |y|..] == s[..p] + x + s[p..]
  {
    assert s[p..] == y + s[p + |y|..];
  }

  /** A string holds what any of its pieces begins with. */
  lemma ContainsPiece(a: string, x: string, b: string, t: string)
    requires HasPrefixAt(x, 0, t)
    ensures Contains(a + x + b, t)
  {
    assert (a + x + b)[|a|..|a| + |t|] == x[..|t|];
    assert HasPrefixAt(a + x + b, |a|, t);
  }

  /** Cutting a slice at two inner points. */
  lemma SliceSplit(s: string, a: nat, b: nat, c: nat, d: nat)
    requires a <= b <= c <= d <= |s|
    ensures s[a..d] == s[a..b] + s[b..c] + s[c..d]
  {
  }

  function DigitChar(d: nat): (r: char)
    requires d < 10
    ensures '0' <= r <= '9'
  {
    "0123456789"[d]
  }

  /** Decimal rendering of a non-negative integer, as JavaScript's template
      `${n}` writes it. */
  function NatToString(n: nat): (r: string)
    ensures |r| >= 1
    ensures forall p :: 0 <= p < |r| ==> '0' <= r[p] <= '9'
    ensures n < 10 <==> |r| == 1
  {
    if n < 10 then [DigitChar(n)]
    else NatToString(n / 10) + [DigitChar(n % 10)]
  }

  /** Distinct numbers render as distinct strings. */
  lemma {:induction false} NatToStringInjective(a: nat, b: nat)
    requires NatToString(a) == NatToString(b)
    ensures a == b
    decreases a
  {
    if a < 10 || b < 10 {
      assert a < 10 && b < 10;
      DigitCharInjective(a, b);
    } else {
      SnocInjective(NatToString(a / 10), DigitChar(a % 10), NatToString(b / 10), DigitChar(b % 10));
      DigitCharInjective(a % 10, b % 10);
      NatToStringInjective(a / 10, b / 10);
    }
  }

  lemma DigitCharInjective(a: nat, b: nat)
    requires a < 10 && b < 10 && DigitChar(a) == DigitChar(b)
    ensures a == b
  {
  }

  lemma SnocInjective(x: string, c: char, y: string, e: char)
    requires x + [c] == y + [e]
    ensures x == y && c == e
  {
    assert x == (x + [c])[..|x|];
    assert y == (y + [e])[..|y|];
  }

  /** The characters `trim` removes: JavaScript's WhiteSpace (tab, vertical
      tab, form feed, no-break space, byte order mark and the Unicode space
      separators) and LineTerminator productions. */
  predicate IsSpace(c: char)
  {
    || c == '\t' || c == '\n' || c == '\U{000B}' || c == '\U{000C}' || c == '\r' || c == ' '
    || c == '\U{00A0}' || c == '\U{1680}' || ('\U{2000}' <= c <= '\U{200A}')
    || c == '\U{2028}' || c == '\U{2029}' || c == '\U{202F}' || c == '\U{205F}'
    || c == '\U{3000}' || c == '\U{FEFF}'
  }

  /** JavaScript `s.trim()`. */
  function Trim(s: string): (r: string)
    ensures exists i, j ::
              && 0 <= i <= j <= |s| && r == s[i..j]
              && (forall p :: 0 <= p < i ==> IsSpace(s[p]))
              && (forall p :: j <= p < |s| ==> IsSpace(s[p]))
    ensures |r| > 0 ==> !IsSpace(r[0]) && !IsSpace(r[|r| - 1])
  {
    var i := SkipSpace(s, 0);
    var j := SkipSpaceBack(s, i, |s|);
    s[i..j]
  }

  /** First index at or after `from` that is not a trim space. */
  function SkipSpace(s: string, from: nat): (r: nat)
    requires from <= |s|
    ensures from <= r <= |s|
    ensures forall p :: from <= p < r ==> IsSpace(s[p])
    ensures r < |s| ==> !IsSpace(s[r])
    decreases |s| - from
  {
    if from == |s| || !IsSpace(s[from]) then from else SkipSpace(s, from + 1)
  }

  /** Largest `r` in `lo..hi` such that `s[r..hi]` is all trim spaces. */
  function SkipSpaceBack(s: string, lo: nat, hi: nat): (r: nat)
    requires lo <= hi <= |s|
    ensures lo <= r <= hi
    ensures forall p :: r <= p < hi ==> IsSpace(s[p])
    ensures r > lo ==> !IsSpace(s[r - 1])
    decreases hi - lo
  {
    if hi == lo || !IsSpace(s[hi - 1]) then hi else SkipSpaceBack(s, lo, hi - 1)
  }
}
