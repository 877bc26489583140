/** Sums and multisets of integer sequences: the facts that the trace and the
    columns of a magic square are reasoned about with. */
module SeqLemmas {

  /** The sum of the elements `s[lo..hi]`, added from the left. */
  function RangeSum(s: seq<int>, lo: nat, hi: nat): int
    requires lo <= hi <= |s|
    decreases hi - lo
  {
    if lo == hi then 0 else RangeSum(s, lo, hi - 1) + s[hi - 1]
  }

  /** The sum of the elements of `s`. */
  function Sum(s: seq<int>): int
  {
    RangeSum(s, 0, |s|)
  }

  /** A range sum splits at any point inside the range. */
  lemma {:induction false} RangeSumSplit(s: seq<int>, a: nat, b: nat, c: nat)
    requires a <= b <= c <= |s|
    ensures RangeSum(s, a, c) == RangeSum(s, a, b) + RangeSum(s, b, c)
    decreases c - b
  {
    if b < c {
      RangeSumSplit(s, a, b, c - 1);
    }
  }

  /** A run of `len` elements of `d` from `lo` that is the run of `e` from
      `h` with `c` added to every element sums to that run of `e` plus `c`
      once per element. */
  lemma {:induction false} ShiftedRun(d: seq<int>, e: seq<int>, lo: nat, h: nat, len: nat, c: int)
    requires lo + len <= |d| && h + len <= |e|
    requires forall i :: lo <= i < lo + len ==> d[i] == e[i - lo + h] + c
    ensures RangeSum(d, lo, lo + len) == RangeSum(e, h, h + len) + c * len
  {
    if len > 0 {
      ShiftedRun(d, e, lo, h, len - 1, c);
      assert d[lo + len - 1] == e[h + len - 1] + c;
      assert c * len == c * (len - 1) + c;
    }
  }

  /** If the elements at mirrored positions of `s[lo..hi]` always add up to
      `c`, the range sums to half of `(hi - lo) * c`. */
  lemma {:induction false} MirroredRun(s: seq<int>, lo: nat, hi: nat, c: int)
    requires lo <= hi <= |s|
    requires forall i :: lo <= i < hi ==> s[i] + s[lo + hi - 1 - i] == c
    ensures 2 * RangeSum(s, lo, hi) == (hi - lo) * c
    decreases hi - lo
  {
    if hi - lo == 1 {
      assert s[lo] + s[lo] == c;
    } else if hi - lo >= 2 {
      MirroredRun(s, lo + 1, hi - 1, c);
      RangeSumSplit(s, lo, lo + 1, hi - 1);
      assert s[lo] + s[hi - 1] == c;
      assert (hi - lo) * c == (hi - 1 - (lo + 1)) * c + 2 * c;
    }
  }

  /** Position `r` of the halves `t2`, `b2` holds the pair at position `r`
      of `t`, `b`, either as it was or exchanged. */
  predicate ExchangedAt(t: seq<int>, b: seq<int>, t2: seq<int>, b2: seq<int>, r: nat)
    requires r < |t| == |b| == |t2| == |b2|
  {
    (t2[r] == t[r] && b2[r] == b[r]) || (t2[r] == b[r] && b2[r] == t[r])
  }

  /** Taking one more element adds it to the multiset of the prefix. */
  lemma MultisetTakeOneMore(s: seq<int>, m: nat)
    requires m < |s|
    ensures multiset(s[..m + 1]) == multiset(s[..m]) + multiset{s[m]}
  {
    assert s[..m + 1] == s[..m] + [s[m]];
  }

  /** The first `m` positions of the halves `t`, `b` and of `t2`, `b2`, where
      each position either keeps its pair or has it exchanged, hold the same
      multiset of values. */
  lemma {:induction false} PairwiseExchangePrefix(t: seq<int>, b: seq<int>, t2: seq<int>, b2: seq<int>, m: nat)
    requires |t| == |b| == |t2| == |b2| && m <= |t|
    requires forall r :: 0 <= r < |t| ==> ExchangedAt(t, b, t2, b2, r)
    ensures multiset(t2[..m]) + multiset(b2[..m]) == multiset(t[..m]) + multiset(b[..m])
  {
    if m > 0 {
      var r := m - 1;
      PairwiseExchangePrefix(t, b, t2, b2, r);
      MultisetTakeOneMore(t, r);
      MultisetTakeOneMore(b, r);
      MultisetTakeOneMore(t2, r);
      MultisetTakeOneMore(b2, r);
      assert ExchangedAt(t, b, t2, b2, r);
      assert multiset{t2[r]} + multiset{b2[r]} == multiset{t[r]} + multiset{b[r]};
      calc {
        multiset(t2[..m]) + multiset(b2[..m]);
        (multiset(t2[..r]) + multiset(b2[..r])) + (multiset{t2[r]} + multiset{b2[r]});
        (multiset(t[..r]) + multiset(b[..r])) + (multiset{t[r]} + multiset{b[r]});
        multiset(t[..m]) + multiset(b[..m]);
      }
    }
  }

  /** Two halves `t` and `b` of equal length, where each position either keeps
      its pair or has `t[r]` and `b[r]` exchanged, hold the same multiset of
      values before and after. */
  lemma PairwiseExchange(t: seq<int>, b: seq<int>, t2: seq<int>, b2: seq<int>)
    requires |t| == |b| == |t2| == |b2|
    requires forall r :: 0 <= r < |t| ==> ExchangedAt(t, b, t2, b2, r)
    ensures multiset(t2) + multiset(b2) == multiset(t) + multiset(b)
  {
    var m := |t|;
    PairwiseExchangePrefix(t, b, t2, b2, m);
    assert t[..m] == t && b[..m] == b && t2[..m] == t2 && b2[..m] == b2;
  }

  /** A sequence of length `2 * p` in which each cell `r` of the first half
      and the cell `r + p` below it either kept their values or exchanged
      them holds the same multiset of values as before. */
  lemma HalvesExchanged(pre: seq<int>, post: seq<int>, p: nat)
    requires |pre| == |post| == 2 * p
    requires forall r {:trigger post[r]} :: 0 <= r < p ==>
      (post[r] == pre[r] && post[r + p] == pre[r + p]) || (post[r] == pre[r + p] && post[r + p] == pre[r])
    ensures multiset(post) == multiset(pre)
  {
    var t, b, t2, b2 := pre[..p], pre[p..], post[..p], post[p..];
    forall r | 0 <= r < p
      ensures ExchangedAt(t, b, t2, b2, r)
    {
      assert t[r] == pre[r] && b[r] == pre[r + p] && t2[r] == post[r] && b2[r] == post[r + p];
    }
    PairwiseExchange(t, b, t2, b2);
    assert pre == t + b;
    assert post == t2 + b2;
  }
}
