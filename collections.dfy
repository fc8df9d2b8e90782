/** Sequence helpers standing in for the JavaScript array methods the game
    code uses (`filter`, `find`, `includes`) and for JavaScript's optional
    values (`undefined`, `null`). */
module Collections {

  datatype Option<T> = None | Some(value: T)

  /** The present value as a one-element sequence, or nothing. */
  function AsSeq<T>(o: Option<T>): (s: seq<T>)
    ensures |s| <= 1
    ensures o.None? <==> s == []
    ensures o.Some? ==> s == [o.value]
  {
    if o.Some? then [o.value] else []
  }

  /** `s` is `t` with some elements left out, the rest kept in order. */
  predicate IsSubsequence<T(==)>(s: seq<T>, t: seq<T>)
    decreases |t|
  {
    if s == [] then true
    else if t == [] then false
    else if s[0] == t[0] then IsSubsequence(s[1..], t[1..])
    else IsSubsequence(s, t[1..])
  }

  lemma {:induction false} SubsequenceOfSelf<T>(s: seq<T>)
    ensures IsSubsequence(s, s)
    decreases |s|
  {
    if s != [] {
      SubsequenceOfSelf(s[1..]);
    }
  }

  lemma {:induction false} SubsequenceExtend<T>(s: seq<T>, t: seq<T>, y: T)
    requires IsSubsequence(s, t)
    ensures IsSubsequence(s, t + [y])
    decreases |t|
  {
    if s != [] {
      assert (t + [y])[1..] == t[1..] + [y];
      if s[0] == t[0] {
        SubsequenceExtend(s[1..], t[1..], y);
      } else {
        SubsequenceExtend(s, t[1..], y);
      }
    }
  }

  lemma {:induction false} SubsequenceAppendBoth<T>(s: seq<T>, t: seq<T>, x: T)
    requires IsSubsequence(s, t)
    ensures IsSubsequence(s + [x], t + [x])
    decreases |t|
  {
    if t == [] {
      assert s == [];
      assert ([x] + [])[1..] == [];
    } else {
      assert (t + [x])[1..] == t[1..] + [x];
      if s == [] {
        if t[0] != x {
          SubsequenceAppendBoth(s, t[1..], x);
        }
      } else if s[0] == t[0] {
        assert (s + [x])[1..] == s[1..] + [x];
        SubsequenceAppendBoth(s[1..], t[1..], x);
      } else {
        SubsequenceAppendBoth(s, t[1..], x);
      }
    }
  }

  /** Extending the longer sequence by `x` and the shorter by nothing or by
      that same `x` keeps the one a subsequence of the other. */
  lemma SubsequenceAppendMaybe<T>(s: seq<T>, t: seq<T>, extra: seq<T>, x: T)
    requires IsSubsequence(s, t)
    requires extra == [] || extra == [x]
    ensures IsSubsequence(s + extra, t + [x])
  {
    if extra == [] {
      assert s + extra == s;
      SubsequenceExtend(s, t, x);
    } else {
      SubsequenceAppendBoth(s, t, x);
    }
  }

  predicate NoDuplicates<T(==)>(s: seq<T>) {
    forall i, j :: 0 <= i < j < |s| ==> s[i] != s[j]
  }

  /** `Array.prototype.filter`: the elements of `s` that `keep` accepts, in order. */
  function Filter<T(==,!new)>(s: seq<T>, keep: T -> bool): (r: seq<T>)
    ensures forall x :: x in r <==> x in s && keep(x)
    ensures IsSubsequence(r, s)
    ensures |r| <= |s|
  {
    if s == [] then []
    else if keep(s[0]) then [s[0]] + Filter(s[1..], keep)
    else Filter(s[1..], keep)
  }

  /** The filter keeps every copy of a kept element and none of a dropped one. */
  lemma {:induction false} FilterCounts<T(!new)>(s: seq<T>, keep: T -> bool)
    ensures forall x :: multiset(Filter(s, keep))[x] == if keep(x) then multiset(s)[x] else 0
  {
    if s != [] {
      FilterCounts(s[1..], keep);
      assert s == [s[0]] + s[1..];
    }
  }
}
