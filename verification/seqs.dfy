/** Sequence helpers shared by the modules of the model: the last element,
    flattening (JavaScript's `flat` / `flatMap`) and filtering. */
module Seqs {
  import opened Wrappers

  function Last<T>(s: seq<T>): T
    requires |s| > 0
  {
    s[|s| - 1]
  }

  /** `Array.prototype.flat` on one level of nesting. */
  function Flatten<T>(ss: seq<seq<T>>): seq<T>
  {
    if |ss| == 0 then [] else ss[0] + Flatten(ss[1..])
  }

  lemma {:induction false} FlattenAppend<T>(a: seq<seq<T>>, b: seq<seq<T>>)
    ensures Flatten(a + b) == Flatten(a) + Flatten(b)
  {
    if |a| == 0 {
      assert a + b == b;
    } else {
      assert (a + b)[1..] == a[1..] + b;
      FlattenAppend(a[1..], b);
    }
  }

  lemma FlattenSingle<T>(s: seq<T>)
    ensures Flatten([s]) == s
  {
    assert [s][1..] == [];
  }

  /** `Array.prototype.filter`: the elements satisfying `p`, in order. */
  function Filter<T(==)>(s: seq<T>, p: T -> bool): (r: seq<T>)
    ensures |r| <= |s|
    ensures forall i :: 0 <= i < |r| ==> r[i] in s && p(r[i])
    ensures forall i :: 0 <= i < |s| && p(s[i]) ==> s[i] in r
  {
    if |s| == 0 then [] else (if p(s[0]) then [s[0]] else []) + Filter(s[1..], p)
  }

  lemma {:induction false} FilterAppend<T>(a: seq<T>, b: seq<T>, p: T -> bool)
    ensures Filter(a + b, p) == Filter(a, p) + Filter(b, p)
  {
    if |a| == 0 {
      assert a + b == b;
    } else {
      assert (a + b)[1..] == a[1..] + b;
      FilterAppend(a[1..], b, p);
    }
  }

  lemma FilterAll<T>(s: seq<T>, p: T -> bool)
    requires forall i :: 0 <= i < |s| ==> p(s[i])
    ensures Filter(s, p) == s
  {
    if |s| > 0 {
      FilterAll(s[1..], p);
    }
  }

  lemma {:induction false} FilterNone<T>(s: seq<T>, p: T -> bool)
    requires forall i :: 0 <= i < |s| ==> !p(s[i])
    ensures Filter(s, p) == []
  {
    if |s| > 0 {
      FilterNone(s[1..], p);
    }
  }

  /** No element occurs twice. */
  predicate Distinct<T(==)>(s: seq<T>)
  {
    forall i, j :: 0 <= i < j < |s| ==> s[i] != s[j]
  }

  /** Position of the first occurrence of `x` (JavaScript's `indexOf`). */
  function IndexOf<T(==)>(s: seq<T>, x: T): (k: nat)
    requires x in s
    ensures k < |s| && s[k] == x
    ensures forall j :: 0 <= j < k ==> s[j] != x
  {
    if s[0] == x then 0 else 1 + IndexOf(s[1..], x)
  }

  lemma DropAppend<T>(a: seq<T>, b: seq<T>, k: nat)
    requires k <= |a|
    ensures (a + b)[k..] == a[k..] + b
    ensures (a + b)[..k] == a[..k]
  {
  }

  lemma SliceOfDrop<T>(s: seq<T>, m: nat, lo: nat, hi: nat)
    requires m <= |s| && lo <= hi <= |s| - m
    ensures s[m..][lo..hi] == s[lo + m..hi + m]
  {
  }

  lemma AppendAssoc<T>(a: seq<T>, b: seq<T>, c: seq<T>)
    ensures a + b + c == a + (b + c)
  {
  }

  /** The values of the present entries, in order: `filter(Boolean)` on an
      array whose absent entries are `null`. */
  function Values<T>(xs: seq<Option<T>>): (r: seq<T>)
    ensures |r| <= |xs|
    ensures forall i :: 0 <= i < |r| ==> Some(r[i]) in xs
    ensures forall i :: 0 <= i < |xs| && xs[i].Some? ==> xs[i].value in r
  {
    if |xs| == 0 then [] else (if xs[0].Some? then [xs[0].value] else []) + Values(xs[1..])
  }

  /** When every entry is present, nothing is dropped. */
  lemma {:induction false} ValuesAll<T>(xs: seq<Option<T>>)
    requires forall i :: 0 <= i < |xs| ==> xs[i].Some?
    ensures |Values(xs)| == |xs|
    ensures forall i :: 0 <= i < |xs| ==> Values(xs)[i] == xs[i].value
  {
    if |xs| > 0 {
      ValuesAll(xs[1..]);
    }
  }

  lemma {:induction false} ValuesAppend<T>(a: seq<Option<T>>, b: seq<Option<T>>)
    ensures Values(a + b) == Values(a) + Values(b)
  {
    if |a| == 0 {
      assert a + b == b;
    } else {
      assert (a + b)[1..] == a[1..] + b;
      ValuesAppend(a[1..], b);
    }
  }
}
