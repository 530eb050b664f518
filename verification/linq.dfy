/** The few LINQ operators the handler relies on, stated over sequences:
    `FirstOrDefault` and `Where`, and the index search behind both
    `FirstOrDefault` and `SkipWhile`. */
module Linq {
  import opened Wrappers

  /** Index of the first element at or after `lo` that satisfies `p`, or `|s|`
      when there is none. Every `FirstOrDefault`/`SkipWhile` in the handler is
      this search. */
  function FirstIndex<T>(s: seq<T>, lo: nat, p: T -> bool): (i: nat)
    requires lo <= |s|
    ensures lo <= i <= |s|
    ensures forall j :: lo <= j < i ==> !p(s[j])
    ensures i < |s| ==> p(s[i])
    decreases |s| - lo
  {
    if lo == |s| then lo
    else if p(s[lo]) then lo
    else FirstIndex(s, lo + 1, p)
  }

  /** `s.FirstOrDefault(p)`, with `None` for the default (null). */
  function FirstOrNone<T>(s: seq<T>, p: T -> bool): (r: Option<T>)
    ensures r.None? <==> forall j :: 0 <= j < |s| ==> !p(s[j])
    ensures r.Some? ==> exists k :: 0 <= k < |s| && s[k] == r.value && p(s[k])
                                  && forall j :: 0 <= j < k ==> !p(s[j])
  {
    var i := FirstIndex(s, 0, p);
    if i < |s| then Some(s[i]) else None
  }

  /** `s.Where(p)`: keeps the elements satisfying `p`, and nothing else. */
  function Where<T(!new)>(s: seq<T>, p: T -> bool): (r: seq<T>)
    ensures forall x :: x in r ==> p(x)
    ensures r == [] <==> forall j :: 0 <= j < |s| ==> !p(s[j])
    ensures |r| <= |s|
  {
    if s == [] then []
    else
      var rest := Where(s[1..], p);
      assert s == [s[0]] + s[1..];
      if p(s[0]) then [s[0]] + rest else rest
  }

  /** `Where` keeps each satisfying value as often as it occurs in `s`. */
  lemma {:induction false} WhereCounts<T(!new)>(s: seq<T>, p: T -> bool)
    ensures forall x :: multiset(Where(s, p))[x] == if p(x) then multiset(s)[x] else 0
  {
    if s != [] {
      WhereCounts(s[1..], p);
      assert s == [s[0]] + s[1..];
    }
  }

  /** `Where` distributes over concatenation, so the kept elements stay in
      the order they have in `s`. */
  lemma {:induction false} WhereConcat<T(!new)>(a: seq<T>, b: seq<T>, p: T -> bool)
    ensures Where(a + b, p) == Where(a, p) + Where(b, p)
  {
    if a == [] {
      assert a + b == b;
    } else {
      WhereConcat(a[1..], b, p);
      assert (a + b)[0] == a[0] && (a + b)[1..] == a[1..] + b;
      if p(a[0]) {
        assert [a[0]] + (Where(a[1..], p) + Where(b, p)) == ([a[0]] + Where(a[1..], p)) + Where(b, p);
      }
    }
  }

  /** `s[i]` is the one and only element of `s` satisfying `p`. */
  ghost predicate OnlyMatchAt<T>(s: seq<T>, p: T -> bool, i: nat)
  {
    && i < |s|
    && p(s[i])
    && forall j :: 0 <= j < |s| && j != i ==> !p(s[j])
  }

  /** `Where` keeps exactly one element precisely when one position of `s`
      satisfies `p`, and that element is the one kept. */
  lemma {:induction false} WhereSingleton<T(!new)>(s: seq<T>, p: T -> bool)
    ensures |Where(s, p)| == 1 <==> exists i: nat :: OnlyMatchAt(s, p, i)
    ensures forall i: nat :: OnlyMatchAt(s, p, i) ==> Where(s, p) == [s[i]]
  {
    if s != [] {
      var tail := s[1..];
      WhereSingleton(tail, p);
      assert forall j :: 0 <= j < |tail| ==> tail[j] == s[j + 1];
      if p(s[0]) {
        assert forall i: nat :: OnlyMatchAt(s, p, i) ==> i == 0;
        if Where(tail, p) == [] {
          assert OnlyMatchAt(s, p, 0);
        } else {
          var j :| 0 <= j < |tail| && p(tail[j]);
          assert p(s[j + 1]);
        }
      } else {
        forall i: nat | OnlyMatchAt(s, p, i)
          ensures i > 0 && OnlyMatchAt(tail, p, i - 1)
        {
        }
        forall i: nat | OnlyMatchAt(tail, p, i)
          ensures OnlyMatchAt(s, p, i + 1)
        {
          forall j | 0 <= j < |s| && j != i + 1
            ensures !p(s[j])
          {
            if j > 0 { assert s[j] == tail[j - 1]; }
          }
        }
      }
    }
  }
}
