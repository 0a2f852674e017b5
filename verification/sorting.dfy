/**
  `sorted(names, reverse=True)` on strings: the order Python produces is the
  unique descending arrangement of the input's elements, so it is modelled here
  by an insertion sort together with a proof that any two descending
  arrangements of the same multiset coincide.
 */
module Sorting {
  import opened Strings

  /** No element is smaller than a later one. */
  predicate SortedDesc(s: seq<string>) {
    forall i, j :: 0 <= i < j < |s| ==> !LexLess(s[i], s[j])
  }

  /** Every element of a descending sequence is at most its first element. */
  lemma HeadIsGreatest(s: seq<string>, x: string)
    requires SortedDesc(s) && |s| > 0 && x in multiset(s)
    ensures !LexLess(s[0], x)
  {
    var k :| 0 <= k < |s| && s[k] == x;
    if k > 0 {
      assert !LexLess(s[0], s[k]);
    } else {
      LexIrreflexive(x);
    }
  }

  /** Places `x` into a descending sequence. */
  function Insert(x: string, s: seq<string>): (r: seq<string>)
    requires SortedDesc(s)
    ensures SortedDesc(r)
    ensures multiset(r) == multiset(s) + multiset{x}
  {
    if |s| == 0 then [x]
    else if !LexLess(x, s[0]) then
      assert forall j :: 0 <= j < |s| ==> !LexLess(x, s[j]) by {
        forall j | 0 <= j < |s| ensures !LexLess(x, s[j]) {
          if j > 0 {
            LexGeqTransitive(x, s[0], s[j]);
          }
        }
      }
      [x] + s
    else
      var tail := Insert(x, s[1..]);
      assert s == [s[0]] + s[1..];
      assert forall j :: 0 <= j < |tail| ==> !LexLess(s[0], tail[j]) by {
        forall j | 0 <= j < |tail| ensures !LexLess(s[0], tail[j]) {
          assert tail[j] in multiset(tail);
          if tail[j] == x {
            LexAsymmetric(x, s[0]);
          } else {
            assert tail[j] in multiset(s[1..]);
            HeadIsGreatest(s, tail[j]);
          }
        }
      }
      [s[0]] + tail
  }

  /** `sorted(s, reverse=True)`. */
  function SortDesc(s: seq<string>): (r: seq<string>)
    ensures SortedDesc(r)
    ensures multiset(r) == multiset(s)
  {
    if |s| == 0 then []
    else
      assert s == [s[0]] + s[1..];
      Insert(s[0], SortDesc(s[1..]))
  }

  /** Two descending arrangements of the same elements are the same sequence,
      so the result of sorting depends only on which names are present. */
  lemma {:induction false} SortedUnique(a: seq<string>, b: seq<string>)
    requires SortedDesc(a) && SortedDesc(b)
    requires multiset(a) == multiset(b)
    ensures a == b
    decreases |a|
  {
    if |a| == 0 {
      assert |b| == |multiset(b)| == 0;
    } else {
      assert |b| == |multiset(b)| == |multiset(a)| == |a|;
      assert a[0] in multiset(b) && b[0] in multiset(a);
      HeadIsGreatest(b, a[0]);
      HeadIsGreatest(a, b[0]);
      LexTotal(a[0], b[0]);
      assert a[0] == b[0];
      assert a == [a[0]] + a[1..] && b == [b[0]] + b[1..];
      assert multiset(a) == multiset{a[0]} + multiset(a[1..]);
      assert multiset(b) == multiset{b[0]} + multiset(b[1..]);
      assert multiset(a[1..]) == multiset(a) - multiset{a[0]};
      assert multiset(b[1..]) == multiset(b) - multiset{b[0]};
      SortedUnique(a[1..], b[1..]);
    }
  }
}
