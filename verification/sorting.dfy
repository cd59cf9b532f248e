/** Sorting a node's records by key. The program calls `sort.Slice` with a
    comparator that also answers "less" for equal keys; the model sorts with
    the strict order `KeyLess` instead. */
module Sorting {
  import opened Codec

  /** Ascending by unsigned byte-wise key comparison. */
  ghost predicate Sorted(rs: seq<Record>)
  {
    forall i, j :: 0 <= i < j < |rs| ==> KeyLe(rs[i].key, rs[j].key)
  }

  /** Puts `r` into sorted `s` ahead of the first record whose key is not
      smaller, keeping the order sorted and losing nothing. */
  function Insert(r: Record, s: seq<Record>): (t: seq<Record>)
    requires Sorted(s)
    ensures Sorted(t)
    ensures multiset(t) == multiset(s) + multiset{r}
  {
    if |s| == 0 then [r]
    else if !KeyLess(s[0].key, r.key) then
      InsertFront(r, s);
      [r] + s
    else
      var t' := Insert(r, s[1..]);
      InsertBehind(r, s, t');
      assert s == [s[0]] + s[1..];
      [s[0]] + t'
  }

  lemma InsertFront(r: Record, s: seq<Record>)
    requires Sorted(s) && |s| > 0 && !KeyLess(s[0].key, r.key)
    ensures Sorted([r] + s)
  {
    var t := [r] + s;
    forall i, j | 0 <= i < j < |t|
      ensures KeyLe(t[i].key, t[j].key)
    {
      KeyOrderIsNumeric(s[0].key, r.key);
      KeyOrderIsNumeric(r.key, t[j].key);
      KeyOrderIsNumeric(s[0].key, t[j].key);
    }
  }

  lemma InsertBehind(r: Record, s: seq<Record>, t': seq<Record>)
    requires Sorted(s) && |s| > 0 && KeyLess(s[0].key, r.key)
    requires Sorted(t') && multiset(t') == multiset(s[1..]) + multiset{r}
    ensures Sorted([s[0]] + t')
  {
    var t := [s[0]] + t';
    forall i, j | 0 <= i < j < |t|
      ensures KeyLe(t[i].key, t[j].key)
    {
      if i == 0 {
        var y := t'[j - 1];
        assert y in multiset(t');
        if y != r {
          assert y in multiset(s[1..]);
          var k :| 0 <= k < |s[1..]| && s[1..][k] == y;
          assert s[k + 1] == y;
        } else {
          KeyOrderIsNumeric(s[0].key, r.key);
        }
      }
    }
  }

  /** Insertion sort: the result is sorted and is a permutation of the
      input. */
  function SortByKey(rs: seq<Record>): (s: seq<Record>)
    ensures Sorted(s)
    ensures multiset(s) == multiset(rs)
  {
    if |rs| == 0 then []
    else
      assert rs == [rs[0]] + rs[1..];
      Insert(rs[0], SortByKey(rs[1..]))
  }

  /** Two sorted runs, every key of the first at most every key of the
      second, make a sorted run. */
  lemma SortedConcat(a: seq<Record>, b: seq<Record>)
    requires Sorted(a) && Sorted(b)
    requires forall x, y :: x in a && y in b ==> KeyLe(x.key, y.key)
    ensures Sorted(a + b)
  {
    var t := a + b;
    forall i, j | 0 <= i < j < |t|
      ensures KeyLe(t[i].key, t[j].key)
    {
      if i < |a| && j >= |a| {
        assert t[i] in a && t[j] in b;
      } else if j < |a| {
        assert t[i] == a[i] && t[j] == a[j];
      } else {
        assert t[i] == b[i - |a|] && t[j] == b[j - |a|];
      }
    }
  }
}
