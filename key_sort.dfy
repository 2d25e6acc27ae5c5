/**
 * Python's `sorted(items, key=...)` over a dict's items, keeping the keys:
 * a sort of a sequence by a natural-number key, written as an insertion
 * sort.
 */
module KeySort {

  predicate HasKeys<T>(s: seq<T>, key: map<T, nat>) {
    forall x :: x in s ==> x in key
  }

  /** Keys never decrease along the sequence. */
  predicate SortedBy<T>(s: seq<T>, key: map<T, nat>)
    requires HasKeys(s, key)
  {
    forall p, q :: 0 <= p < q < |s| ==> key[s[p]] <= key[s[q]]
  }

  /** Puts `x` in front of the first element whose key is not smaller than its own. */
  function Insert<T>(x: T, s: seq<T>, key: map<T, nat>): (r: seq<T>)
    requires x in key && HasKeys(s, key)
    ensures multiset(r) == multiset(s) + multiset{x}
    ensures HasKeys(r, key)
    ensures r != [] && (r[0] == x || (s != [] && r[0] == s[0]))
  {
    if s == [] || key[x] <= key[s[0]] then
      [x] + s
    else
      assert s == [s[0]] + s[1..];
      [s[0]] + Insert(x, s[1..], key)
  }

  /** Inserting into a sorted sequence keeps it sorted. */
  lemma {:induction false} InsertSorted<T>(x: T, s: seq<T>, key: map<T, nat>)
    requires x in key && HasKeys(s, key) && SortedBy(s, key)
    ensures SortedBy(Insert(x, s, key), key)
  {
    if s != [] && key[x] > key[s[0]] {
      var t := Insert(x, s[1..], key);
      InsertSorted(x, s[1..], key);
      forall q | 0 <= q < |t|
        ensures key[s[0]] <= key[t[q]]
      {
        assert t[q] in multiset(t);
        assert t[q] == x || t[q] in multiset(s[1..]);
        if t[q] != x {
          var k :| 0 <= k < |s[1..]| && s[1..][k] == t[q];
          assert s[k + 1] == t[q];
        }
      }
    }
  }

  /** The elements of `s`, ordered by key. */
  function Sort<T>(s: seq<T>, key: map<T, nat>): (r: seq<T>)
    requires HasKeys(s, key)
    ensures multiset(r) == multiset(s)
    ensures |r| == |s|
    ensures HasKeys(r, key)
    ensures SortedBy(r, key)
  {
    if s == [] then []
    else
      assert s == [s[0]] + s[1..];
      var t := Sort(s[1..], key);
      InsertSorted(s[0], t, key);
      Insert(s[0], t, key)
  }

  /** In a sorted sequence without repeats the first key is least, and the second is least among the rest. */
  lemma SortedLeast<T>(s: seq<T>, key: map<T, nat>)
    requires HasKeys(s, key) && SortedBy(s, key) && s != []
    requires forall p, q :: 0 <= p < q < |s| ==> s[p] != s[q]
    ensures forall y :: y in s ==> key[s[0]] <= key[y]
    ensures |s| > 1 ==> forall y :: y in s && y != s[0] ==> key[s[1]] <= key[y]
  {
    forall y | y in s
      ensures key[s[0]] <= key[y]
      ensures |s| > 1 && y != s[0] ==> key[s[1]] <= key[y]
    {
      var q :| 0 <= q < |s| && s[q] == y;
    }
  }

  /** A sequence with the multiset of a set holds each of its elements once. */
  lemma DistinctFromSet<T>(s: seq<T>, c: set<T>)
    requires multiset(s) == multiset(c)
    ensures forall p, q :: 0 <= p < q < |s| ==> s[p] != s[q]
    ensures forall x :: x in s <==> x in c
  {
    forall p, q | 0 <= p < q < |s|
      ensures s[p] != s[q]
    {
      var x := s[p];
      assert s == s[..q] + [s[q]] + s[q + 1..];
      assert x in s[..q];
      assert multiset(s)[x] == multiset(s[..q])[x] + multiset([s[q]])[x] + multiset(s[q + 1..])[x];
      assert multiset(c)[x] <= 1;
    }
    forall x
      ensures x in s <==> x in c
    {
      assert x in s <==> x in multiset(s);
    }
  }
}
