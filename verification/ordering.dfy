/** Multi-column `ORDER BY`: every row id has a sequence of integer sort keys,
    compared column by column, and an insertion sort puts ids in that order. */
module Ordering {

  /** Lexicographic order of sort keys: the first column decides, ties fall through
      to the next one. */
  predicate LexLeq(a: seq<int>, b: seq<int>)
  {
    |a| == 0 || (|b| > 0 && (a[0] < b[0] || (a[0] == b[0] && LexLeq(a[1..], b[1..]))))
  }

  lemma {:induction false} LexLeqTotal(a: seq<int>, b: seq<int>)
    requires |a| == |b|
    ensures LexLeq(a, b) || LexLeq(b, a)
  {
    if |a| > 0 && a[0] == b[0] {
      LexLeqTotal(a[1..], b[1..]);
    }
  }

  lemma {:induction false} LexLeqTransitive(a: seq<int>, b: seq<int>, c: seq<int>)
    requires |a| == |b| == |c|
    requires LexLeq(a, b) && LexLeq(b, c)
    ensures LexLeq(a, c)
  {
    if |a| > 0 && a[0] == b[0] == c[0] {
      LexLeqTransitive(a[1..], b[1..], c[1..]);
    }
  }

  /** Every id of `ids` has a key of `width` columns. */
  predicate HasKeys(ids: seq<nat>, key: map<nat, seq<int>>, width: nat)
  {
    forall i :: 0 <= i < |ids| ==> ids[i] in key && |key[ids[i]]| == width
  }

  predicate Sorted(ids: seq<nat>, key: map<nat, seq<int>>)
  {
    forall i, j :: 0 <= i < j < |ids| ==> ids[i] in key && ids[j] in key && LexLeq(key[ids[i]], key[ids[j]])
  }

  /** Inserts `x` after every id whose key is strictly smaller. */
  function Insert(x: nat, ids: seq<nat>, key: map<nat, seq<int>>, width: nat): (r: seq<nat>)
    requires x in key && |key[x]| == width
    requires HasKeys(ids, key, width) && Sorted(ids, key)
    ensures HasKeys(r, key, width) && Sorted(r, key)
    ensures multiset(r) == multiset(ids) + multiset{x}
    decreases |ids|
  {
    if |ids| == 0 then
      [x]
    else if LexLeq(key[x], key[ids[0]]) then
      InsertFrontSorted(x, ids, key, width);
      [x] + ids
    else
      var rest := Insert(x, ids[1..], key, width);
      LexLeqTotal(key[x], key[ids[0]]);
      assert ids == [ids[0]] + ids[1..];
      InsertBehindSorted(ids[0], x, ids[1..], rest, key, width);
      [ids[0]] + rest
  }

  lemma InsertFrontSorted(x: nat, ids: seq<nat>, key: map<nat, seq<int>>, width: nat)
    requires |ids| > 0 && x in key && |key[x]| == width
    requires HasKeys(ids, key, width) && Sorted(ids, key)
    requires LexLeq(key[x], key[ids[0]])
    ensures Sorted([x] + ids, key)
  {
    var r := [x] + ids;
    forall i, j | 0 <= i < j < |r|
      ensures r[i] in key && r[j] in key && LexLeq(key[r[i]], key[r[j]])
    {
      if i == 0 && j > 1 {
        LexLeqTransitive(key[x], key[ids[0]], key[ids[j - 1]]);
      }
    }
  }

  lemma InsertBehindSorted(h: nat, x: nat, tail: seq<nat>, rest: seq<nat>, key: map<nat, seq<int>>, width: nat)
    requires h in key && x in key && |key[h]| == width && |key[x]| == width
    requires HasKeys(tail, key, width) && HasKeys(rest, key, width)
    requires Sorted([h] + tail, key) && Sorted(rest, key)
    requires LexLeq(key[h], key[x])
    requires multiset(rest) == multiset(tail) + multiset{x}
    ensures Sorted([h] + rest, key)
  {
    var r := [h] + rest;
    forall j | 1 <= j < |r|
      ensures LexLeq(key[h], key[r[j]])
    {
      assert r[j] in multiset(rest);
      if r[j] != x {
        assert r[j] in multiset(tail);
        var k :| 0 <= k < |tail| && tail[k] == r[j];
        assert ([h] + tail)[0] == h && ([h] + tail)[k + 1] == r[j];
      }
    }
  }

  /** Insertion sort of `ids` by their keys. */
  function Sort(ids: seq<nat>, key: map<nat, seq<int>>, width: nat): (r: seq<nat>)
    requires HasKeys(ids, key, width)
    ensures HasKeys(r, key, width) && Sorted(r, key)
    ensures multiset(r) == multiset(ids)
    decreases |ids|
  {
    if |ids| == 0 then
      []
    else
      assert ids == [ids[0]] + ids[1..];
      Insert(ids[0], Sort(ids[1..], key, width), key, width)
  }
}
