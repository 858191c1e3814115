/** Grouping in first-appearance order, as a JavaScript `Map` keyed by a
    string does it when each element either opens a new entry or extends the
    entry of its key. Used for sign-up registrations and for trip views. */
module Buckets {
  import opened Wrappers
  import opened Seqs

  /** One entry of the map: its key, the value taken from the first element
      with that key, and the items collected so far. */
  datatype Bucket<K, H, V> = Bucket(key: K, head: H, items: seq<V>)

  function Keys<K, H, V>(bs: seq<Bucket<K, H, V>>): (r: seq<K>)
    ensures |r| == |bs|
    ensures forall i | 0 <= i < |bs| :: r[i] == bs[i].key
  {
    Map(bs, (b: Bucket<K, H, V>) => b.key)
  }

  /** Position of the entry with key `k`, if any. */
  function Find<K(==), H, V>(bs: seq<Bucket<K, H, V>>, k: K): (r: Option<nat>)
    ensures r.None? <==> k !in Keys(bs)
    ensures r.Some? ==> r.value < |bs| && bs[r.value].key == k
  {
    if bs == [] then None
    else if bs[|bs| - 1].key == k then Some(|bs| - 1)
    else
      assert Keys(bs) == Keys(bs[..|bs| - 1]) + [bs[|bs| - 1].key];
      Find(bs[..|bs| - 1], k)
  }

  /** Records one element: extends the entry of `k`, or opens one at the end. */
  function Place<K(==), H, V>(bs: seq<Bucket<K, H, V>>, k: K, h: H, v: Option<V>): seq<Bucket<K, H, V>>
  {
    match Find(bs, k)
    case Some(i) => if v.Some? then bs[i := bs[i].(items := bs[i].items + [v.value])] else bs
    case None => bs + [Bucket(k, h, if v.Some? then [v.value] else [])]
  }

  /** The left-to-right fold of `Place` over `s`. */
  function GroupBy<T, K(==), H, V>(s: seq<T>, key: T -> K, head: T -> H, item: T -> Option<V>): seq<Bucket<K, H, V>>
  {
    if s == [] then []
    else
      var n := |s| - 1;
      Place(GroupBy(s[..n], key, head, item), key(s[n]), head(s[n]), item(s[n]))
  }

  /** Reference definition of an entry's items: the present items of the
      elements with key `k`, in order. */
  function Collect<T, K(==), V>(s: seq<T>, k: K, key: T -> K, item: T -> Option<V>): seq<V>
  {
    if s == [] then []
    else
      var n := |s| - 1;
      Collect(s[..n], k, key, item) + (if key(s[n]) == k && item(s[n]).Some? then [item(s[n]).value] else [])
  }

  lemma {:induction false} CollectAbsent<T, K, V>(s: seq<T>, k: K, key: T -> K, item: T -> Option<V>)
    requires k !in Map(s, key)
    ensures Collect(s, k, key, item) == []
  {
    if s != [] {
      var n := |s| - 1;
      assert Map(s[..n], key) == Map(s, key)[..n];
      CollectAbsent(s[..n], k, key, item);
    }
  }

  /** An item is collected under `k` exactly when some element with key `k` carries it. */
  lemma {:induction false} CollectMembership<T, K, V>(s: seq<T>, k: K, key: T -> K, item: T -> Option<V>, v: V)
    ensures v in Collect(s, k, key, item) <==> exists j | 0 <= j < |s| :: key(s[j]) == k && item(s[j]) == Some(v)
  {
    if s != [] {
      var n := |s| - 1;
      var init := s[..n];
      CollectMembership(init, k, key, item, v);
      var last := if key(s[n]) == k && item(s[n]).Some? then [item(s[n]).value] else [];
      assert Collect(s, k, key, item) == Collect(init, k, key, item) + last;
      if v in Collect(init, k, key, item) {
        var j :| 0 <= j < n && key(init[j]) == k && item(init[j]) == Some(v);
        assert init[j] == s[j];
      } else if v in last {
        assert key(s[n]) == k && item(s[n]) == Some(v);
      }
      if exists j | 0 <= j < |s| :: key(s[j]) == k && item(s[j]) == Some(v) {
        var j :| 0 <= j < |s| && key(s[j]) == k && item(s[j]) == Some(v);
        if j < n {
          assert init[j] == s[j];
        }
      }
    }
  }

  lemma {:induction false} CollectAppend<T, K, V>(a: seq<T>, b: seq<T>, k: K, key: T -> K, item: T -> Option<V>)
    ensures Collect(a + b, k, key, item) == Collect(a, k, key, item) + Collect(b, k, key, item)
  {
    if b == [] {
      assert a + b == a;
    } else {
      var n := |b| - 1;
      assert (a + b)[..|a + b| - 1] == a + b[..n];
      CollectAppend(a, b[..n], k, key, item);
    }
  }

  /** When every element has key `k`, the collected items are all present items. */
  lemma {:induction false} CollectAllKey<T, K, V>(s: seq<T>, k: K, key: T -> K, item: T -> Option<V>)
    requires forall j | 0 <= j < |s| :: key(s[j]) == k
    ensures Collect(s, k, key, item) == Somes(Map(s, item))
  {
    if s != [] {
      var n := |s| - 1;
      CollectAllKey(s[..n], k, key, item);
      assert Map(s, item)[..n] == Map(s[..n], item);
    }
  }

  lemma PlaceKeys<K, H, V>(bs: seq<Bucket<K, H, V>>, k: K, h: H, v: Option<V>)
    ensures Keys(Place(bs, k, h, v)) == if k in Keys(bs) then Keys(bs) else Keys(bs) + [k]
  {
    var r := Place(bs, k, h, v);
    if k in Keys(bs) {
      assert Keys(r) == Keys(bs);
    } else {
      assert Keys(r) == Keys(bs) + [k];
    }
  }

  lemma PlaceHeads<K, H, V>(bs: seq<Bucket<K, H, V>>, k: K, h: H, v: Option<V>)
    ensures var r := Place(bs, k, h, v);
      && |r| == (if k in Keys(bs) then |bs| else |bs| + 1)
      && (forall j | 0 <= j < |bs| :: r[j].key == bs[j].key && r[j].head == bs[j].head)
      && (k !in Keys(bs) ==> r[|bs|].key == k && r[|bs|].head == h)
  {
  }

  /** The `key` column of a one-element extension. */
  lemma MapSnoc<T, K>(s: seq<T>, key: T -> K)
    requires s != []
    ensures Map(s, key) == Map(s[..|s| - 1], key) + [key(s[|s| - 1])]
  {
  }

  lemma {:induction false} GroupByKeys<T, K(!new), H, V>(s: seq<T>, key: T -> K, head: T -> H, item: T -> Option<V>)
    ensures Keys(GroupBy(s, key, head, item)) == Dedup(Map(s, key))
  {
    if s != [] {
      var n := |s| - 1;
      GroupByKeys(s[..n], key, head, item);
      MapSnoc(s, key);
      var ks := Map(s, key);
      assert ks[..n] == Map(s[..n], key);
      PlaceKeys(GroupBy(s[..n], key, head, item), key(s[n]), head(s[n]), item(s[n]));
    }
  }

  lemma {:induction false} GroupByItems<T, K(!new), H, V>(s: seq<T>, key: T -> K, head: T -> H, item: T -> Option<V>)
    ensures var bs := GroupBy(s, key, head, item);
      forall i | 0 <= i < |bs| :: bs[i].items == Collect(s, bs[i].key, key, item)
  {
    if s != [] {
      var n := |s| - 1;
      var prev := GroupBy(s[..n], key, head, item);
      GroupByItems(s[..n], key, head, item);
      GroupByKeys(s[..n], key, head, item);
      MapSnoc(s, key);
      var k := key(s[n]);
      var bs := GroupBy(s, key, head, item);
      match Find(prev, k)
      case Some(i) =>
        forall j | 0 <= j < |bs|
          ensures bs[j].items == Collect(s, bs[j].key, key, item)
        {
          if j != i {
            assert Keys(prev)[j] != Keys(prev)[i];
          }
        }
      case None =>
        assert k !in Map(s[..n], key);
        CollectAbsent(s[..n], k, key, item);
        forall j | 0 <= j < |bs|
          ensures bs[j].items == Collect(s, bs[j].key, key, item)
        {
          if j < |prev| {
            assert bs[j] == prev[j];
            assert Keys(prev)[j] != k;
          }
        }
    }
  }

  lemma {:induction false} GroupByHeads<T, K(!new), H, V>(s: seq<T>, key: T -> K, head: T -> H, item: T -> Option<V>)
    ensures var bs := GroupBy(s, key, head, item);
      forall i | 0 <= i < |bs| :: bs[i].key in Map(s, key) && bs[i].head == head(s[IndexOf(Map(s, key), bs[i].key)])
  {
    if s != [] {
      var n := |s| - 1;
      var prev := GroupBy(s[..n], key, head, item);
      GroupByHeads(s[..n], key, head, item);
      GroupByKeys(s[..n], key, head, item);
      MapSnoc(s, key);
      var ks := Map(s, key);
      assert ks[..n] == Map(s[..n], key);
      var k := key(s[n]);
      var bs := GroupBy(s, key, head, item);
      PlaceHeads(prev, k, head(s[n]), item(s[n]));
      forall j | 0 <= j < |bs|
        ensures bs[j].key in ks && bs[j].head == head(s[IndexOf(ks, bs[j].key)])
      {
        if j < |prev| {
          assert prev[j].key in ks[..n];
          IndexOfPrefix(ks, n, prev[j].key);
        } else {
          assert k !in ks[..n];
          assert IndexOf(ks, k) == n;
        }
      }
    }
  }

  /** The grouping keeps one entry per distinct key in first-appearance order;
      each entry's head comes from the first element with its key and its items
      are exactly the present items of the elements with its key, in order. */
  lemma GroupBySpec<T, K(!new), H, V>(s: seq<T>, key: T -> K, head: T -> H, item: T -> Option<V>)
    ensures var bs := GroupBy(s, key, head, item);
      && Keys(bs) == Dedup(Map(s, key))
      && (forall i | 0 <= i < |bs| :: bs[i].items == Collect(s, bs[i].key, key, item))
      && (forall i | 0 <= i < |bs| :: bs[i].key in Map(s, key) && bs[i].head == head(s[IndexOf(Map(s, key), bs[i].key)]))
  {
    GroupByKeys(s, key, head, item);
    GroupByItems(s, key, head, item);
    GroupByHeads(s, key, head, item);
  }
}
