/**
 The hashtable of libjansson/jansson-2.7/src/hashtable.c: one circular intrusive list holds every
 pair, each bucket is a contiguous stretch of it, and growing relinks the pairs in place.
 */
module Hashtable {
  import opened Arithmetic
  import opened HashtableSegments
  import opened HashtableChain

  class Table {
    const hashFn: Key -> nat
    const head: Link
    var size: nat
    var order: nat
    var buckets: array<Bucket>
    var released: seq<Value>      // the references given up by json_decref, in order

    ghost var nodes: seq<Link>
    ghost var segs: seq<Seg>
    ghost var contents: map<Key, Entry>

    /** The list, its segments and the buckets fit together; the size field may be out of date. */
    ghost predicate Threaded()
      reads this`order, this`buckets, this`nodes, this`segs, buckets
      reads head`next, head`prev, Links(nodes)`next, Links(nodes)`prev
    {
      && Linked(head, nodes)
      && buckets.Length == Pow2(order)
      && Fitted(head, nodes, segs, buckets[..])
    }

    ghost predicate Valid()
      reads this, head, nodes, buckets
    {
      && Threaded()
      && Holds(Links(nodes), contents)
      && Hashed(Links(nodes), hashFn)
      && size == |nodes| <= Pow2(order)
    }

    /** `hashtable_init`. */
    constructor (hashFn: Key -> nat)
      ensures Valid() && contents == map[] && released == []
      ensures fresh(head) && fresh(buckets) && this.hashFn == hashFn
    {
      var h := new Link(0, "", 0, 0);
      this.hashFn := hashFn;
      head := h;
      size, order := 0, 3;
      buckets := new Bucket[Pow2(3)](_ => Bucket(h, h));
      released := [];
      nodes, contents := [], map[];
      segs := NoSegs(Pow2(3));
    }

    /** `insert_to_bucket`. */
    method InsertToBucket(index: nat, node: Link)
      requires Threaded() && index < buckets.Length && node.hash % buckets.Length == index
      requires node != head && node !in nodes
      modifies this`nodes, this`segs, buckets, head`next, head`prev, Links(nodes)`next, Links(nodes)`prev, node`next,
          node`prev
      ensures Threaded()
      ensures nodes == InsertAt(old(nodes), Place(old(segs), index, |old(nodes)|), node)
    {
      ghost var p := Place(segs, index, |nodes|);
      ghost var bs := buckets[..];
      InsertionFitted(head, nodes, segs, bs, index, node);
      var bucket := buckets[index];
      if bucket.first == head && bucket.first == bucket.last {
        ListInsert(head, nodes, p, head, node);
        buckets[index] := Bucket(node, node);
      } else {
        ListInsert(head, nodes, p, bucket.first, node);
        buckets[index] := bucket.(first := node);
      }
      assert buckets[..] == bs[index := buckets[index]];
      nodes := InsertAt(nodes, p, node);
      segs := GrowSegs(segs, index, p);
    }

    /** The first `k` of the old nodes, and only they, are in the list again. */
    ghost predicate Relinked(olds: seq<Link>, k: nat)
      reads this`nodes
    {
      k <= |olds| && Links(nodes) == Links(olds[..k]) && |nodes| == k
    }

    /** One turn of the rehash loop: take the first of the old nodes not yet relinked. */
    method RelinkNext(ghost olds: seq<Link>, ghost k: nat, list: Link) returns (next: Link)
      requires Threaded() && Distinct(head, olds) && k < |olds| && list == olds[k]
      requires Relinked(olds, k) && StillChained(head, olds, k)
      modifies this`nodes, this`segs, buckets, head`next, head`prev, Links(olds)`next, Links(olds)`prev
      ensures Threaded() && Relinked(olds, k + 1) && StillChained(head, olds, k + 1)
      ensures next == At(head, olds, k + 2)
    {
      assert At(head, olds, k + 1) == list;
      next := list.next;
      var index := list.hash % buckets.Length;
      ghost var before := nodes;
      assert forall i | k <= i < |olds| :: olds[i] !in olds[..k];
      assert list !in Links(nodes);
      assert forall i | k < i < |olds| :: olds[i] !in Links(before) && olds[i] != list;
      InsertToBucket(index, list);
      InsertedLinks(before, Place(old(segs), index, |before|), list);
      assert olds[..k] + [list] == olds[..k + 1];
      assert StillChained(head, olds, k + 1) by {
        forall i | k + 1 < i <= |olds|
          ensures At(head, olds, i).next == At(head, olds, i + 1)
        {
          assert At(head, olds, i) == olds[i - 1];
        }
      }
    }

    /** The start of a rehash: new empty buckets, and a list head that is its own list. */
    method StartRehash() returns (list: Link)
      requires Valid()
      modifies this`order, this`buckets, this`nodes, this`segs, head`next, head`prev
      ensures Threaded() && order == old(order) + 1 && fresh(buckets) && nodes == []
      ensures list == At(head, old(nodes), 1) && StillChained(head, old(nodes), 0)
    {
      order := order + 1;
      var h := head;
      buckets := new Bucket[Pow2(order)](_ => Bucket(h, h));
      list := head.next;
      assert At(head, nodes, 0) == head;
      head.next, head.prev := head, head;
      nodes, segs := [], NoSegs(Pow2(order));
      EmptyFitted(head, buckets[..]);
    }

    /** `hashtable_do_rehash`: twice as many buckets, all pairs relinked into them in place. */
    method Rehash()
      requires Valid()
      modifies this`order, this`buckets, this`nodes, this`segs, head`next, head`prev, Links(nodes)`next,
          Links(nodes)`prev
      ensures Threaded() && order == old(order) + 1 && fresh(buckets)
      ensures Links(nodes) == old(Links(nodes)) && |nodes| == |old(nodes)|
    {
      ghost var olds := nodes;
      var list := StartRehash();
      ghost var k := 0;
      while list != head
        invariant k <= |olds| && Distinct(head, olds)
        invariant fresh(buckets) && order == old(order) + 1
        invariant list == At(head, olds, k + 1)
        invariant Threaded() && Relinked(olds, k) && StillChained(head, olds, k)
        decreases |olds| - k
      {
        list := RelinkNext(olds, k, list);
        k := k + 1;
      }
      assert olds[..k] == olds;
    }

    /** `hashtable_find_pair`: walk the bucket's stretch of the list. */
    method FindPair(bucket: Bucket, key: Key, hash: nat, ghost c: nat) returns (pair: Link?, ghost k: nat)
      requires Threaded() && c < buckets.Length && bucket == buckets[c]
      ensures pair != null ==> k < |nodes| && nodes[k] == pair && pair.key == key && pair.hash == hash
      ensures pair == null ==>
                forall i | 0 <= i < |nodes| :: nodes[i].hash % buckets.Length == c
                    ==> nodes[i].hash != hash || nodes[i].key != key
    {
      pair, k := null, 0;
      ghost var cls := Classes(nodes, buckets.Length);
      assert bucket == buckets[..][c];
      assert forall i | 0 <= i < |nodes| :: nodes[i].hash % buckets.Length == c <==> segs[c].lo <= i < segs[c].hi by {
        assert forall i | 0 <= i < |nodes| :: cls[i] == nodes[i].hash % buckets.Length;
      }
      if bucket.first == head && bucket.first == bucket.last {
        return;
      }
      var list := bucket.first;
      k := segs[c].lo;
      while true
        invariant segs[c].lo <= k < segs[c].hi && list == nodes[k]
        invariant forall i | segs[c].lo <= i < k :: nodes[i].hash != hash || nodes[i].key != key
        decreases segs[c].hi - k
      {
        if list.hash == hash && list.key == key {
          return list, k;
        }
        if list == bucket.last {
          break;
        }
        assert At(head, nodes, k + 1).next == At(head, nodes, k + 2);
        list := list.next;
        k := k + 1;
      }
    }

    /** Lookup of a key through its bucket, as every operation starts. */
    method Locate(key: Key) returns (index: nat, pair: Link?, ghost k: nat)
      requires Valid()
      ensures index == hashFn(key) % buckets.Length < buckets.Length
      ensures pair != null ==> k < |nodes| && nodes[k] == pair && pair.key == key
      ensures pair != null <==> key in contents
    {
      var hash := hashFn(key);
      index := BitAnd(hash, Pow2(order) - 1);
      MaskIsRemainder(hash, order);
      pair, k := FindPair(buckets[index], key, hash, index);
    }

    /** `hashtable_get`. */
    method Get(key: Key) returns (found: bool, value: Value)
      requires Valid()
      ensures found <==> key in contents
      ensures found ==> value == contents[key].value
    {
      var index, pair, k := Locate(key);
      if pair == null {
        return false, 0;
      }
      return true, pair.value;
    }

    /** `hashtable_set`: grow if full, then replace the value in place or insert a new pair. */
    method Set(key: Key, serial: nat, value: Value)
      requires Valid()
      modifies this, buckets, head, Links(nodes)
      ensures Valid()
      ensures fresh(Links(nodes) - old(Links(nodes))) && (buckets == old(buckets) || fresh(buckets))
      ensures key in old(contents) ==> contents == old(contents)[key := old(contents)[key].(value := value)]
      ensures key !in old(contents) ==> contents == old(contents)[key := Entry(value, serial)]
      ensures released == if key in old(contents) then old(released) + [old(contents)[key].value] else old(released)
    {
      MakeRoom();
      var index, pair, k := Locate(key);
      assert pair != null ==> pair in Links(nodes);
      hide Valid, Links, Pow2;
      if pair != null {
        Replace(pair, k, value);
      } else {
        var node := new Link(hashFn(key), key, serial, value);
        InsertNew(node, index);
      }
    }

    /** Give a pair of the table another value; its serial stays. */
    method Replace(pair: Link, ghost k: nat, value: Value)
      requires Valid() && k < |nodes| && pair == nodes[k]
      modifies this`released, this`contents, pair`value
      ensures Valid() && pair.key in old(contents)
      ensures contents == old(contents)[pair.key := old(contents)[pair.key].(value := value)]
      ensures released == old(released) + [old(contents)[pair.key].value]
    {
      released := released + [pair.value];
      pair.value := value;
      contents := contents[pair.key := contents[pair.key].(value := value)];
    }

    /** Rehash if the load ratio would exceed 1; the contents stay. */
    method MakeRoom()
      requires Valid()
      modifies this`order, this`buckets, this`nodes, this`segs, head`next, head`prev, Links(nodes)`next,
          Links(nodes)`prev
      ensures Valid() && size < Pow2(order) && Links(nodes) == old(Links(nodes))
      ensures buckets == old(buckets) || fresh(buckets)
    {
      if size < Pow2(order) {
        return;
      }
      Rehash();
    }

    /** Where the new pair goes, and which links there are then. */
    lemma PlaceInside(index: nat, node: Link)
      requires Threaded() && index < buckets.Length
      ensures index < |segs| && Place(segs, index, |nodes|) <= |nodes|
      ensures Links(InsertAt(nodes, Place(segs, index, |nodes|), node)) == Links(nodes) + {node}
    {
      hide Linked;
      InsertedLinks(nodes, Place(segs, index, |nodes|), node);
    }

    /** A new pair in the list and in its bucket, not yet counted. */
    method Enlist(node: Link, index: nat)
      requires Threaded() && index < buckets.Length && node.hash % buckets.Length == index
      requires node != head && node !in nodes
      modifies this`nodes, this`segs, buckets, head`next, head`prev, Links(nodes)`next, Links(nodes)`prev, node`next,
          node`prev
      ensures Threaded() && Links(nodes) == old(Links(nodes)) + {node} && |nodes| == |old(nodes)| + 1
    {
      PlaceInside(index, node);
      hide Fitted, Linked, Pow2, Place, Links;
      InsertToBucket(index, node);
    }

    method InsertNew(node: Link, index: nat)
      requires Valid() && node.key !in contents && size < Pow2(order) && index == node.hash % buckets.Length
      requires node != head && node !in nodes && node.hash == hashFn(node.key)
      modifies this`size, this`nodes, this`segs, this`contents, buckets
      modifies head`next, head`prev, Links(nodes)`next, Links(nodes)`prev, node`next, node`prev
      ensures Valid() && contents == old(contents)[node.key := Entry(node.value, node.serial)]
      ensures Links(nodes) == old(Links(nodes)) + {node}
    {
      InsertedHolds(Links(nodes), node, contents);
      InsertedHashed(Links(nodes), node, hashFn);
      hide Threaded, Holds, Hashed, Pow2;
      Enlist(node, index);
      size := size + 1;
      contents := contents[node.key := Entry(node.value, node.serial)];
    }

    /** Take a pair out of its bucket and out of the list. */
    method Unlink(pair: Link, index: nat, ghost k: nat)
      requires Threaded() && k < |nodes| && pair == nodes[k] && index == pair.hash % buckets.Length
      modifies this`nodes, this`segs, buckets, head`next, head`prev, Links(nodes)`next, Links(nodes)`prev
      ensures Threaded() && nodes == RemoveAt(old(nodes), k)
    {
      RemovalFitted(head, nodes, segs, buckets[..], k);
      ghost var bs := buckets[..];
      assert At(head, nodes, k + 1) == pair;
      assert pair.prev == At(head, nodes, k) && pair.next == At(head, nodes, k + 2);
      var bucket := buckets[index];
      if pair == bucket.first && pair == bucket.last {
        buckets[index] := Bucket(head, head);
      } else if pair == bucket.first {
        buckets[index] := bucket.(first := pair.next);
      } else if pair == bucket.last {
        buckets[index] := bucket.(last := pair.prev);
      }
      assert buckets[..] == bs[index := buckets[index]];
      ListRemove(head, nodes, k, pair);
      segs := ShrinkSegs(segs, index, k);
      nodes := RemoveAt(nodes, k);
    }

    /** `hashtable_del`. */
    method Del(key: Key) returns (found: bool)
      requires Valid()
      modifies this, buckets, head, Links(nodes)
      ensures Valid() && buckets == old(buckets) && Links(nodes) <= old(Links(nodes))
      ensures found <==> key in old(contents)
      ensures contents == old(contents) - {key}
      ensures released == if found then old(released) + [old(contents)[key].value] else old(released)
    {
      var index, pair, k := Locate(key);
      if pair == null {
        assert contents == contents - {key};
        return false;
      }
      RemovePair(pair, index, k);
      return true;
    }

    method RemovePair(pair: Link, index: nat, ghost k: nat)
      requires Valid() && k < |nodes| && pair == nodes[k] && index == pair.hash % buckets.Length
      modifies this`size, this`released, this`nodes, this`segs, this`contents, buckets
      modifies head`next, head`prev, Links(nodes)`next, Links(nodes)`prev
      ensures Valid() && Links(nodes) == old(Links(nodes)) - {pair}
      ensures pair.key in old(contents) && contents == old(contents) - {pair.key}
      ensures released == old(released) + [old(contents)[pair.key].value]
    {
      RemovedLinks(head, nodes, k);
      RemovedHolds(Links(nodes), pair, contents);
      released := released + [pair.value];
      size := size - 1;
      contents := contents - {pair.key};
      Unlink(pair, index, k);
    }

    /** `hashtable_do_clear`: give up every value, in list order. */
    method DoClear()
      requires Valid()
      modifies this`released
      ensures released == old(released) + Values(nodes)
      ensures |released| == |old(released)| + |nodes|
      ensures forall i | 0 <= i < |nodes| :: released[|old(released)| + i] == nodes[i].value
    {
      hide Fitted, Holds, Hashed, Pow2;
      var list := head.next;
      ghost var k := 0;
      assert At(head, nodes, 0) == head;
      while list != head
        invariant k <= |nodes| && list == At(head, nodes, k + 1)
        invariant released == old(released) + Values(nodes[..k])
        decreases |nodes| - k
      {
        assert At(head, nodes, k + 1).next == At(head, nodes, k + 2);
        assert nodes[..k + 1][..k] == nodes[..k];
        var next := list.next;
        released := released + [list.value];
        list := next;
        k := k + 1;
      }
      assert nodes[..k] == nodes;
      ValuesAre(nodes);
    }

    method EmptyBuckets()
      modifies buckets
      ensures forall c | 0 <= c < buckets.Length :: buckets[c] == Bucket(head, head)
    {
      for i := 0 to buckets.Length
        invariant forall c | 0 <= c < i :: buckets[c] == Bucket(head, head)
      {
        buckets[i] := Bucket(head, head);
      }
    }

    /** `hashtable_clear`. */
    method Clear()
      requires Valid()
      modifies this`size, this`released, this`nodes, this`segs, this`contents, buckets, head`next, head`prev
      ensures Valid() && contents == map[] && nodes == []
      ensures released == old(released) + old(Values(nodes))
      ensures |released| == |old(released)| + old(size)
      ensures forall i | 0 <= i < |old(nodes)| :: released[|old(released)| + i] == old(nodes[i].value)
    {
      hide Fitted, Pow2, Values;
      DoClear();
      EmptyBuckets();
      EmptyFitted(head, buckets[..]);
      nodes, segs, contents := [], NoSegs(buckets.Length), map[];
      head.next, head.prev := head, head;
      size := 0;
    }

    // ---- Iteration ----

    /** `hashtable_iter_next`; the list head as argument gives the first pair (`hashtable_iter`). */
    method IterNext(iter: Link, ghost i: nat) returns (next: Link?)
      requires Valid() && i <= |nodes| && iter == At(head, nodes, i)
      ensures next == if i == |nodes| then null else nodes[i]
    {
      assert At(head, nodes, i).next == At(head, nodes, i + 1);
      if iter.next == head {
        return null;
      }
      return iter.next;
    }

    /** Iterating from the start to the end visits every key once: the collecting loop of
        `do_dump` (dump.c:323-330). */
    method CollectKeys() returns (keys: seq<Key>)
      requires Valid()
      ensures |keys| == size == |contents|
      ensures forall k :: k in keys <==> k in contents
      ensures forall i, j | 0 <= i < j < |keys| :: keys[i] != keys[j]
    {
      keys := [];
      var iter := IterNext(head, 0);
      while iter != null
        invariant |keys| <= |nodes| && iter == if |keys| == |nodes| then null else nodes[|keys|]
        invariant forall i | 0 <= i < |keys| :: keys[i] == nodes[i].key
        decreases |nodes| - |keys|
      {
        keys := keys + [iter.key];
        iter := IterNext(iter, |keys|);
      }
      DistinctSize(head, nodes);
      HoldsSize(Links(nodes), contents);
      forall i, j | 0 <= i < j < |keys|
        ensures keys[i] != keys[j]
      {
        assert nodes[i] in Links(nodes) && nodes[j] in Links(nodes) && nodes[i] != nodes[j];
      }
      forall k | k in contents
        ensures k in keys
      {
        var x :| x in Links(nodes) && x.key == k;
        var i :| 0 <= i < |nodes| && nodes[i] == x;
        assert keys[i] == k;
      }
    }

    /** What the buckets give: the pairs of one hash class stand next to each other. */
    lemma ClassesAreContiguous(i: nat, j: nat, k: nat)
      requires Valid() && i <= j <= k < |nodes|
      requires nodes[i].hash % buckets.Length == nodes[k].hash % buckets.Length
      ensures nodes[j].hash % buckets.Length == nodes[i].hash % buckets.Length
      ensures size == |contents| <= buckets.Length
    {
      var cls := Classes(nodes, buckets.Length);
      var c := cls[i];
      assert cls[k] == c;
      assert segs[c].lo <= i && k < segs[c].hi;
      assert segs[c].lo <= j < segs[c].hi <==> cls[j] == c;
      DistinctSize(head, nodes);
      HoldsSize(Links(nodes), contents);
    }
  }
}
