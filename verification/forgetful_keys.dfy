/**
  The key order of the bounded, insertion-ordered map that backs
  FixedsizeForgetfulHashSet. The map itself is not part of this model; what
  the set relies on is its observable contract over the sequence of keys,
  oldest first. The order is the FIFO replacement policy of the set's class
  documentation; the map's own put is not visible here, so that a put of a
  present key does not refresh its place is an assumption of this module:
  - putting a key that is present changes neither membership nor order;
  - putting a new key appends it, after dropping the oldest key when the map
    already holds `cap` keys;
  - removing a key drops it and keeps the other keys in order.
 */
module ForgetfulKeys {

  /** No key occurs twice. */
  ghost predicate Distinct<K>(keys: seq<K>) {
    forall i, j :: 0 <= i < j < |keys| ==> keys[i] != keys[j]
  }

  /** The keys after `put(k, _)` on a map bounded to `cap` entries (FIFO eviction). */
  function Put<K(==)>(keys: seq<K>, cap: nat, k: K): (r: seq<K>)
    requires 0 < cap
  {
    if k in keys then keys
    else if |keys| < cap then keys + [k]
    else keys[1..] + [k]
  }

  /** The keys after `remove(k)`: every occurrence of `k` is dropped, the rest keep their order. */
  function Without<K(==)>(keys: seq<K>, k: K): (r: seq<K>)
  {
    if keys == [] then []
    else if keys[0] == k then Without(keys[1..], k)
    else [keys[0]] + Without(keys[1..], k)
  }

  /** The keys after putting each of `ks` in turn, first to last. */
  function AddAll<K(==)>(keys: seq<K>, cap: nat, ks: seq<K>): (r: seq<K>)
    requires 0 < cap
  {
    if ks == [] then keys
    else Put(AddAll(keys, cap, ks[..|ks| - 1]), cap, ks[|ks| - 1])
  }

  /**
    After a put the key is present, no key appears that was neither there nor
    put, and a map within its bound with distinct keys stays so.
   */
  lemma PutKeepsInvariant<K>(keys: seq<K>, cap: nat, k: K)
    requires 0 < cap
    ensures k in Put(keys, cap, k)
    ensures forall y :: y in Put(keys, cap, k) ==> y == k || y in keys
    ensures |keys| <= cap ==> |Put(keys, cap, k)| <= cap
    ensures Distinct(keys) ==> Distinct(Put(keys, cap, k))
  {
    if k !in keys && Distinct(keys) {
      var rest := if |keys| < cap then keys else keys[1..];
      assert Distinct(rest);
      assert forall j :: 0 <= j < |rest| ==> rest[j] in keys;
    }
  }

  /**
    After removing `k`, `k` is absent, every other key is still there and no
    new key appears; removing an absent key changes nothing.
   */
  lemma {:induction false} WithoutMembers<K>(keys: seq<K>, k: K)
    ensures k !in Without(keys, k)
    ensures forall y :: y in Without(keys, k) ==> y in keys && y != k
    ensures forall y :: y in keys && y != k ==> y in Without(keys, k)
    ensures k !in keys ==> Without(keys, k) == keys
  {
    if keys != [] {
      WithoutMembers(keys[1..], k);
      assert keys == [keys[0]] + keys[1..];
    }
  }

  /** Removing a key keeps the keys distinct. */
  lemma {:induction false} WithoutDistinct<K>(keys: seq<K>, k: K)
    requires Distinct(keys)
    ensures Distinct(Without(keys, k))
  {
    if keys != [] {
      var tail := keys[1..];
      assert Distinct(tail);
      WithoutDistinct(tail, k);
      if keys[0] != k {
        WithoutMembers(tail, k);
        assert keys[0] !in tail;
        assert keys[0] !in Without(tail, k);
      }
    }
  }

  /** Removing a present key from distinct keys cuts exactly that position out. */
  lemma {:induction false} WithoutSplice<K>(keys: seq<K>, i: nat)
    requires Distinct(keys) && i < |keys|
    ensures Without(keys, keys[i]) == keys[..i] + keys[i + 1..]
    ensures |Without(keys, keys[i])| == |keys| - 1
  {
    var tail := keys[1..];
    if i == 0 {
      assert keys[0] !in tail;
      WithoutMembers(tail, keys[0]);
    } else {
      assert Distinct(tail);
      WithoutSplice(tail, i - 1);
      assert tail[i - 1] == keys[i];
      assert keys[..i] == [keys[0]] + tail[..i - 1];
      assert keys[i + 1..] == tail[i..];
    }
  }

  /** Removing the oldest of distinct keys leaves the others in order. */
  lemma WithoutOldest<K>(keys: seq<K>)
    requires Distinct(keys) && keys != []
    ensures Without(keys, keys[0]) == keys[1..]
  {
    WithoutSplice(keys, 0);
  }

  /** A new key put into a full map evicts exactly the oldest key, keeps the others in order and keeps the map full. */
  lemma PutEvictsOldest<K>(keys: seq<K>, cap: nat, k: K)
    requires 0 < cap && |keys| == cap && Distinct(keys) && k !in keys
    ensures Put(keys, cap, k) == keys[1..] + [k]
    ensures keys[0] !in Put(keys, cap, k)
    ensures forall i :: 0 < i < |keys| ==> keys[i] in Put(keys, cap, k)
    ensures |Put(keys, cap, k)| == cap
  {
    assert keys[0] !in keys[1..];
    forall i | 0 < i < |keys| ensures keys[i] in Put(keys, cap, k) {
      assert keys[i] == keys[1..][i - 1];
    }
  }

  /**
    "Full" predicts eviction: with distinct keys within the bound, putting a new
    key drops some present key exactly when the map holds `cap` keys.
   */
  lemma FullIffPutEvicts<K>(keys: seq<K>, cap: nat, k: K)
    requires 0 < cap && |keys| <= cap && Distinct(keys) && k !in keys
    ensures |keys| == cap <==> exists y :: y in keys && y !in Put(keys, cap, k)
  {
    if |keys| == cap {
      PutEvictsOldest(keys, cap, k);
      assert keys[0] in keys;
    }
  }

  /** Over any series of puts the bound and distinctness are kept, and the last key put is present. */
  lemma {:induction false} AddAllKeepsInvariant<K>(keys: seq<K>, cap: nat, ks: seq<K>)
    requires 0 < cap
    ensures |keys| <= cap ==> |AddAll(keys, cap, ks)| <= cap
    ensures Distinct(keys) ==> Distinct(AddAll(keys, cap, ks))
    ensures ks != [] ==> ks[|ks| - 1] in AddAll(keys, cap, ks)
  {
    if ks != [] {
      var init := ks[..|ks| - 1];
      AddAllKeepsInvariant(keys, cap, init);
      PutKeepsInvariant(AddAll(keys, cap, init), cap, ks[|ks| - 1]);
    }
  }

  /**
    Putting distinct keys into an empty map bounded to `cap` leaves the newest
    min(cap, |ks|) of them, oldest first.
   */
  lemma {:induction false} AddAllKeepsNewest<K>(cap: nat, ks: seq<K>)
    requires 0 < cap && Distinct(ks)
    ensures |ks| <= cap ==> AddAll([], cap, ks) == ks
    ensures |ks| > cap ==> AddAll([], cap, ks) == ks[|ks| - cap..]
  {
    if ks != [] {
      var n := |ks|;
      var init := ks[..n - 1];
      DistinctPrefix(ks);
      AddAllKeepsNewest(cap, init);
      if n - 1 < cap {
        PutNewBelowBound(ks, cap);
      } else if n - 1 == cap {
        PutAfterSuffix(ks, cap);
      } else {
        assert init[n - 1 - cap..] == ks[n - 1 - cap..n - 1];
        PutAfterSuffix(ks, cap);
      }
    }
  }

  /** Dropping the last of distinct keys leaves distinct keys. */
  lemma DistinctPrefix<K>(ks: seq<K>)
    requires Distinct(ks) && ks != []
    ensures Distinct(ks[..|ks| - 1])
  {
  }

  /** Step of AddAllKeepsNewest below the bound: the put appends the last key. */
  lemma PutNewBelowBound<K>(ks: seq<K>, cap: nat)
    requires 0 < |ks| <= cap && Distinct(ks)
    ensures Put(ks[..|ks| - 1], cap, ks[|ks| - 1]) == ks
  {
    var n := |ks|;
    var init := ks[..n - 1];
    assert ks[n - 1] !in init by {
      forall j | 0 <= j < n - 1 ensures init[j] != ks[n - 1] {
        assert init[j] == ks[j];
      }
    }
    assert init + [ks[n - 1]] == ks;
  }

  /** Step of AddAllKeepsNewest once the bound is reached: one more put slides the window by one. */
  lemma PutAfterSuffix<K>(ks: seq<K>, cap: nat)
    requires 0 < cap < |ks| && Distinct(ks)
    ensures Put(ks[|ks| - 1 - cap..|ks| - 1], cap, ks[|ks| - 1]) == ks[|ks| - cap..]
  {
    var n := |ks|;
    var prev := ks[n - 1 - cap..n - 1];
    var k := ks[n - 1];
    assert k !in prev by {
      forall j | 0 <= j < |prev| ensures prev[j] != k {
        assert prev[j] == ks[n - 1 - cap + j];
      }
    }
    assert prev[1..] + [k] == ks[n - cap..];
  }

  /** With no evictions, iteration order is insertion order. */
  lemma {:induction false} InsertionOrder<K>(cap: nat, ks: seq<K>)
    requires 0 < cap && Distinct(ks) && |ks| <= cap
    ensures AddAll([], cap, ks) == ks
  {
    AddAllKeepsNewest(cap, ks);
  }

  /** Putting cap + 1 distinct keys forgets the first one and only that one. */
  lemma FifoEviction<K>(cap: nat, ks: seq<K>)
    requires 0 < cap && Distinct(ks) && |ks| == cap + 1
    ensures AddAll([], cap, ks) == ks[1..]
    ensures ks[0] !in AddAll([], cap, ks)
  {
    AddAllKeepsNewest(cap, ks);
    assert ks[0] !in ks[1..];
  }

  /**
    Each key of `ks` once, where it first occurs, in that order: the first key,
    then the first occurrences among the rest once it is removed from them.
   */
  function FirstOccurrences<K(==)>(ks: seq<K>): (r: seq<K>)
    decreases |ks|
  {
    if ks == [] then []
    else
      WithoutNoLonger(ks[1..], ks[0]);
      [ks[0]] + FirstOccurrences(Without(ks[1..], ks[0]))
  }

  /** Removing a key never lengthens the keys. */
  lemma {:induction false} WithoutNoLonger<K>(keys: seq<K>, k: K)
    ensures |Without(keys, k)| <= |keys|
  {
    if keys != [] {
      WithoutNoLonger(keys[1..], k);
    }
  }

  /** Removing a key from keys with one more key at the end. */
  lemma {:induction false} WithoutSnoc<K>(keys: seq<K>, x: K, k: K)
    ensures Without(keys + [x], k) == Without(keys, k) + (if x == k then [] else [x])
  {
    if keys == [] {
      assert keys + [x] == [x];
    } else {
      WithoutSnoc(keys[1..], x, k);
      assert (keys + [x])[1..] == keys[1..] + [x];
    }
  }

  /** A key put after the others joins the first occurrences exactly when it is new. */
  lemma {:induction false} FirstOccurrencesSnoc<K>(ks: seq<K>, x: K)
    ensures FirstOccurrences(ks + [x]) ==
              if x in ks then FirstOccurrences(ks) else FirstOccurrences(ks) + [x]
    decreases |ks|
  {
    if ks == [] {
      assert [x][1..] == [];
    } else {
      var h, t := ks[0], ks[1..];
      var w := Without(t, h);
      assert (ks + [x])[1..] == t + [x];
      WithoutSnoc(t, x, h);
      WithoutNoLonger(t, h);
      assert FirstOccurrences(ks) == [h] + FirstOccurrences(w);
      if x == h {
        assert Without(t + [x], h) == w + [] == w;
        assert (ks + [x])[0] == h;
      } else {
        FirstOccurrencesSnoc(w, x);
        WithoutMembers(t, h);
        assert x in w <==> x in ks;
        assert FirstOccurrences(ks + [x]) == [h] + FirstOccurrences(w + [x]);
      }
    }
  }

  /** The first occurrences hold exactly the keys of `ks`, each once. */
  lemma {:induction false} FirstOccurrencesSpec<K>(ks: seq<K>)
    ensures forall y :: y in FirstOccurrences(ks) <==> y in ks
    ensures Distinct(FirstOccurrences(ks))
  {
    if ks != [] {
      var init, x := ks[..|ks| - 1], ks[|ks| - 1];
      assert ks == init + [x];
      FirstOccurrencesSpec(init);
      FirstOccurrencesSnoc(init, x);
    }
  }

  /**
    While the distinct keys of a series fit in the bound, putting the series
    into an empty map leaves the first occurrence of each key, in the order of
    first insertion: a repeated put is ignored.
   */
  lemma {:induction false} AddAllBelowBound<K>(cap: nat, ks: seq<K>)
    requires 0 < cap && |FirstOccurrences(ks)| <= cap
    ensures AddAll([], cap, ks) == FirstOccurrences(ks)
  {
    if ks != [] {
      var init, x := ks[..|ks| - 1], ks[|ks| - 1];
      assert ks == init + [x];
      FirstOccurrencesSnoc(init, x);
      FirstOccurrencesSpec(init);
      AddAllBelowBound(cap, init);
    }
  }
}
