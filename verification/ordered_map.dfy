/** An insertion-ordered map with unique keys, as a sequence of pairs.
    This is the behaviour of a JavaScript `Map` (the download selection and
    the progress table) and of `URLSearchParams.set` on a fresh URL:
    - `Put` updates a present key where it stands and appends a new one;
    - `Remove` drops one key and keeps everything else in order.
 */
module OrderedMap {
  import opened Wrappers

  /** Keys are strings throughout the code (project ids, parameter names). */
  type Pairs<V> = seq<(string, V)>

  /** The keys, in insertion order. */
  function Keys<V>(m: Pairs<V>): (r: seq<string>)
    ensures |r| == |m|
    ensures forall i {:trigger r[i]} :: 0 <= i < |m| ==> r[i] == m[i].0
  {
    if |m| == 0 then [] else [m[0].0] + Keys(m[1..])
  }

  /** No key occurs twice: no key reappears after its first pair. */
  predicate UniqueKeys<V>(m: Pairs<V>)
  {
    |m| == 0 || (m[0].0 !in Keys(m[1..]) && UniqueKeys(m[1..]))
  }

  /** The recursive definition says the same as "no two positions share a key". */
  lemma {:induction false} UniqueKeysPairwise<V>(m: Pairs<V>)
    ensures UniqueKeys(m) <==> forall i, j :: 0 <= i < j < |m| ==> m[i].0 != m[j].0
  {
    if |m| > 0 {
      UniqueKeysPairwise(m[1..]);
      if UniqueKeys(m) {
        forall i, j | 0 <= i < j < |m| ensures m[i].0 != m[j].0 {
          if i > 0 {
            assert m[i].0 == m[1..][i - 1].0 && m[j].0 == m[1..][j - 1].0;
          } else {
            assert m[j].0 == Keys(m[1..])[j - 1];
          }
        }
      }
      if forall i, j :: 0 <= i < j < |m| ==> m[i].0 != m[j].0 {
        forall i, j | 0 <= i < j < |m[1..]| ensures m[1..][i].0 != m[1..][j].0 {
          assert m[1..][i] == m[i + 1] && m[1..][j] == m[j + 1];
        }
        forall j | 0 <= j < |m[1..]| ensures Keys(m[1..])[j] != m[0].0 {
          assert m[1..][j] == m[j + 1];
        }
      }
    }
  }

  /** `m.get(k)`: the value of the first pair with key `k`. */
  function Lookup<V>(m: Pairs<V>, k: string): (r: Option<V>)
    ensures r.None? <==> k !in Keys(m)
    ensures r.Some? ==> (k, r.value) in m
  {
    if |m| == 0 then None
    else if m[0].0 == k then Some(m[0].1)
    else Lookup(m[1..], k)
  }

  /** The keys of a non-empty map: its first key, then the keys of the rest. */
  lemma KeysCons<V>(m: Pairs<V>)
    requires |m| > 0
    ensures Keys(m) == [m[0].0] + Keys(m[1..])
    ensures forall x :: x in Keys(m) <==> x == m[0].0 || x in Keys(m[1..])
  {
    assert Keys(m) == [m[0].0] + Keys(m[1..]);
  }

  /** `m.set(k, v)`: a present key keeps its position and takes the new value;
      an absent key is appended at the end. */
  function Put<V>(m: Pairs<V>, k: string, v: V): (r: Pairs<V>)
    ensures Lookup(r, k) == Some(v)
    ensures forall k' :: k' != k ==> Lookup(r, k') == Lookup(m, k')
  {
    if |m| == 0 then [(k, v)]
    else if m[0].0 == k then [(k, v)] + m[1..]
    else
      [m[0]] + Put(m[1..], k, v)
  }

  /** Setting a present key leaves the keys as they were. */
  lemma {:induction false} PutPresent<V>(m: Pairs<V>, k: string, v: V)
    requires k in Keys(m)
    ensures Keys(Put(m, k, v)) == Keys(m)
  {
    var r := Put(m, k, v);
    if m[0].0 == k {
      assert forall i :: 0 <= i < |m| ==> Keys(r)[i] == Keys(m)[i];
    } else {
      assert k in Keys(m[1..]) by {
        var j :| 0 <= j < |m| && Keys(m)[j] == k;
        assert Keys(m[1..])[j - 1] == k;
      }
      PutPresent(m[1..], k, v);
      var rest := Put(m[1..], k, v);
      assert forall i :: 1 <= i < |m| ==> Keys(r)[i] == Keys(rest)[i - 1] == Keys(m[1..])[i - 1];
      assert forall i :: 0 <= i < |m| ==> Keys(r)[i] == Keys(m)[i];
    }
  }

  /** Setting an absent key appends it. */
  lemma {:induction false} PutAbsent<V>(m: Pairs<V>, k: string, v: V)
    requires k !in Keys(m)
    ensures Put(m, k, v) == m + [(k, v)]
  {
    if |m| > 0 {
      KeysCons(m);
      PutAbsent(m[1..], k, v);
      ConsSnoc(m, (k, v));
    }
  }

  /** After `Put` the keys are the old ones and `k`. */
  lemma PutKeysWithin<V>(m: Pairs<V>, k: string, v: V)
    ensures forall x :: x in Keys(Put(m, k, v)) ==> x in Keys(m) || x == k
  {
    if k in Keys(m) {
      PutPresent(m, k, v);
    } else {
      PutAbsent(m, k, v);
      assert Keys(m + [(k, v)]) == Keys(m) + [k];
    }
  }

  /** `Put` keeps the keys unique. */
  lemma {:induction false} PutUnique<V>(m: Pairs<V>, k: string, v: V)
    ensures UniqueKeys(m) ==> UniqueKeys(Put(m, k, v))
  {
    if |m| > 0 && UniqueKeys(m) {
      var r := Put(m, k, v);
      if m[0].0 == k {
        assert r[1..] == m[1..];
      } else {
        PutUnique(m[1..], k, v);
        PutKeysWithin(m[1..], k, v);
        assert r[1..] == Put(m[1..], k, v);
      }
    }
  }


  /** `m.delete(k)`: every pair with key `k` goes, the rest keep their order. */
  function Remove<V>(m: Pairs<V>, k: string): (r: Pairs<V>)
    ensures Lookup(r, k) == None
    ensures forall k' :: k' != k ==> Lookup(r, k') == Lookup(m, k')
  {
    if |m| == 0 then []
    else if m[0].0 == k then Remove(m[1..], k)
    else [m[0]] + Remove(m[1..], k)
  }

  /** `Remove` adds no key and only drops pairs. */
  lemma {:induction false} RemoveSubset<V>(m: Pairs<V>, k: string)
    ensures forall x :: x in Keys(Remove(m, k)) ==> x in Keys(m)
    ensures |Remove(m, k)| <= |m|
  {
    if |m| > 0 {
      RemoveSubset(m[1..], k);
      KeysCons(m);
      if m[0].0 != k {
        KeysCons([m[0]] + Remove(m[1..], k));
        assert ([m[0]] + Remove(m[1..], k))[1..] == Remove(m[1..], k);
      }
    }
  }

  /** Removing an absent key changes nothing. */
  lemma {:induction false} RemoveAbsent<V>(m: Pairs<V>, k: string)
    requires k !in Keys(m)
    ensures Remove(m, k) == m
  {
    if |m| > 0 {
      KeysCons(m);
      RemoveAbsent(m[1..], k);
    }
  }

  /** `Remove` keeps the keys unique. */
  lemma {:induction false} RemoveUnique<V>(m: Pairs<V>, k: string)
    ensures UniqueKeys(m) ==> UniqueKeys(Remove(m, k))
  {
    if |m| > 0 && UniqueKeys(m) {
      RemoveUnique(m[1..], k);
      RemoveSubset(m[1..], k);
      if m[0].0 != k {
        var rest := Remove(m[1..], k);
        var r := [m[0]] + rest;
        assert r[1..] == rest;
        assert m[0].0 !in Keys(rest);
      }
    }
  }

  /** In a map with unique keys, the first key does not come back later. */
  lemma HeadKeyDiffers<V>(m: Pairs<V>, i: nat)
    requires UniqueKeys(m)
    requires 0 < i < |m|
    ensures m[0].0 != m[i].0
    ensures UniqueKeys(m[1..]) && m[1..][i - 1] == m[i]
  {
    assert Keys(m[1..])[i - 1] == m[i].0;
  }

  lemma ConsSnoc<T>(m: seq<T>, x: T)
    requires |m| > 0
    ensures [m[0]] + (m[1..] + [x]) == m + [x]
  {
    assert m == [m[0]] + m[1..];
  }

  /** Cutting out, or replacing, position `i` of `m` is the same as doing it
      at position `i - 1` of the tail and putting the head back. */
  lemma SliceCons<T>(m: seq<T>, i: nat, mid: seq<T>)
    requires 0 < i < |m|
    ensures [m[0]] + (m[1..][..i - 1] + mid + m[1..][i..]) == m[..i] + mid + m[i + 1..]
  {
    assert [m[0]] + m[1..][..i - 1] == m[..i];
    assert m[1..][i..] == m[i + 1..];
  }

  /** The same for cutting position `i` out. */
  lemma SliceCut<T>(m: seq<T>, i: nat)
    requires 0 < i < |m|
    ensures [m[0]] + (m[1..][..i - 1] + m[1..][i..]) == m[..i] + m[i + 1..]
  {
    assert [m[0]] + m[1..][..i - 1] == m[..i];
    assert m[1..][i..] == m[i + 1..];
  }

  /** In a map with unique keys, removing the key found at position `i` cuts
      exactly that pair out and leaves every other pair where it was. */
  lemma {:induction false} RemoveAt<V>(m: Pairs<V>, i: nat)
    requires UniqueKeys(m)
    requires i < |m|
    ensures Remove(m, m[i].0) == m[..i] + m[i + 1..]
  {
    var k := m[i].0;
    if i == 0 {
      RemoveAbsent(m[1..], k);
      assert m[..0] + m[1..] == m[1..];
    } else {
      HeadKeyDiffers(m, i);
      RemoveAt(m[1..], i - 1);
      SliceCut(m, i);
    }
  }

  /** In a map with unique keys, setting the key found at position `i` replaces
      exactly that pair's value in place. */
  lemma {:induction false} PutAt<V>(m: Pairs<V>, i: nat, v: V)
    requires UniqueKeys(m)
    requires i < |m|
    ensures Put(m, m[i].0, v) == m[..i] + [(m[i].0, v)] + m[i + 1..]
  {
    var k := m[i].0;
    if i == 0 {
      assert m[..0] == [];
    } else {
      HeadKeyDiffers(m, i);
      PutAt(m[1..], i - 1, v);
      assert Put(m, k, v) == [m[0]] + (m[1..][..i - 1] + [(k, v)] + m[1..][i..]);
      SliceCons(m, i, [(k, v)]);
    }
  }

  /** Adding a fresh key and removing it again restores the map. */
  lemma {:induction false} RemovePutFresh<V>(m: Pairs<V>, k: string, v: V)
    requires k !in Keys(m)
    ensures Remove(Put(m, k, v), k) == m
  {
    if |m| > 0 {
      assert Keys(m) == [m[0].0] + Keys(m[1..]);
      RemovePutFresh(m[1..], k, v);
    }
  }

  /** Setting the same key twice: the last value wins and nothing else changes. */
  lemma {:induction false} PutPut<V>(m: Pairs<V>, k: string, v1: V, v2: V)
    ensures Put(Put(m, k, v1), k, v2) == Put(m, k, v2)
  {
    if |m| > 0 && m[0].0 != k {
      PutPut(m[1..], k, v1, v2);
    }
  }

  /** Every pair after `Put` is the new one or was there before. */
  lemma {:induction false} PutPairs<V>(m: Pairs<V>, k: string, v: V)
    ensures forall e :: e in Put(m, k, v) ==> e in m || e == (k, v)
  {
    if |m| > 0 && m[0].0 != k {
      PutPairs(m[1..], k, v);
      assert Put(m, k, v) == [m[0]] + Put(m[1..], k, v);
    } else if |m| > 0 {
      assert Put(m, k, v) == [(k, v)] + m[1..];
    }
  }

  /** `Remove` only drops pairs. */
  lemma {:induction false} RemovePairs<V>(m: Pairs<V>, k: string)
    ensures forall e :: e in Remove(m, k) ==> e in m
  {
    if |m| > 0 {
      RemovePairs(m[1..], k);
      if m[0].0 != k {
        assert Remove(m, k) == [m[0]] + Remove(m[1..], k);
      }
    }
  }
}
