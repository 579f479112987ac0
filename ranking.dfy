/** The order `Researcher.top_k_similar_sentences` lists items in: every
    item goes to the bucket its key names, and the buckets are read from
    the first to the last, each in the order its items arrived. */
module Ranking {

  /** The items whose key is `b`, in their original order. */
  function Bucket<T>(items: seq<T>, key: T -> int, b: int): (r: seq<T>)
    ensures |r| <= |items|
  {
    if items == [] then []
    else
      var last := items[|items| - 1];
      Bucket(items[..|items| - 1], key, b) + (if key(last) == b then [last] else [])
  }

  /** Every item of bucket `b` has key `b`. */
  lemma {:induction false} BucketKeys<T>(items: seq<T>, key: T -> int, b: int)
    ensures forall i :: 0 <= i < |Bucket(items, key, b)| ==> key(Bucket(items, key, b)[i]) == b
  {
    if items != [] {
      var init := items[..|items| - 1];
      BucketKeys(init, key, b);
      var front := Bucket(init, key, b);
      var last := items[|items| - 1];
      var r := front + (if key(last) == b then [last] else []);
      assert Bucket(items, key, b) == r;
      forall i | 0 <= i < |r| ensures key(r[i]) == b {
        if i < |front| {
          assert r[i] == front[i];
        }
      }
    }
  }

  /** Buckets `0 .. count - 1`, one after the other. */
  function Ranked<T>(items: seq<T>, key: T -> int, count: nat): seq<T> {
    if count == 0 then [] else Ranked(items, key, count - 1) + Bucket(items, key, count - 1)
  }

  /** The items whose key lies in `0 .. count - 1`, in their original order. */
  function Below<T>(items: seq<T>, key: T -> int, count: nat): seq<T> {
    if items == [] then []
    else
      var last := items[|items| - 1];
      Below(items[..|items| - 1], key, count) + (if 0 <= key(last) < count then [last] else [])
  }

  /** Every key names one of the `count` buckets. */
  predicate InRange<T>(items: seq<T>, key: T -> int, count: nat) {
    forall i :: 0 <= i < |items| ==> 0 <= key(items[i]) < count
  }

  // ---------------------------------------------------------------------
  // Lemmas

  /** Filling the buckets from two runs of items is filling them from the
      first run and then from the second. */
  lemma {:induction false} BucketAppend<T>(a: seq<T>, c: seq<T>, key: T -> int, b: int)
    ensures Bucket(a + c, key, b) == Bucket(a, key, b) + Bucket(c, key, b)
    decreases |c|
  {
    if c != [] {
      assert (a + c)[..|a + c| - 1] == a + c[..|c| - 1];
      BucketAppend(a, c[..|c| - 1], key, b);
    } else {
      assert a + c == a;
    }
  }

  /** Adding the next bucket to the items below it, counted with
      multiplicity. */
  lemma {:induction false} BelowNext<T>(items: seq<T>, key: T -> int, count: nat)
    requires count > 0
    ensures multiset(Below(items, key, count))
      == multiset(Below(items, key, count - 1)) + multiset(Bucket(items, key, count - 1))
  {
    if items != [] {
      BelowNext(items[..|items| - 1], key, count);
    }
  }

  /** With every key in range, no item is filtered out. */
  lemma {:induction false} BelowAll<T>(items: seq<T>, key: T -> int, count: nat)
    requires InRange(items, key, count)
    ensures Below(items, key, count) == items
  {
    if items != [] {
      var init := items[..|items| - 1];
      assert InRange(init, key, count) by {
        forall i | 0 <= i < |init| ensures 0 <= key(init[i]) < count {
          assert init[i] == items[i];
        }
      }
      BelowAll(init, key, count);
      assert init + [items[|items| - 1]] == items;
    }
  }

  /** The ranked items are the items in scope, counted with multiplicity. */
  lemma {:induction false} RankedHoldsBelow<T>(items: seq<T>, key: T -> int, count: nat)
    ensures multiset(Ranked(items, key, count)) == multiset(Below(items, key, count))
    decreases count, 1
  {
    if count == 0 {
      BelowNone(items, key);
    } else {
      RankedHoldsBelowStep(items, key, count);
    }
  }

  lemma {:induction false} RankedHoldsBelowStep<T>(items: seq<T>, key: T -> int, count: nat)
    requires count > 0
    ensures multiset(Ranked(items, key, count)) == multiset(Below(items, key, count))
    decreases count, 0
  {
    RankedNext(items, key, count);
    RankedHoldsBelow(items, key, count - 1);
    BelowNext(items, key, count);
    SameGrowth(multiset(Ranked(items, key, count)), multiset(Ranked(items, key, count - 1)),
               multiset(Below(items, key, count)), multiset(Below(items, key, count - 1)),
               multiset(Bucket(items, key, count - 1)));
  }

  /** Two equal multisets grown by the same items stay equal. */
  lemma SameGrowth<T>(r: multiset<T>, r0: multiset<T>, w: multiset<T>, w0: multiset<T>, b: multiset<T>)
    requires r == r0 + b && w == w0 + b && r0 == w0
    ensures r == w
  {
  }

  lemma RankedNext<T>(items: seq<T>, key: T -> int, count: nat)
    requires count > 0
    ensures multiset(Ranked(items, key, count))
      == multiset(Ranked(items, key, count - 1)) + multiset(Bucket(items, key, count - 1))
  {
    assert Ranked(items, key, count) == Ranked(items, key, count - 1) + Bucket(items, key, count - 1);
  }

  lemma {:induction false} BelowNone<T>(items: seq<T>, key: T -> int)
    ensures Below(items, key, 0) == []
  {
    if items != [] {
      BelowNone(items[..|items| - 1], key);
    }
  }

  /** When every key is in range, ranking is a permutation of the items. */
  lemma RankedIsPermutation<T>(items: seq<T>, key: T -> int, count: nat)
    requires InRange(items, key, count)
    ensures multiset(Ranked(items, key, count)) == multiset(items)
    ensures |Ranked(items, key, count)| == |items|
  {
    RankedHoldsBelow(items, key, count);
    BelowAll(items, key, count);
    assert |multiset(Ranked(items, key, count))| == |multiset(items)|;
  }

  /** Every ranked item names one of the buckets read. */
  lemma {:induction false} RankedKeys<T>(items: seq<T>, key: T -> int, count: nat)
    ensures forall i :: 0 <= i < |Ranked(items, key, count)| ==> 0 <= key(Ranked(items, key, count)[i]) < count
  {
    if count > 0 {
      RankedKeys(items, key, count - 1);
      BucketKeys(items, key, count - 1);
      var front := Ranked(items, key, count - 1);
      var back := Bucket(items, key, count - 1);
      var r := front + back;
      assert Ranked(items, key, count) == r;
      forall i | 0 <= i < |r| ensures 0 <= key(r[i]) < count {
        if i < |front| {
          assert r[i] == front[i];
        } else {
          assert r[i] == back[i - |front|];
        }
      }
    }
  }

  /** Ranked items come in non-decreasing key order. */
  lemma {:induction false} RankedIsSorted<T>(items: seq<T>, key: T -> int, count: nat)
    ensures forall i, j :: 0 <= i < j < |Ranked(items, key, count)| ==>
      key(Ranked(items, key, count)[i]) <= key(Ranked(items, key, count)[j])
  {
    if count > 0 {
      RankedIsSorted(items, key, count - 1);
      RankedKeys(items, key, count - 1);
      BucketKeys(items, key, count - 1);
      var front := Ranked(items, key, count - 1);
      var back := Bucket(items, key, count - 1);
      var r := front + back;
      assert Ranked(items, key, count) == r;
      forall i, j | 0 <= i < j < |r| ensures key(r[i]) <= key(r[j]) {
        if j < |front| {
          assert r[i] == front[i] && r[j] == front[j];
        } else {
          assert r[j] == back[j - |front|];
          if i < |front| {
            assert r[i] == front[i];
          } else {
            assert r[i] == back[i - |front|];
          }
        }
      }
    }
  }

  /** Taking bucket `b` out of bucket `c`. */
  lemma {:induction false} BucketOfBucket<T>(items: seq<T>, key: T -> int, b: int, c: int)
    ensures Bucket(Bucket(items, key, c), key, b) == if b == c then Bucket(items, key, b) else []
  {
    if items != [] {
      var init := items[..|items| - 1];
      var last := items[|items| - 1];
      BucketOfBucket(init, key, b, c);
      BucketAppend(Bucket(init, key, c), if key(last) == c then [last] else [], key, b);
      if key(last) == c {
        assert [last][..0] == [];
      }
    }
  }

  /** Ranking is stable: the items of one bucket keep their original
      order. */
  lemma {:induction false} RankedIsStable<T>(items: seq<T>, key: T -> int, count: nat, b: int)
    requires 0 <= b < count
    ensures Bucket(Ranked(items, key, count), key, b) == Bucket(items, key, b)
  {
    RankedBucket(items, key, count, b);
  }

  lemma RankedBucket<T>(items: seq<T>, key: T -> int, count: nat, b: int)
    ensures Bucket(Ranked(items, key, count), key, b)
      == if 0 <= b < count then Bucket(items, key, b) else []
  {
    if 0 <= b < count {
      RankedBucketIn(items, key, count, b);
    } else {
      RankedBucketOut(items, key, count, b);
    }
  }

  /** A bucket that was read comes out whole. */
  lemma {:induction false} RankedBucketIn<T>(items: seq<T>, key: T -> int, count: nat, b: int)
    requires 0 <= b < count
    ensures Bucket(Ranked(items, key, count), key, b) == Bucket(items, key, b)
  {
    RankedBucketSplit(items, key, count, b);
    BucketOfBucket(items, key, b, count - 1);
    if b == count - 1 {
      RankedBucketOut(items, key, count - 1, b);
    } else {
      RankedBucketIn(items, key, count - 1, b);
    }
  }

  /** A bucket that was not read is empty. */
  lemma {:induction false} RankedBucketOut<T>(items: seq<T>, key: T -> int, count: nat, b: int)
    requires !(0 <= b < count)
    ensures Bucket(Ranked(items, key, count), key, b) == []
  {
    if count > 0 {
      RankedBucketSplit(items, key, count, b);
      BucketOfBucket(items, key, b, count - 1);
      RankedBucketOut(items, key, count - 1, b);
    }
  }

  /** The bucket `b` of the first `count` buckets read in order. */
  lemma RankedBucketSplit<T>(items: seq<T>, key: T -> int, count: nat, b: int)
    requires count > 0
    ensures Bucket(Ranked(items, key, count), key, b)
      == Bucket(Ranked(items, key, count - 1), key, b) + Bucket(Bucket(items, key, count - 1), key, b)
  {
    BucketAppend(Ranked(items, key, count - 1), Bucket(items, key, count - 1), key, b);
  }

  /** Cutting the items short cuts every bucket short. */
  lemma {:induction false} BucketOfPrefix<T>(items: seq<T>, key: T -> int, m: nat, b: int)
    requires m <= |items|
    ensures Bucket(items[..m], key, b) <= Bucket(items, key, b)
    decreases |items|
  {
    if m < |items| {
      var init := items[..|items| - 1];
      assert init[..m] == items[..m];
      BucketOfPrefix(init, key, m, b);
    } else {
      assert items[..m] == items;
    }
  }

  /** In a sequence sorted by key, no item after a cut has a smaller key
      than an item before it. */
  lemma SortedCut<T>(s: seq<T>, key: T -> int, m: nat)
    requires m <= |s|
    requires forall i, j :: 0 <= i < j < |s| ==> key(s[i]) <= key(s[j])
    ensures forall x, y :: x in s[..m] && y in s[m..] ==> key(x) <= key(y)
  {
    forall x, y | x in s[..m] && y in s[m..] ensures key(x) <= key(y) {
      var i :| 0 <= i < m && s[..m][i] == x;
      var j :| 0 <= j < |s| - m && s[m..][j] == y;
      assert s[i] == x && s[m + j] == y;
    }
  }
}
