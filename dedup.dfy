/**
 * DataFrame.drop_duplicates(subset=key) with the default keep='first': a row
 * is kept when no earlier row has the same key.
 */
module Dedup {

  /** No two rows share a key. */
  ghost predicate DistinctKeys<T>(s: seq<T>, key: T -> string) {
    forall i, j :: 0 <= i < j < |s| ==> key(s[i]) != key(s[j])
  }

  /** The row s[j] is the first row of s with its key. */
  ghost predicate FirstWithKey<T>(s: seq<T>, key: T -> string, j: int) {
    0 <= j < |s| && forall k :: 0 <= k < j ==> key(s[k]) != key(s[j])
  }

  /** Keeps, in order, each row whose key is neither in seen nor on an earlier row. */
  function DropDuplicatesFrom<T>(s: seq<T>, key: T -> string, seen: set<string>): (r: seq<T>)
    ensures |r| <= |s|
  {
    if s == [] then []
    else if key(s[0]) in seen then DropDuplicatesFrom(s[1..], key, seen)
    else [s[0]] + DropDuplicatesFrom(s[1..], key, seen + {key(s[0])})
  }

  function DropDuplicates<T>(s: seq<T>, key: T -> string): (r: seq<T>)
    ensures |r| <= |s|
  {
    DropDuplicatesFrom(s, key, {})
  }

  /** The kept rows have distinct keys, none of them in seen. */
  lemma {:induction false} DropDuplicatesFromKeys<T>(s: seq<T>, key: T -> string, seen: set<string>)
    ensures var r := DropDuplicatesFrom(s, key, seen);
      && DistinctKeys(r, key)
      && (forall i :: 0 <= i < |r| ==> key(r[i]) !in seen)
  {
    if s != [] && key(s[0]) in seen {
      DropDuplicatesFromKeys(s[1..], key, seen);
    } else if s != [] {
      var seen' := seen + {key(s[0])};
      DropDuplicatesFromKeys(s[1..], key, seen');
      var rest := DropDuplicatesFrom(s[1..], key, seen');
      var r := [s[0]] + rest;
      assert DropDuplicatesFrom(s, key, seen) == r;
      forall i, j | 0 <= i < j < |r| ensures key(r[i]) != key(r[j]) {
        assert r[j] == rest[j - 1];
        if i > 0 { assert r[i] == rest[i - 1]; }
      }
      forall i | 0 <= i < |r| ensures key(r[i]) !in seen {
        if i > 0 { assert r[i] == rest[i - 1]; }
      }
    }
  }

  /** x is the first row of s with its key. */
  ghost predicate IsFirstRow<T>(s: seq<T>, key: T -> string, x: T) {
    exists j :: FirstWithKey(s, key, j) && s[j] == x
  }

  /** Some row of r has key k. */
  ghost predicate HasKey<T>(r: seq<T>, key: T -> string, k: string) {
    exists i :: 0 <= i < |r| && key(r[i]) == k
  }

  /** Every row of r is the first row of s with its key. */
  ghost predicate KeepsFirsts<T>(s: seq<T>, r: seq<T>, key: T -> string) {
    forall i :: 0 <= i < |r| ==> IsFirstRow(s, key, r[i])
  }

  /** Every key of s outside seen is the key of some row of r. */
  ghost predicate KeepsKeys<T>(s: seq<T>, r: seq<T>, key: T -> string, seen: set<string>) {
    forall j :: 0 <= j < |s| && key(s[j]) !in seen ==> HasKey(r, key, key(s[j]))
  }

  /** Each kept row is the first row of the input with its key. */
  lemma {:induction false} DropDuplicatesFromFirst<T>(s: seq<T>, key: T -> string, seen: set<string>)
    ensures KeepsFirsts(s, DropDuplicatesFrom(s, key, seen), key)
  {
    if s != [] {
      var tail := s[1..];
      var seen' := if key(s[0]) in seen then seen else seen + {key(s[0])};
      DropDuplicatesFromFirst(tail, key, seen');
      DropDuplicatesFromKeys(tail, key, seen');
      var rest := DropDuplicatesFrom(tail, key, seen');
      var r := DropDuplicatesFrom(s, key, seen);
      assert r == if key(s[0]) in seen then rest else [s[0]] + rest;
      forall i | 0 <= i < |r|
        ensures IsFirstRow(s, key, r[i])
      {
        if key(s[0]) !in seen && i == 0 {
          assert FirstWithKey(s, key, 0) && s[0] == r[i];
        } else {
          var i' := if key(s[0]) in seen then i else i - 1;
          assert r[i] == rest[i'];
          var j :| FirstWithKey(tail, key, j) && tail[j] == rest[i'];
          assert key(s[0]) in seen' && key(rest[i']) !in seen';
          assert s[j + 1] == tail[j];
          forall k | 0 <= k < j + 1
            ensures key(s[k]) != key(s[j + 1])
          {
            if k > 0 { assert s[k] == tail[k - 1]; }
          }
          assert FirstWithKey(s, key, j + 1) && s[j + 1] == r[i];
        }
      }
    }
  }

  /** Every key of the input that is not in seen is kept. */
  lemma {:induction false} DropDuplicatesFromComplete<T>(s: seq<T>, key: T -> string, seen: set<string>)
    ensures KeepsKeys(s, DropDuplicatesFrom(s, key, seen), key, seen)
  {
    if s != [] {
      var tail := s[1..];
      var seen' := if key(s[0]) in seen then seen else seen + {key(s[0])};
      DropDuplicatesFromComplete(tail, key, seen');
      var rest := DropDuplicatesFrom(tail, key, seen');
      var r := DropDuplicatesFrom(s, key, seen);
      assert r == if key(s[0]) in seen then rest else [s[0]] + rest;
      forall j | 0 <= j < |s| && key(s[j]) !in seen
        ensures HasKey(r, key, key(s[j]))
      {
        if key(s[j]) == key(s[0]) {
          assert key(r[0]) == key(s[0]);
        } else {
          assert key(tail[j - 1]) !in seen';
          var i :| 0 <= i < |rest| && key(rest[i]) == key(tail[j - 1]);
          var i' := if key(s[0]) in seen then i else i + 1;
          assert r[i'] == rest[i];
        }
      }
    }
  }

  /** The key of every input row is the key of a kept row. */
  lemma DropDuplicatesKeepsKey<T>(s: seq<T>, key: T -> string, j: nat)
    requires j < |s|
    ensures exists i :: 0 <= i < |DropDuplicates(s, key)| && key(DropDuplicates(s, key)[i]) == key(s[j])
  {
    DropDuplicatesFromComplete(s, key, {});
    assert HasKey(DropDuplicates(s, key), key, key(s[j]));
  }

  /** Every kept row is a row of the input. */
  lemma DropDuplicatesKeepsRow<T>(s: seq<T>, key: T -> string, i: nat)
    requires i < |DropDuplicates(s, key)|
    ensures DropDuplicates(s, key)[i] in s
  {
    DropDuplicatesFromFirst(s, key, {});
    assert IsFirstRow(s, key, DropDuplicates(s, key)[i]);
  }

  /**
   * The kept rows have distinct keys, each is the first row of its key, and
   * every key of the input is kept.
   */
  lemma DropDuplicatesSpec<T>(s: seq<T>, key: T -> string)
    ensures var r := DropDuplicates(s, key);
      && DistinctKeys(r, key)
      && (forall i :: 0 <= i < |r| ==> exists j :: FirstWithKey(s, key, j) && s[j] == r[i])
      && (forall j :: 0 <= j < |s| ==> exists i :: 0 <= i < |r| && key(r[i]) == key(s[j]))
  {
    DropDuplicatesFromKeys(s, key, {});
    DropDuplicatesFromFirst(s, key, {});
    DropDuplicatesFromComplete(s, key, {});
  }

  lemma {:induction false} DropDuplicatesFromDistinct<T>(s: seq<T>, key: T -> string, seen: set<string>)
    requires DistinctKeys(s, key)
    requires forall i :: 0 <= i < |s| ==> key(s[i]) !in seen
    ensures DropDuplicatesFrom(s, key, seen) == s
  {
    if s != [] {
      DropDuplicatesFromDistinct(s[1..], key, seen + {key(s[0])});
    }
  }

  /** Rows whose keys are already distinct are left as they are. */
  lemma DropDuplicatesOfDistinct<T>(s: seq<T>, key: T -> string)
    requires DistinctKeys(s, key)
    ensures DropDuplicates(s, key) == s
  {
    DropDuplicatesFromDistinct(s, key, {});
  }

  /**
   * Rows that all share one key k, put in front of rows with distinct keys
   * other than k: the first of them survives and the rest is kept unchanged.
   */
  lemma DropDuplicatesOfPrefix<T>(pre: seq<T>, s: seq<T>, key: T -> string, k: string)
    requires |pre| > 0 && forall i :: 0 <= i < |pre| ==> key(pre[i]) == k
    requires DistinctKeys(s, key)
    requires forall i :: 0 <= i < |s| ==> key(s[i]) != k
    ensures DropDuplicates(pre + s, key) == [pre[0]] + s
  {
    var whole := pre + s;
    assert whole[0] == pre[0] && whole[1..] == pre[1..] + s;
    assert {} + {key(whole[0])} == {k};
    SkipSeen(pre[1..], s, key, k);
    assert DropDuplicatesFrom(whole, key, {}) == [whole[0]] + DropDuplicatesFrom(whole[1..], key, {k});
  }

  lemma {:induction false} SkipSeen<T>(pre: seq<T>, s: seq<T>, key: T -> string, k: string)
    requires forall i :: 0 <= i < |pre| ==> key(pre[i]) == k
    requires DistinctKeys(s, key)
    requires forall i :: 0 <= i < |s| ==> key(s[i]) != k
    ensures DropDuplicatesFrom(pre + s, key, {k}) == s
  {
    if pre == [] {
      assert pre + s == s;
      DropDuplicatesFromDistinct(s, key, {k});
    } else {
      assert (pre + s)[1..] == pre[1..] + s;
      SkipSeen(pre[1..], s, key, k);
    }
  }

  /** With distinct keys, no row occurs twice. */
  lemma {:induction false} DistinctKeysMultiplicity<T>(s: seq<T>, key: T -> string, v: T)
    requires DistinctKeys(s, key)
    ensures multiset(s)[v] <= 1
  {
    if s != [] {
      var tail := s[1..];
      assert s == [s[0]] + tail;
      assert DistinctKeys(tail, key) by {
        forall i, j | 0 <= i < j < |tail| ensures key(tail[i]) != key(tail[j]) {
          assert tail[i] == s[i + 1] && tail[j] == s[j + 1];
        }
      }
      DistinctKeysMultiplicity(tail, key, v);
      forall k | 0 <= k < |tail| ensures key(tail[k]) != key(s[0]) {
        assert tail[k] == s[k + 1];
      }
      assert s[0] == v ==> v !in tail;
    }
  }

  lemma PairMultiplicity<T>(t: seq<T>, i: nat, j: nat)
    requires i < j < |t|
    ensures multiset(t)[t[i]] >= if t[i] == t[j] then 2 else 1
  {
    assert t == t[..i] + [t[i]] + t[i + 1..j] + [t[j]] + t[j + 1..];
  }

  /** Reordering rows (a permutation) keeps their keys distinct. */
  lemma DistinctKeysPermutation<T>(s: seq<T>, t: seq<T>, key: T -> string)
    requires multiset(t) == multiset(s) && DistinctKeys(s, key)
    ensures DistinctKeys(t, key)
  {
    forall i, j | 0 <= i < j < |t|
      ensures key(t[i]) != key(t[j])
    {
      PairMultiplicity(t, i, j);
      DistinctKeysMultiplicity(s, key, t[i]);
      assert t[i] != t[j];
      assert t[i] in multiset(s) && t[j] in multiset(s);
      var p :| 0 <= p < |s| && s[p] == t[i];
      var q :| 0 <= q < |s| && s[q] == t[j];
      assert p != q;
    }
  }
}
