/**
 * The `seen`-set deduplication `extractLinks` and `extractImages` apply:
 * candidates are visited in document order and one is kept only when its
 * key (the URL) has not been kept before, so the first occurrence of each
 * key wins.
 */
module Dedup {

  /** The keys of the candidates. */
  function Keys<T>(cs: seq<T>, key: T -> string): (ks: set<string>)
    ensures forall i :: 0 <= i < |cs| ==> key(cs[i]) in ks
  {
    if cs == [] then {} else Keys(cs[..|cs| - 1], key) + {key(cs[|cs| - 1])}
  }

  /** The candidates whose key was not seen before them, in order. */
  function Dedup<T>(cs: seq<T>, key: T -> string): seq<T> {
    if cs == [] then []
    else
      var kept := Dedup(cs[..|cs| - 1], key);
      var last := cs[|cs| - 1];
      if key(last) in Keys(kept, key) then kept else kept + [last]
  }

  /** The candidate at `j` is the first one with its key. */
  predicate IsFirst<T>(cs: seq<T>, key: T -> string, j: int)
    requires 0 <= j < |cs|
  {
    forall i :: 0 <= i < j ==> key(cs[i]) != key(cs[j])
  }

  predicate DistinctKeys<T>(cs: seq<T>, key: T -> string) {
    forall i, j :: 0 <= i < j < |cs| ==> key(cs[i]) != key(cs[j])
  }

  lemma {:induction false} KeysMember<T>(cs: seq<T>, key: T -> string, k: string)
    requires k in Keys(cs, key)
    ensures exists i :: 0 <= i < |cs| && key(cs[i]) == k
    decreases |cs|
  {
    if key(cs[|cs| - 1]) != k {
      KeysMember(cs[..|cs| - 1], key, k);
      var i :| 0 <= i < |cs| - 1 && key(cs[..|cs| - 1][i]) == k;
      assert cs[i] == cs[..|cs| - 1][i];
    }
  }

  lemma KeysAppend<T>(cs: seq<T>, x: T, key: T -> string)
    ensures Keys(cs + [x], key) == Keys(cs, key) + {key(x)}
  {
    assert (cs + [x])[..|cs|] == cs;
  }

  lemma DedupAppend<T>(cs: seq<T>, x: T, key: T -> string)
    ensures Dedup(cs + [x], key) ==
              if key(x) in Keys(Dedup(cs, key), key) then Dedup(cs, key) else Dedup(cs, key) + [x]
  {
    assert (cs + [x])[..|cs|] == cs;
  }

  /** No two kept candidates share a key. */
  lemma {:induction false} DedupDistinct<T>(cs: seq<T>, key: T -> string)
    ensures DistinctKeys(Dedup(cs, key), key)
    decreases |cs|
  {
    if cs != [] {
      var kept := Dedup(cs[..|cs| - 1], key);
      var last := cs[|cs| - 1];
      DedupDistinct(cs[..|cs| - 1], key);
      if key(last) !in Keys(kept, key) {
        var d := kept + [last];
        forall i, j | 0 <= i < j < |d| ensures key(d[i]) != key(d[j]) {
          if j == |kept| {
            assert d[i] == kept[i];
          } else {
            assert d[i] == kept[i] && d[j] == kept[j];
          }
        }
      }
    }
  }

  /** Deduplication loses no key. */
  lemma {:induction false} DedupKeys<T>(cs: seq<T>, key: T -> string)
    ensures Keys(Dedup(cs, key), key) == Keys(cs, key)
    decreases |cs|
  {
    if cs != [] {
      var init := cs[..|cs| - 1];
      var kept := Dedup(init, key);
      DedupKeys(init, key);
      if key(cs[|cs| - 1]) !in Keys(kept, key) {
        KeysAppend(kept, cs[|cs| - 1], key);
      }
    }
  }

  /** The first candidate with a given key is kept. */
  lemma {:induction false} FirstIsKept<T>(cs: seq<T>, key: T -> string, j: int)
    requires 0 <= j < |cs| && IsFirst(cs, key, j)
    ensures cs[j] in Dedup(cs, key)
    decreases |cs|
  {
    var init := cs[..|cs| - 1];
    if j < |cs| - 1 {
      assert init[j] == cs[j];
      assert IsFirst(init, key, j);
      FirstIsKept(init, key, j);
    } else if key(cs[j]) in Keys(Dedup(init, key), key) {
      DedupKeys(init, key);
      KeysMember(init, key, key(cs[j]));
      assert false;
    }
  }

  /** Every kept item is a candidate that was the first with its key. */
  lemma {:induction false} KeptAreFirst<T>(cs: seq<T>, key: T -> string, x: T)
    requires x in Dedup(cs, key)
    ensures exists j :: 0 <= j < |cs| && cs[j] == x && IsFirst(cs, key, j)
    decreases |cs|
  {
    var init := cs[..|cs| - 1];
    var kept := Dedup(init, key);
    if x in kept {
      KeptAreFirst(init, key, x);
      var j :| 0 <= j < |init| && init[j] == x && IsFirst(init, key, j);
      assert cs[j] == x;
      assert IsFirst(cs, key, j) by {
        forall i | 0 <= i < j ensures key(cs[i]) != key(cs[j]) {
          assert cs[i] == init[i];
        }
      }
    } else {
      var j := |cs| - 1;
      assert cs[j] == x && key(x) !in Keys(kept, key);
      DedupKeys(init, key);
      forall i | 0 <= i < j ensures key(cs[i]) != key(cs[j]) {
        assert cs[i] == init[i];
      }
    }
  }

  /** Order is kept: what the first `n` candidates yield is a prefix of
      what all of them yield. */
  lemma {:induction false} DedupPrefix<T>(cs: seq<T>, key: T -> string, n: nat)
    requires n <= |cs|
    ensures Dedup(cs[..n], key) <= Dedup(cs, key)
    decreases |cs| - n
  {
    if n < |cs| {
      DedupPrefix(cs, key, n + 1);
      var p := cs[..n + 1];
      assert p[..n] == cs[..n];
      assert Dedup(cs[..n], key) <= Dedup(p, key);
    } else {
      assert cs[..n] == cs;
    }
  }
}
