/** Facts about sequences and sets, stated for any element type so that
    proofs about sequences of records or strings, or sets of keys, need not
    compare their elements. */
module Collections {

  lemma AppendEmpty<T>(a: seq<T>)
    ensures a + [] == a
  {
  }

  lemma DropLast<T>(a: seq<T>, b: seq<T>)
    requires b != []
    ensures (a + b)[..|a + b| - 1] == a + b[..|b| - 1]
    ensures (a + b)[|a + b| - 1] == b[|b| - 1]
  {
  }

  lemma SplitAt<T>(s: seq<T>, n: nat)
    requires n <= |s|
    ensures s == s[..n] + s[n..]
    ensures n < |s| ==> s[..n + 1][..n] == s[..n]
  {
  }

  lemma HeadTail<T>(s: seq<T>)
    requires s != []
    ensures s == [s[0]] + s[1..]
  {
  }

  /** `s` cut around two non-overlapping three-element windows at `i` and `j`. */
  lemma SplitAround<T>(s: seq<T>, i: nat, j: nat)
    requires i + 3 <= j && j + 3 <= |s|
    ensures s == s[..i] + s[i..i + 3] + s[i + 3..j] + s[j..j + 3] + s[j + 3..]
  {
  }

  /** Adding one key to `done` adds one member to its overlap with `hits`
      exactly when the key is in `hits`. */
  lemma IntersectInsert<K>(hits: set<K>, done: set<K>, key: K)
    requires key !in done
    ensures |hits * (done + {key})| == |hits * done| + (if key in hits then 1 else 0)
  {
    if key in hits {
      assert hits * (done + {key}) == hits * done + {key};
    } else {
      assert hits * (done + {key}) == hits * done;
    }
  }

  lemma IntersectWhole<K>(hits: set<K>, keys: set<K>)
    requires hits <= keys
    ensures hits * keys == hits
  {
  }

  /** The last `m` elements of a suffix of `s` that still has `m` elements
      are the last `m` elements of `s`. */
  lemma SuffixOfSuffix<T>(s: seq<T>, k: nat, m: nat)
    requires k + m <= |s|
    ensures s[k..][|s| - k - m..] == s[|s| - m..]
  {
  }

  lemma AppendAssoc<T>(x: seq<T>, y: seq<T>, z: seq<T>)
    ensures (x + y) + z == x + (y + z)
  {
  }
}
