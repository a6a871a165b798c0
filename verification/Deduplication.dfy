/** Keeping the first row of every key, as `dedupe_docs` does per document. */
module Deduplication {

  /** The rows whose key is neither in `seen` nor the key of a row before. */
  function Firsts<T, K(==)>(rows: seq<T>, key: T -> K, seen: set<K>): seq<T> {
    if rows == [] then []
    else if key(rows[0]) in seen then Firsts(rows[1..], key, seen)
    else [rows[0]] + Firsts(rows[1..], key, seen + {key(rows[0])})
  }

  /** No key is listed twice. */
  ghost predicate DistinctBy<T, K>(rows: seq<T>, key: T -> K) {
    forall i, j :: 0 <= i < j < |rows| ==> key(rows[i]) != key(rows[j])
  }

  /** `rows[i]` is the best-ranked row of its key. */
  ghost predicate IsFirst<T, K>(rows: seq<T>, key: T -> K, i: nat) {
    i < |rows| && forall j :: 0 <= j < i ==> key(rows[j]) != key(rows[i])
  }

  lemma NextFirst<T, K>(kept: seq<T>, rows: seq<T>, key: T -> K, i: nat, seen: set<K>)
    requires i < |rows|
    ensures key(rows[i]) in seen ==> kept + Firsts(rows[i..], key, seen) == kept + Firsts(rows[i + 1..], key, seen)
    ensures key(rows[i]) !in seen ==>
      kept + Firsts(rows[i..], key, seen) == kept + [rows[i]] + Firsts(rows[i + 1..], key, seen + {key(rows[i])})
  {
    assert rows[i..][1..] == rows[i + 1..] && rows[i..][0] == rows[i];
  }

  lemma {:induction false} FirstsAreDistinct<T, K>(rows: seq<T>, key: T -> K, seen: set<K>)
    ensures DistinctBy(Firsts(rows, key, seen), key)
    ensures forall r :: r in Firsts(rows, key, seen) ==> r in rows && key(r) !in seen
  {
    if rows != [] {
      FirstsAreDistinct(rows[1..], key, if key(rows[0]) in seen then seen else seen + {key(rows[0])});
    }
  }

  /** One more row at the end is kept, in the last place, exactly when no row before has its key. */
  lemma {:induction false} LastIsKeptExactlyWhen<T, K>(rows: seq<T>, last: T, key: T -> K, seen: set<K>)
    ensures Firsts([], key, seen) == []
    ensures Firsts(rows + [last], key, seen) == Firsts(rows, key, seen) +
      if key(last) in seen || exists r :: r in rows && key(r) == key(last) then [] else [last]
  {
    if rows != [] {
      var before := if key(rows[0]) in seen then seen else seen + {key(rows[0])};
      LastIsKeptExactlyWhen(rows[1..], last, key, before);
      assert (rows + [last])[1..] == rows[1..] + [last];
      assert rows == [rows[0]] + rows[1..];
    }
  }

  /** Every key is kept. */
  lemma {:induction false} KeyIsKept<T, K>(rows: seq<T>, key: T -> K, seen: set<K>, r: T)
    requires r in rows && key(r) !in seen
    ensures exists f :: f in Firsts(rows, key, seen) && key(f) == key(r)
  {
    if key(rows[0]) != key(r) {
      KeyIsKept(rows[1..], key, if key(rows[0]) in seen then seen else seen + {key(rows[0])}, r);
    }
  }

  /** Exactly the best-ranked row of every key is kept. */
  lemma {:induction false} FirstsAreFirst<T, K>(rows: seq<T>, key: T -> K, seen: set<K>, i: nat)
    requires IsFirst(rows, key, i) && key(rows[i]) !in seen
    ensures rows[i] in Firsts(rows, key, seen)
  {
    if i > 0 {
      assert forall j :: 0 <= j < i - 1 ==> rows[1..][j] == rows[j + 1];
      FirstsAreFirst(rows[1..], key, if key(rows[0]) in seen then seen else seen + {key(rows[0])}, i - 1);
    }
  }
}
