/** Stock result type. */
module Wrappers {
  datatype Option<+T> = None | Some(value: T)
}

/** Association lists, and the library searches the modelled code makes in them. */
module Lists {
  import opened Wrappers

  /** The names of the entries, in order. */
  ghost function Keys<V>(pairs: seq<(string, V)>): (keys: seq<string>)
    ensures |keys| == |pairs| && forall i :: 0 <= i < |pairs| ==> keys[i] == pairs[i].0
  {
    seq(|pairs|, i requires 0 <= i < |pairs| => pairs[i].0)
  }

  /** What the first entry of that name holds. */
  function Lookup<V>(pairs: seq<(string, V)>, key: string): Option<V> {
    if pairs == [] then None
    else if pairs[0].0 == key then Some(pairs[0].1)
    else Lookup(pairs[1..], key)
  }

  ghost predicate HasKey<V>(pairs: seq<(string, V)>, key: string) {
    exists i :: 0 <= i < |pairs| && pairs[i].0 == key
  }

  /** `v` is what the first pair of that key holds. */
  ghost predicate FirstHolds<V>(pairs: seq<(string, V)>, key: string, v: V) {
    exists i :: 0 <= i < |pairs| && pairs[i] == (key, v) && forall j :: 0 <= j < i ==> pairs[j].0 != key
  }

  lemma {:induction false} LookupIsFirst<V>(pairs: seq<(string, V)>, key: string)
    ensures Lookup(pairs, key).Some? <==> HasKey(pairs, key)
    ensures forall v :: FirstHolds(pairs, key, v) <==> Lookup(pairs, key) == Some(v)
  {
    if pairs != [] {
      var rest := pairs[1..];
      LookupIsFirst(rest, key);
      if pairs[0].0 != key {
        forall v
          ensures FirstHolds(pairs, key, v) <==> FirstHolds(rest, key, v)
        {
          if FirstHolds(pairs, key, v) {
            var i :| 0 <= i < |pairs| && pairs[i] == (key, v) && forall j :: 0 <= j < i ==> pairs[j].0 != key;
            assert rest[i - 1] == (key, v);
          }
          if FirstHolds(rest, key, v) {
            var i :| 0 <= i < |rest| && rest[i] == (key, v) && forall j :: 0 <= j < i ==> rest[j].0 != key;
            assert pairs[i + 1] == (key, v);
          }
        }
        if HasKey(pairs, key) {
          var i :| 0 <= i < |pairs| && pairs[i].0 == key;
          assert rest[i - 1].0 == key;
        }
        if HasKey(rest, key) {
          var i :| 0 <= i < |rest| && rest[i].0 == key;
          assert pairs[i + 1].0 == key;
        }
      } else {
        assert pairs[0] == (key, pairs[0].1);
      }
    }
  }

  /** The first entry of that name, or the length. */
  method Find<V>(pairs: seq<(string, V)>, key: string) returns (k: nat)
    ensures k <= |pairs| && (k < |pairs| ==> pairs[k].0 == key)
    ensures forall i :: 0 <= i < k ==> pairs[i].0 != key
  {
    k := 0;
    while k < |pairs| && pairs[k].0 != key
      invariant k <= |pairs|
      invariant forall i :: 0 <= i < k ==> pairs[i].0 != key
    {
      k := k + 1;
    }
  }

  lemma {:induction false} LookupFinds<V>(pairs: seq<(string, V)>, key: string)
    ensures Lookup(pairs, key).Some? <==> key in Keys(pairs)
    ensures Lookup(pairs, key).Some? ==> exists e :: 0 <= e < |pairs| && pairs[e] == (key, Lookup(pairs, key).value)
  {
    if pairs != [] {
      LookupFinds(pairs[1..], key);
      assert Keys(pairs) == [pairs[0].0] + Keys(pairs[1..]);
      if pairs[0].0 == key {
        assert pairs[0] == (key, Lookup(pairs, key).value);
      } else if Lookup(pairs, key).Some? {
        var e :| 0 <= e < |pairs[1..]| && pairs[1..][e] == (key, Lookup(pairs[1..], key).value);
        assert pairs[e + 1] == (key, Lookup(pairs, key).value);
      }
    }
  }

  lemma Assoc<T>(a: seq<T>, b: seq<T>, c: seq<T>)
    ensures a + b + c == a + (b + c)
  {
  }
}
