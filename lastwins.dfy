/**
 * The dictionary-filling pattern the convertor uses twice (header
 * parameters and measured outputs): a sequence of optional key/value
 * entries is stored into an initially empty dictionary in order, skipping
 * the absent ones, so that a later entry for a key overwrites an earlier one.
 */
module LastWins {
  import opened Wrappers

  /** The dictionary after storing every present entry of `es`, in order. */
  function Store<K(==), V>(es: seq<Option<(K, V)>>): map<K, V>
  {
    if es == [] then map[]
    else
      var m := Store(es[..|es| - 1]);
      match es[|es| - 1]
      case None => m
      case Some(kv) => m[kv.0 := kv.1]
  }

  /** Storing one more entry: a present one is written over the dictionary, an absent one is skipped. */
  lemma StoreSnoc<K, V>(es: seq<Option<(K, V)>>, e: Option<(K, V)>)
    ensures Store(es + [e]) == match e case None => Store(es) case Some(kv) => Store(es)[kv.0 := kv.1]
  {
    assert (es + [e])[..|es|] == es;
  }

  /** Entry `j` of `es` is present and has key `k`. */
  predicate KeyAt<K(==), V>(es: seq<Option<(K, V)>>, j: int, k: K)
    requires 0 <= j < |es|
  {
    es[j].Some? && es[j].value.0 == k
  }

  /** A key is stored exactly when some present entry carries it. */
  lemma {:induction false} StoreKeys<K, V>(es: seq<Option<(K, V)>>, k: K)
    ensures k in Store(es) <==> exists j :: 0 <= j < |es| && KeyAt(es, j, k)
  {
    if es != [] {
      var init := es[..|es| - 1];
      StoreKeys(init, k);
      if exists j :: 0 <= j < |es| && KeyAt(es, j, k) {
        var j :| 0 <= j < |es| && KeyAt(es, j, k);
        if j < |es| - 1 {
          assert KeyAt(init, j, k);
        }
      }
      if exists j :: 0 <= j < |init| && KeyAt(init, j, k) {
        var j :| 0 <= j < |init| && KeyAt(init, j, k);
        assert KeyAt(es, j, k);
      }
      if KeyAt(es, |es| - 1, k) {
        assert k in Store(es);
      }
    }
  }

  /** The stored value of a key is the one of the last entry carrying it. */
  lemma {:induction false} StoreLastWins<K, V>(es: seq<Option<(K, V)>>, j: nat, k: K)
    requires j < |es| && KeyAt(es, j, k)
    requires forall j' :: j < j' < |es| ==> !KeyAt(es, j', k)
    ensures k in Store(es) && Store(es)[k] == es[j].value.1
  {
    var init := es[..|es| - 1];
    if j < |es| - 1 {
      assert !KeyAt(es, |es| - 1, k);
      forall j' | j < j' < |init|
        ensures !KeyAt(init, j', k)
      {
        assert !KeyAt(es, j', k);
      }
      StoreLastWins(init, j, k);
    }
  }

  /** Absent entries change nothing: the result only depends on the present ones, in order. */
  lemma {:induction false} StoreSkipsAbsent<K, V>(es: seq<Option<(K, V)>>, i: nat)
    requires i <= |es|
    ensures Store(es[..i] + [None] + es[i..]) == Store(es)
    decreases |es| - i
  {
    if i < |es| {
      var es' := es[..i] + [None] + es[i..];
      var init := es[..|es| - 1];
      assert es'[..|es'| - 1] == init[..i] + [None] + init[i..];
      assert es'[|es'| - 1] == es[|es| - 1];
      StoreSkipsAbsent(init, i);
    } else {
      assert es[..i] + [None] + es[i..] == es + [None];
      assert (es + [None])[..|es|] == es;
    }
  }
}
