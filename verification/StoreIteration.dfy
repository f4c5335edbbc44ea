/** Ordered iteration over a KV store: the keys an `sdk.KVStore` iterator visits,
    in the order it visits them. */
module StoreIteration {
  import opened ByteStrings

  predicate IsLeast(k: Bytes, s: set<Bytes>) {
    k in s && forall x :: x in s && x != k ==> Less(k, x)
  }

  predicate IsGreatest(k: Bytes, s: set<Bytes>) {
    k in s && forall x :: x in s && x != k ==> Less(x, k)
  }

  lemma {:induction false} LeastExists(s: set<Bytes>)
    requires s != {}
    ensures exists k :: IsLeast(k, s)
    decreases |s|
  {
    var e :| e in s;
    if s == {e} {
      assert IsLeast(e, s);
    } else {
      var rest := s - {e};
      LeastExists(rest);
      var k :| IsLeast(k, rest);
      LessTotal(e, k);
      if Less(k, e) {
        assert IsLeast(k, s);
      } else {
        forall x | x in s && x != e && x != k ensures Less(e, x) {
          LessTransitive(e, k, x);
        }
        assert IsLeast(e, s);
      }
    }
  }

  lemma {:induction false} GreatestExists(s: set<Bytes>)
    requires s != {}
    ensures exists k :: IsGreatest(k, s)
    decreases |s|
  {
    var e :| e in s;
    if s == {e} {
      assert IsGreatest(e, s);
    } else {
      var rest := s - {e};
      GreatestExists(rest);
      var k :| IsGreatest(k, rest);
      LessTotal(e, k);
      if Less(e, k) {
        assert IsGreatest(k, s);
      } else {
        forall x | x in s && x != e && x != k ensures Less(x, e) {
          LessTransitive(x, k, e);
        }
        assert IsGreatest(e, s);
      }
    }
  }

  lemma OrderIsStrict()
    ensures forall a, b :: !(Less(a, b) && Less(b, a))
  {
    forall a, b ensures !(Less(a, b) && Less(b, a)) {
      LessAsymmetric(a, b);
    }
  }

  /** Where a forward iterator over the keys `s` starts. */
  function Least(s: set<Bytes>): (k: Bytes)
    requires s != {}
    ensures IsLeast(k, s)
  {
    LeastExists(s);
    OrderIsStrict();
    var k :| IsLeast(k, s);
    k
  }

  /** Where a reverse iterator over the keys `s` starts. */
  function Greatest(s: set<Bytes>): (k: Bytes)
    requires s != {}
    ensures IsGreatest(k, s)
  {
    GreatestExists(s);
    OrderIsStrict();
    var k :| IsGreatest(k, s);
    k
  }

  predicate StrictlySorted(ks: seq<Bytes>) {
    forall i, j :: 0 <= i < j < |ks| ==> Less(ks[i], ks[j])
  }

  /** Every key of `s`, in the order of a forward iterator. */
  function SortedKeys(s: set<Bytes>): (ks: seq<Bytes>)
    ensures forall k :: k in ks <==> k in s
    ensures StrictlySorted(ks)
    ensures |ks| == |s|
    decreases |s|
  {
    if s == {} then [] else
      var k := Least(s);
      var rest := SortedKeys(s - {k});
      assert forall i :: 0 <= i < |rest| ==> rest[i] in s - {k};
      [k] + rest
  }

  /** The keys of a prefix iterator (`sdk.KVStorePrefixIterator`). */
  function PrefixKeys<V>(kv: map<Bytes, V>, prefix: Bytes): set<Bytes> {
    set k | k in kv.Keys && HasPrefix(k, prefix)
  }

  /** The whole run of a prefix iterator. */
  function IterateKeys<V>(kv: map<Bytes, V>, prefix: Bytes): (ks: seq<Bytes>)
    ensures StrictlySorted(ks)
    ensures forall k :: k in ks <==> k in kv && HasPrefix(k, prefix)
    ensures forall i :: 0 <= i < |ks| ==> ks[i] in kv && HasPrefix(ks[i], prefix)
    ensures forall i, j :: 0 <= i < j < |ks| ==> ks[i] != ks[j]
  {
    var ks := SortedKeys(PrefixKeys(kv, prefix));
    SortedDistinct(ks);
    assert forall i :: 0 <= i < |ks| ==> ks[i] in ks;
    ks
  }

  /** A strictly sorted list has no repeated element. */
  lemma SortedDistinct(ks: seq<Bytes>)
    requires StrictlySorted(ks)
    ensures forall i, j :: 0 <= i < j < |ks| ==> ks[i] != ks[j]
  {
    forall i, j | 0 <= i < j < |ks| ensures ks[i] != ks[j] {
      LessIrreflexive(ks[i]);
    }
  }
}
