/** The set of owners of one capability: a list sorted by owner key, searched by bisection. */
module CapabilityOwners {
  import opened ByteStrings
  import opened CapabilityTypes

  /** `Owner.Key`. */
  function Key(o: Owner): Bytes {
    o.moduleName + [SLASH] + o.name
  }

  /** No module name extends a module name by a separator. */
  ghost predicate SeparatorSafe(modules: set<Bytes>) {
    forall m, n :: m in modules && n in modules ==> !(m + [SLASH] <= n)
  }

  /** Only a module name extended by a separator shares a key with the shorter one. */
  lemma SharedKeyExtends(a: Owner, b: Owner)
    requires Key(a) == Key(b) && |a.moduleName| < |b.moduleName|
    ensures a.moduleName + [SLASH] <= b.moduleName
  {
    var n := |a.moduleName| + 1;
    assert a.moduleName + [SLASH] == Key(a)[..n] == Key(b)[..n] <= b.moduleName;
  }

  /** Among safe module names keys tell owners apart. */
  lemma KeyInjective(modules: set<Bytes>, a: Owner, b: Owner)
    requires SeparatorSafe(modules) && a.moduleName in modules && b.moduleName in modules
    requires Key(a) == Key(b)
    ensures a == b
  {
    var n := |a.moduleName|;
    if n < |b.moduleName| {
      SharedKeyExtends(a, b);
    } else if |b.moduleName| < n {
      SharedKeyExtends(b, a);
    } else {
      assert a.moduleName == Key(a)[..n] == b.moduleName;
      assert a.name == Key(a)[n + 1..] == b.name;
    }
  }

  /** The owner is one that the keeper would store for these modules. */
  predicate Nameable(o: Owner, modules: set<Bytes>) {
    o.moduleName in modules && !Blank(o.name)
  }

  /** Keys tell apart the owners of a set of modules exactly when the set is safe. */
  lemma KeyInjectiveIff(modules: set<Bytes>)
    ensures (forall a: Owner, b: Owner :: Nameable(a, modules) && Nameable(b, modules) && Key(a) == Key(b) ==> a == b)
       <==> SeparatorSafe(modules)
  {
    if SeparatorSafe(modules) {
      forall a: Owner, b: Owner | Nameable(a, modules) && Nameable(b, modules) && Key(a) == Key(b) ensures a == b {
        KeyInjective(modules, a, b);
      }
    } else {
      var m, n :| m in modules && n in modules && m + [SLASH] <= n;
      var a, b := SharedKey(m, n);
      assert Nameable(a, modules) && Nameable(b, modules);
    }
  }

  /** A module name and its extension by a separator share a key. */
  lemma SharedKey(m: Bytes, n: Bytes) returns (a: Owner, b: Owner)
    requires m + [SLASH] <= n
    ensures a == Owner(m, n[|m| + 1..] + [SLASH, 120]) && b == Owner(n, [120])
    ensures !Blank(a.name) && !Blank(b.name) && Key(a) == Key(b) && a != b
  {
    a, b := Owner(m, n[|m| + 1..] + [SLASH, 120]), Owner(n, [120]);
    assert a.name[|a.name| - 1] == 120 && b.name[0] == 120;
    assert 120 in a.name && 120 in b.name;
    assert n == m + [SLASH] + n[|m| + 1..];
    assert Key(a) == Key(b);
  }

  predicate Sorted(owners: seq<Owner>) {
    forall i, j :: 0 <= i < j < |owners| ==> Less(Key(owners[i]), Key(owners[j]))
  }

  predicate HasKey(owners: seq<Owner>, key: Bytes) {
    exists i :: 0 <= i < |owners| && Key(owners[i]) == key
  }

  /** `i` is the first position whose key is not below `key`. */
  predicate IsPosition(owners: seq<Owner>, key: Bytes, i: nat) {
    && i <= |owners|
    && (forall j :: 0 <= j < i ==> Less(Key(owners[j]), key))
    && (forall j :: i <= j < |owners| ==> !Less(Key(owners[j]), key))
  }

  /** A key in use means that its owner is listed, whatever the list and the owner, exactly
      when the modules are safe. */
  lemma KeyMeansOwnerIff(modules: set<Bytes>)
    ensures (forall list, o :: Sorted(list) && (forall x :: x in list ==> Nameable(x, modules)) && Nameable(o, modules)
              ==> (HasKey(list, Key(o)) <==> o in list))
       <==> SeparatorSafe(modules)
  {
    hide Key, Less;
    if SeparatorSafe(modules) {
      forall list, o | Sorted(list) && (forall x :: x in list ==> Nameable(x, modules)) && Nameable(o, modules)
        ensures HasKey(list, Key(o)) <==> o in list
      {
        if HasKey(list, Key(o)) {
          var i :| 0 <= i < |list| && Key(list[i]) == Key(o);
          assert list[i] in list;
          KeyInjective(modules, list[i], o);
        }
      }
    } else {
      var m, n :| m in modules && n in modules && m + [SLASH] <= n;
      var a, b := SharedKey(m, n);
      var list := [b];
      assert Sorted(list) && Key(list[0]) == Key(a) && a !in list && Nameable(a, modules);
    }
  }

  lemma MemberHasKey(list: seq<Owner>, o: Owner)
    requires o in list
    ensures HasKey(list, Key(o))
  {
  }

  lemma SortedAt(owners: seq<Owner>, i: nat, j: nat)
    requires Sorted(owners) && i < |owners| && j < |owners|
    ensures i < j ==> Less(Key(owners[i]), Key(owners[j]))
  {
  }

  /** At the position a key is found or nowhere. */
  lemma PositionDecides(owners: seq<Owner>, key: Bytes, i: nat)
    requires Sorted(owners) && IsPosition(owners, key, i)
    ensures HasKey(owners, key) <==> i < |owners| && Key(owners[i]) == key
  {
    if HasKey(owners, key) {
      var j :| 0 <= j < |owners| && Key(owners[j]) == key;
      LessIrreflexive(key);
      SortedAt(owners, i, j);
    }
  }

  function InsertAt(owners: seq<Owner>, i: nat, o: Owner): seq<Owner>
    requires i <= |owners|
  {
    owners[..i] + [o] + owners[i..]
  }

  function RemoveAt(owners: seq<Owner>, i: nat): seq<Owner>
    requires i < |owners|
  {
    owners[..i] + owners[i + 1..]
  }

  lemma InsertKeepsSorted(owners: seq<Owner>, i: nat, o: Owner)
    requires Sorted(owners) && IsPosition(owners, Key(o), i) && !HasKey(owners, Key(o))
    ensures Sorted(InsertAt(owners, i, o))
    ensures forall x :: x in InsertAt(owners, i, o) <==> x in owners || x == o
  {
    hide Key, Less;
    var r := InsertAt(owners, i, o);
    forall j | i <= j < |owners| ensures Less(Key(o), Key(owners[j])) {
      LessTotal(Key(o), Key(owners[j]));
    }
    forall j, k | 0 <= j < k < |r| ensures Less(Key(r[j]), Key(r[k])) {
      var j', k' := if j < i then j else j - 1, if k < i then k else k - 1;
      assert j != i ==> r[j] == owners[j'];
      assert k != i ==> r[k] == owners[k'];
    }
    assert owners == owners[..i] + owners[i..];
  }

  lemma RemoveKeepsSorted(owners: seq<Owner>, i: nat)
    requires Sorted(owners) && i < |owners|
    ensures Sorted(RemoveAt(owners, i))
    ensures forall x :: x in RemoveAt(owners, i) <==> x in owners && x != owners[i]
  {
    hide Key, Less;
    var r := RemoveAt(owners, i);
    forall j, k | 0 <= j < k < |r| ensures Less(Key(r[j]), Key(r[k])) {
      var j', k' := if j < i then j else j + 1, if k < i then k else k + 1;
      assert r[j] == owners[j'] && r[k] == owners[k'];
    }
    assert owners == owners[..i] + [owners[i]] + owners[i + 1..];
    forall j | 0 <= j < |owners| && j != i ensures owners[j] != owners[i] {
      LessIrreflexive(Key(owners[i]));
    }
  }

  lemma SortedDistinct(owners: seq<Owner>)
    requires Sorted(owners)
    ensures forall i, j :: 0 <= i < j < |owners| ==> owners[i] != owners[j]
  {
    forall i, j | 0 <= i < j < |owners| ensures owners[i] != owners[j] {
      LessIrreflexive(Key(owners[i]));
    }
  }

  /** A sorted list is determined by its members. */
  lemma {:induction false} SortedUnique(a: seq<Owner>, b: seq<Owner>)
    requires Sorted(a) && Sorted(b)
    requires forall x :: x in a <==> x in b
    ensures a == b
    decreases |a|
  {
    hide Key, Less;
    assert b != [] ==> b[0] in b;
    if a != [] {
      assert a[0] in b && b != [] && b[0] in a;
      FirstsAgree(a, b);
      RemoveKeepsSorted(a, 0);
      RemoveKeepsSorted(b, 0);
      assert RemoveAt(a, 0) == a[1..] && RemoveAt(b, 0) == b[1..];
      SortedUnique(a[1..], b[1..]);
      assert a == [a[0]] + a[1..] && b == [b[0]] + b[1..];
    }
  }

  lemma FirstsAgree(a: seq<Owner>, b: seq<Owner>)
    requires Sorted(a) && Sorted(b) && a != [] && b != []
    requires a[0] in b && b[0] in a
    ensures a[0] == b[0]
  {
    hide Key, Less;
    var i :| 0 <= i < |b| && b[i] == a[0];
    var j :| 0 <= j < |a| && a[j] == b[0];
    if i > 0 && j > 0 {
      LessAsymmetric(Key(a[0]), Key(b[0]));
    }
  }

  class Owners {
    var owners: seq<Owner>

    constructor (initial: seq<Owner>)
      ensures owners == initial
    {
      owners := initial;
    }

    /** `Get`: bisection (`sort.Search`) finds the position of the key, and whether it is
        there, as a linear search would. */
    method Get(o: Owner) returns (i: nat, ok: bool)
      requires Sorted(owners)
      ensures IsPosition(owners, Key(o), i)
      ensures ok <==> HasKey(owners, Key(o))
      ensures ok ==> i < |owners| && Key(owners[i]) == Key(o)
    {
      hide Key, Less;
      var lo: nat, hi: nat := 0, |owners|;
      while lo < hi
        invariant lo <= hi <= |owners|
        invariant forall j :: 0 <= j < lo ==> Less(Key(owners[j]), Key(o))
        invariant forall j :: hi <= j < |owners| ==> !Less(Key(owners[j]), Key(o))
      {
        var mid := (lo + hi) / 2;
        if Less(Key(owners[mid]), Key(o)) {
          forall j | 0 <= j < mid ensures Less(Key(owners[j]), Key(o)) {
            LessTransitive(Key(owners[j]), Key(owners[mid]), Key(o));
          }
          lo := mid + 1;
        } else {
          forall j | mid < j < |owners| ensures !Less(Key(owners[j]), Key(o)) {
            if Less(Key(owners[j]), Key(o)) {
              LessTransitive(Key(owners[mid]), Key(owners[j]), Key(o));
            }
          }
          hi := mid;
        }
      }
      PositionDecides(owners, Key(o), lo);
      return lo, lo < |owners| && Key(owners[lo]) == Key(o);
    }

    /** `Set`: an owner whose key is taken is refused, any other is added in order. */
    method Set(o: Owner) returns (ok: bool)
      requires Sorted(owners)
      modifies this
      ensures ok <==> !HasKey(old(owners), Key(o))
      ensures Sorted(owners)
      ensures !ok ==> owners == old(owners)
      ensures ok ==> |owners| == |old(owners)| + 1 && forall x :: x in owners <==> x in old(owners) || x == o
    {
      var i, taken := Get(o);
      if taken {
        return false;
      }
      InsertKeepsSorted(owners, i, o);
      owners := InsertAt(owners, i, o);
      return true;
    }

    /** `Remove`: the owner with that key goes, if there is one. */
    method Remove(o: Owner)
      requires Sorted(owners)
      modifies this
      ensures Sorted(owners)
      ensures !HasKey(old(owners), Key(o)) ==> owners == old(owners)
      ensures HasKey(old(owners), Key(o)) ==>
                |owners| == |old(owners)| - 1
                && forall x :: x in owners <==> x in old(owners) && Key(x) != Key(o)
    {
      if |owners| == 0 {
        return;
      }
      var i, found := Get(o);
      if found {
        RemoveKeepsSorted(owners, i);
        KeyMarksOne(owners, i);
        owners := RemoveAt(owners, i);
      }
    }
  }

  /** In a sorted list only the member at `i` has its key. */
  lemma KeyMarksOne(owners: seq<Owner>, i: nat)
    requires Sorted(owners) && i < |owners|
    ensures forall x :: x in owners ==> (Key(x) == Key(owners[i]) <==> x == owners[i])
  {
    hide Key, Less;
    forall j | 0 <= j < |owners| && Key(owners[j]) == Key(owners[i]) ensures j == i {
      LessIrreflexive(Key(owners[i]));
    }
  }
}
