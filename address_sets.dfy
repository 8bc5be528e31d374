/**
 * Sorted sets of addresses, as `TreeSet(addresses)` builds them: the
 * distinct addresses of a list in compareTo order. The expression checks
 * and the fetch-group check both walk such a set and ask whether it is one
 * unbroken run of addresses.
 */
module AddressSets {
  import opened AddressClasses
  import opened Addresses

  /** Strictly ascending in compareTo order. */
  predicate Increasing(s: seq<Address>)
  {
    forall i, j :: 0 <= i < j < |s| ==> SortKey(s[i]) < SortKey(s[j])
  }

  /** No address occurs twice. */
  predicate Distinct(s: seq<Address>)
  {
    forall i, j :: 0 <= i < j < |s| ==> s[i] != s[j]
  }

  /** Every next address is the previous one plus one, in the same class. */
  predicate Consecutive(s: seq<Address>)
  {
    forall i :: 0 < i < |s| ==>
      s[i].addressClass == s[i - 1].addressClass && s[i].physicalAddress == s[i - 1].physicalAddress + 1
  }

  /** `add` on a TreeSet: x put in its place, unless it is there already. */
  function Insert(x: Address, s: seq<Address>): (r: seq<Address>)
    requires Increasing(s)
    ensures Increasing(r)
    ensures forall a :: a in r <==> a == x || a in s
    ensures |r| == if x in s then |s| else |s| + 1
  {
    if |s| == 0 then [x]
    else if x == s[0] then s
    else if SortKey(x) < SortKey(s[0]) then
      SortKeysDistinct(x, s);
      [x] + s
    else
      CompareSortKey(x, s[0]);
      var t := Insert(x, s[1..]);
      assert forall a :: a in s[1..] ==> SortKey(s[0]) < SortKey(a);
      assert forall k :: 0 <= k < |t| ==> t[k] in t && SortKey(s[0]) < SortKey(t[k]);
      [s[0]] + t
  }

  /** An address below the first of an ascending list is not in it. */
  lemma SortKeysDistinct(x: Address, s: seq<Address>)
    requires Increasing(s) && |s| > 0 && SortKey(x) < SortKey(s[0])
    ensures x !in s
  {
  }

  /** `TreeSet(addresses)` as a list: the distinct addresses, ascending. */
  function SortedSet(s: seq<Address>): (r: seq<Address>)
    ensures Increasing(r)
    ensures forall a :: a in r <==> a in s
    ensures |r| <= |s|
    ensures |r| == |s| <==> Distinct(s)
  {
    if |s| == 0 then []
    else
      var rest := SortedSet(s[1..]);
      assert forall a :: a in s <==> a == s[0] || a in s[1..];
      DistinctCons(s);
      Insert(s[0], rest)
  }

  lemma DistinctCons(s: seq<Address>)
    requires |s| > 0
    ensures Distinct(s) <==> s[0] !in s[1..] && Distinct(s[1..])
  {
    if Distinct(s) {
      forall i, j | 0 <= i < j < |s| - 1
        ensures s[1..][i] != s[1..][j]
      {
        assert s[1..][i] == s[i + 1] && s[1..][j] == s[j + 1];
      }
    }
    if s[0] !in s[1..] && Distinct(s[1..]) {
      forall i, j | 0 <= i < j < |s|
        ensures s[i] != s[j]
      {
        if i == 0 {
          assert s[j] == s[1..][j - 1];
        } else {
          assert s[i] == s[1..][i - 1] && s[j] == s[1..][j - 1];
        }
      }
    }
  }

  /** An ascending list is its own sorted set. */
  lemma {:induction false} SortedSetOfIncreasing(s: seq<Address>)
    requires Increasing(s)
    ensures SortedSet(s) == s
  {
    if |s| > 0 {
      SortedSetOfIncreasing(s[1..]);
      assert SortedSet(s[1..]) == s[1..];
      if |s| > 1 {
        assert SortKey(s[0]) < SortKey(s[1..][0]);
      }
    }
  }

  /** In an ascending list, the keys of positions i <= j lie at least j - i apart. */
  lemma {:induction false} KeysSpread(s: seq<Address>, i: int, j: int)
    requires Increasing(s) && 0 <= i <= j < |s|
    ensures SortKey(s[j]) - SortKey(s[i]) >= j - i
    decreases j - i
  {
    if i < j {
      KeysSpread(s, i, j - 1);
    }
  }

  /** Addresses of one class are apart in key exactly as they are apart in physical address. */
  lemma SameClassKeys(a: Address, b: Address)
    requires a.addressClass == b.addressClass
    ensures SortKey(b) - SortKey(a) == b.physicalAddress - a.physicalAddress
  {
  }

  /** A key between two keys of one class belongs to that class, at the matching offset. */
  lemma KeyBetween(a: Address, x: Address, b: Address)
    requires a.addressClass == b.addressClass
    requires SortKey(a) <= SortKey(x) <= SortKey(b)
    ensures x.addressClass == a.addressClass
    ensures x.physicalAddress - a.physicalAddress == SortKey(x) - SortKey(a)
  {
    OrdinalInjective(x.addressClass, a.addressClass);
  }

  /**
   * An ascending list is one run exactly when its last address is its first
   * moved on by the length minus one, in the same class.
   */
  lemma ConsecutiveSpan(s: seq<Address>)
    requires Increasing(s) && |s| > 0
    ensures Consecutive(s) <==>
      s[|s| - 1].addressClass == s[0].addressClass && s[|s| - 1].physicalAddress == s[0].physicalAddress + |s| - 1
  {
    var n := |s|;
    if Consecutive(s) {
      ConsecutiveOffsets(s);
    }
    if s[n - 1].addressClass == s[0].addressClass && s[n - 1].physicalAddress == s[0].physicalAddress + n - 1 {
      forall i | 0 <= i < n
        ensures s[i].addressClass == s[0].addressClass && s[i].physicalAddress == s[0].physicalAddress + i
      {
        KeysSpread(s, 0, i);
        KeysSpread(s, i, n - 1);
        SameClassKeys(s[0], s[n - 1]);
        KeyBetween(s[0], s[i], s[n - 1]);
      }
      forall i | 0 < i < n
        ensures s[i].addressClass == s[i - 1].addressClass && s[i].physicalAddress == s[i - 1].physicalAddress + 1
      {
        assert s[i - 1].addressClass == s[0].addressClass && s[i - 1].physicalAddress == s[0].physicalAddress + i - 1;
      }
    }
  }

  /** A run holds the first address moved on by each position. */
  lemma ConsecutiveOffsets(s: seq<Address>)
    requires Consecutive(s) && |s| > 0
    ensures forall i :: 0 <= i < |s| ==>
      s[i].addressClass == s[0].addressClass && s[i].physicalAddress == s[0].physicalAddress + i
  {
    var i := 1;
    while i < |s|
      invariant 1 <= i <= |s|
      invariant forall k :: 0 <= k < i ==> s[k].addressClass == s[0].addressClass && s[k].physicalAddress == s[0].physicalAddress + k
    {
      assert s[i].addressClass == s[i - 1].addressClass;
      i := i + 1;
    }
  }

  /** A run of n addresses holds exactly the addresses of its class from its first one on, n of them. */
  lemma ConsecutiveRange(s: seq<Address>)
    requires Consecutive(s) && |s| > 0
    ensures forall a :: a in s <==>
      a.addressClass == s[0].addressClass && s[0].physicalAddress <= a.physicalAddress < s[0].physicalAddress + |s|
  {
    ConsecutiveOffsets(s);
    forall a: Address | a.addressClass == s[0].addressClass && s[0].physicalAddress <= a.physicalAddress < s[0].physicalAddress + |s|
      ensures a in s
    {
      var k := a.physicalAddress - s[0].physicalAddress;
      assert s[k] == a;
    }
  }
}
