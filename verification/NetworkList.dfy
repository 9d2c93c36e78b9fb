/** The network list of the configuration page (libraries/WiFiManager/WiFiManager.cpp:459-493). */
module NetworkList {

  /** The results of a scan, which stay the same while the list is made. */
  datatype Network = Network(ssid: string, rssi: int)

  function Identity(n: nat): (s: seq<int>)
    ensures |s| == n
  {
    seq(n, i => i)
  }

  /** s lists every network of the scan once. */
  ghost predicate Lists(s: seq<int>, scan: seq<Network>) {
    multiset(s) == multiset(Identity(|scan|))
  }

  lemma {:induction false} ListsAll(s: seq<int>, scan: seq<Network>)
    requires Lists(s, scan)
    ensures |s| == |scan|
    ensures forall p :: 0 <= p < |s| ==> 0 <= s[p] < |scan|
    ensures forall k :: 0 <= k < |scan| ==> k in s
  {
    var all := Identity(|scan|);
    assert |multiset(s)| == |s| && |multiset(all)| == |all|;
    forall p | 0 <= p < |s| ensures 0 <= s[p] < |scan| {
      assert s[p] in multiset(s);
      assert s[p] in multiset(all);
      assert s[p] in all;
    }
    forall k | 0 <= k < |scan| ensures k in s {
      assert all[k] == k;
      assert k in multiset(all);
      assert k in multiset(s);
    }
  }

  ghost predicate Refers(s: seq<int>, scan: seq<Network>) {
    |s| == |scan| && forall p :: 0 <= p < |s| ==> 0 <= s[p] < |scan|
  }

  /** The first i entries are at least as strong as every entry after them. */
  ghost predicate SortedUpTo(s: seq<int>, scan: seq<Network>, i: int)
    requires Refers(s, scan)
  {
    forall p, q :: 0 <= p < q < |s| && p < i ==> scan[s[p]].rssi >= scan[s[q]].rssi
  }

  /** Entry i is at least as strong as those after it up to j. */
  ghost predicate Leads(s: seq<int>, scan: seq<Network>, i: nat, j: nat)
    requires Refers(s, scan)
  {
    forall q :: i < q < j && q < |s| ==> scan[s[i]].rssi >= scan[s[q]].rssi
  }

  function Swapped(s: seq<int>, i: nat, j: nat): seq<int>
    requires i < |s| && j < |s|
  {
    s[i := s[j]][j := s[i]]
  }

  lemma {:induction false} SwapKeeps(s: seq<int>, scan: seq<Network>, i: nat, j: nat)
    requires Lists(s, scan) && Refers(s, scan) && i < j < |s|
    requires SortedUpTo(s, scan, i) && Leads(s, scan, i, j) && scan[s[j]].rssi > scan[s[i]].rssi
    ensures var t := Swapped(s, i, j);
            Lists(t, scan) && Refers(t, scan) && SortedUpTo(t, scan, i) && Leads(t, scan, i, j + 1)
  {
    var t := Swapped(s, i, j);
    assert multiset(t) == multiset(s);
    assert Refers(t, scan);
    forall p, q | 0 <= p < q < |t| && p < i ensures scan[t[p]].rssi >= scan[t[q]].rssi {
      var was := if q == i then j else if q == j then i else q;
      assert t[p] == s[p] && t[q] == s[was];
    }
  }

  method FillIndices(scan: seq<Network>) returns (indices: array<int>)
    ensures fresh(indices) && indices[..] == Identity(|scan|)
  {
    var n := |scan|;
    indices := new int[n];
    for i := 0 to n
      invariant forall k :: 0 <= k < i ==> indices[k] == k
    {
      indices[i] := i;
    }
    assert indices[..] == Identity(n);
  }

  /** The sort is by exchanging, strongest first. */
  method SortByRssi(indices: array<int>, scan: seq<Network>)
    requires Lists(indices[..], scan)
    modifies indices
    ensures Lists(indices[..], scan) && Refers(indices[..], scan)
    ensures SortedUpTo(indices[..], scan, |scan|)
  {
    ListsAll(indices[..], scan);
    for i := 0 to indices.Length
      invariant Lists(indices[..], scan) && Refers(indices[..], scan)
      invariant SortedUpTo(indices[..], scan, i)
    {
      ExchangeFrom(indices, scan, i);
    }
  }

  /** The inner loop brings the strongest of the remaining entries to position i. */
  method ExchangeFrom(indices: array<int>, scan: seq<Network>, i: nat)
    requires Lists(indices[..], scan) && Refers(indices[..], scan) && i < indices.Length
    requires SortedUpTo(indices[..], scan, i)
    modifies indices
    ensures Lists(indices[..], scan) && Refers(indices[..], scan)
    ensures SortedUpTo(indices[..], scan, i + 1)
  {
    for j := i + 1 to indices.Length
      invariant Lists(indices[..], scan) && Refers(indices[..], scan)
      invariant SortedUpTo(indices[..], scan, i) && Leads(indices[..], scan, i, j)
    {
      ghost var s := indices[..];
      if scan[indices[j]].rssi > scan[indices[i]].rssi {
        SwapKeeps(s, scan, i, j);
        indices[i], indices[j] := indices[j], indices[i];
        assert indices[..] == Swapped(s, i, j);
      }
    }
  }

  // ---------------------------------------------------------------- duplicates

  /** An entry before limit has the same name as entry p. */
  ghost predicate NamedBefore(s: seq<int>, scan: seq<Network>, p: nat, limit: int)
    requires Refers(s, scan) && p < |s|
  {
    exists q :: 0 <= q < p && q < limit && scan[s[q]].ssid == scan[s[p]].ssid
  }

  /** The list when the entries before limit have removed their duplicates. */
  ghost predicate Cleaned(s: seq<int>, t: seq<int>, scan: seq<Network>, limit: int)
    requires Refers(s, scan)
  {
    |t| == |s| && forall p :: 0 <= p < |s| ==> t[p] == if NamedBefore(s, scan, p, limit) then -1 else s[p]
  }

  /** The list while entry i removes its duplicates and has come to j. */
  ghost predicate Cleaning(s: seq<int>, t: seq<int>, scan: seq<Network>, i: nat, j: nat)
    requires Refers(s, scan)
  {
    |t| == |s| && forall p :: 0 <= p < |s| ==>
      t[p] == if NamedBefore(s, scan, p, if p < j then i + 1 else i) then -1 else s[p]
  }

  /** What the library answers for an index: nothing is assumed about other indices than those of the scan, not
      even that it answers the same again. */
  method Ssid(scan: seq<Network>, i: int) returns (ssid: string)
    ensures 0 <= i < |scan| ==> ssid == scan[i].ssid
  {
    ssid := *;
    if 0 <= i < |scan| {
      ssid := scan[i].ssid;
    }
  }

  lemma {:induction false} CleaningStep(s: seq<int>, t: seq<int>, scan: seq<Network>, i: nat, j: nat)
    requires Refers(s, scan) && i < j < |s| && Cleaning(s, t, scan, i, j)
    ensures Cleaning(s, if scan[s[i]].ssid == scan[s[j]].ssid then t[j := -1] else t, scan, i, j + 1)
  {
    assert scan[s[i]].ssid == scan[s[j]].ssid ==> NamedBefore(s, scan, j, i + 1);
  }

  lemma {:induction false} NothingNew(s: seq<int>, t: seq<int>, scan: seq<Network>, i: nat)
    requires Refers(s, scan) && i < |s| && Cleaned(s, t, scan, i) && t[i] == -1
    ensures Cleaned(s, t, scan, i + 1)
  {
    assert NamedBefore(s, scan, i, i);
    var first :| 0 <= first < i && scan[s[first]].ssid == scan[s[i]].ssid;
    forall p | 0 <= p < |s| ensures NamedBefore(s, scan, p, i + 1) <==> NamedBefore(s, scan, p, i) {
      if NamedBefore(s, scan, p, i + 1) {
        var q :| 0 <= q < p && q < i + 1 && scan[s[q]].ssid == scan[s[p]].ssid;
        if q == i { assert first < p && scan[s[first]].ssid == scan[s[p]].ssid; }
      }
    }
  }

  method RemoveDuplicates(indices: array<int>, scan: seq<Network>)
    requires Refers(indices[..], scan)
    modifies indices
    ensures Cleaned(old(indices[..]), indices[..], scan, |scan|)
  {
    ghost var s := indices[..];
    for i := 0 to indices.Length
      invariant Cleaned(s, indices[..], scan, i)
    {
      if indices[i] == -1 {
        NothingNew(s, indices[..], scan, i);
        continue;
      }
      assert indices[i] == s[i];
      var cssid := Ssid(scan, indices[i]);
      RemoveDuplicatesOf(indices, scan, i, cssid, s);
    }
  }

  method RemoveDuplicatesOf(indices: array<int>, scan: seq<Network>, i: nat, cssid: string,
                            ghost s: seq<int>)
    requires Refers(s, scan) && Cleaned(s, indices[..], scan, i) && i < |s| && cssid == scan[s[i]].ssid
    modifies indices
    ensures Cleaned(s, indices[..], scan, i + 1)
  {
    for j := i + 1 to indices.Length
      invariant Cleaning(s, indices[..], scan, i, j)
    {
      CleaningStep(s, indices[..], scan, i, j);
      var ssid := Ssid(scan, indices[j]);
      if cssid == ssid {
        indices[j] := -1;
      }
    }
  }

  // ---------------------------------------------------------------- the finished list

  /** Survivors have different names, are in order of strength, and every name of the scan has a survivor
      that is as strong as any network of that name. */
  ghost predicate Finished(t: seq<int>, scan: seq<Network>) {
    && |t| == |scan|
    && (forall p :: 0 <= p < |t| ==> t[p] == -1 || 0 <= t[p] < |scan|)
    && (forall p, q :: 0 <= p < q < |t| && t[p] != -1 && t[q] != -1 ==>
          scan[t[p]].ssid != scan[t[q]].ssid && scan[t[p]].rssi >= scan[t[q]].rssi)
    && (forall k :: 0 <= k < |scan| ==> Represented(t, scan, k))
  }

  ghost predicate Represented(t: seq<int>, scan: seq<Network>, k: nat)
    requires k < |scan|
  {
    exists p :: 0 <= p < |t| && 0 <= t[p] < |scan| && scan[t[p]].ssid == scan[k].ssid && scan[t[p]].rssi >= scan[k].rssi
  }

  lemma {:induction false} FirstOfName(s: seq<int>, scan: seq<Network>, p: nat) returns (first: nat)
    requires Refers(s, scan) && p < |s|
    ensures first <= p && scan[s[first]].ssid == scan[s[p]].ssid && !NamedBefore(s, scan, first, |s|)
  {
    first := p;
    if NamedBefore(s, scan, p, |s|) {
      var q :| 0 <= q < p && scan[s[q]].ssid == scan[s[p]].ssid;
      first := FirstOfName(s, scan, q);
    }
  }

  lemma {:induction false} CleanedIsFinished(s: seq<int>, t: seq<int>, scan: seq<Network>)
    requires Lists(s, scan) && Refers(s, scan) && SortedUpTo(s, scan, |scan|) && Cleaned(s, t, scan, |scan|)
    ensures Finished(t, scan)
  {
    forall k | 0 <= k < |scan| ensures Represented(t, scan, k) {
      ListsAll(s, scan);
      assert k in s;
      var p :| 0 <= p < |s| && s[p] == k;
      var first := FirstOfName(s, scan, p);
      assert t[first] == s[first];
    }
    forall p, q | 0 <= p < q < |t| && t[p] != -1 && t[q] != -1
      ensures scan[t[p]].ssid != scan[t[q]].ssid && scan[t[p]].rssi >= scan[t[q]].rssi
    {
      assert !NamedBefore(s, scan, q, |scan|);
      assert t[p] == s[p] && t[q] == s[q];
    }
  }

  /** The whole list: with the removal of duplicates it is finished, without it is all networks in order. */
  method MakeList(scan: seq<Network>, removeDuplicateAPs: bool) returns (indices: array<int>)
    ensures removeDuplicateAPs ==> Finished(indices[..], scan)
    ensures !removeDuplicateAPs ==>
              Lists(indices[..], scan) && Refers(indices[..], scan) && SortedUpTo(indices[..], scan, |scan|)
  {
    indices := FillIndices(scan);
    SortByRssi(indices, scan);
    if removeDuplicateAPs {
      ghost var s := indices[..];
      RemoveDuplicates(indices, scan);
      CleanedIsFinished(s, indices[..], scan);
    }
  }
}
