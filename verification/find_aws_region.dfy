/** First-match lookup of the region whose published IP prefix contains an address. */
module FindAwsRegion {
  import opened Wrappers
  import opened IpNetwork

  /** One element of the published `prefixes` list: a network and the region it belongs to. */
  datatype PrefixEntry = PrefixEntry(network: Network, region: string)

  /** The result reported when no prefix contains the address. */
  const Unknown: string := "Unknown"

  /** Index of the first entry whose network contains `addr`, or `None` when no entry does. */
  function FirstMatch(prefixes: seq<PrefixEntry>, addr: Address): (r: Option<nat>)
    ensures r.Some? ==> r.value < |prefixes| && Contains(prefixes[r.value].network, addr)
    ensures r.Some? ==> forall j :: 0 <= j < r.value ==> !Contains(prefixes[j].network, addr)
    ensures r.None? <==> forall j :: 0 <= j < |prefixes| ==> !Contains(prefixes[j].network, addr)
  {
    if |prefixes| == 0 then None
    else if Contains(prefixes[0].network, addr) then Some(0)
    else
      match FirstMatch(prefixes[1..], addr)
      case None => None
      case Some(k) => Some(k + 1)
  }

  /** The region the lookup returns: that of the first containing entry, else `Unknown`. */
  function FindRegion(prefixes: seq<PrefixEntry>, addr: Address): (r: string)
    ensures r == Unknown || exists i :: 0 <= i < |prefixes| && prefixes[i].region == r
  {
    match FirstMatch(prefixes, addr)
    case None => Unknown
    case Some(k) => prefixes[k].region
  }

  /** The lookup loop: scan in document order, record and print the region of the first
      containing prefix, and stop. `printed` is what the lookup writes to standard output. */
  method FindAwsRegion(prefixes: seq<PrefixEntry>, myIp: Address) returns (region: string, printed: seq<string>)
    ensures forall k :: 0 <= k < |prefixes| && Contains(prefixes[k].network, myIp)
              && (forall j :: 0 <= j < k ==> !Contains(prefixes[j].network, myIp))
              ==> region == prefixes[k].region && printed == [region]
    ensures (forall k :: 0 <= k < |prefixes| ==> !Contains(prefixes[k].network, myIp))
              ==> region == Unknown && printed == []
    ensures |printed| <= 1 && (printed != [] ==> printed == [region])
    ensures region == FindRegion(prefixes, myIp)
  {
    region := Unknown;
    printed := [];
    var i := 0;
    while i < |prefixes|
      invariant 0 <= i <= |prefixes|
      invariant forall j :: 0 <= j < i ==> !Contains(prefixes[j].network, myIp)
      invariant region == Unknown && printed == []
    {
      if Contains(prefixes[i].network, myIp) {
        region := prefixes[i].region;
        printed := printed + [region];
        assert FirstMatch(prefixes, myIp) == Some(i);
        return;
      }
      i := i + 1;
    }
  }

  /** The first containing entry decides the result. */
  lemma FirstContainingEntryWins(prefixes: seq<PrefixEntry>, addr: Address, k: nat)
    requires k < |prefixes| && Contains(prefixes[k].network, addr)
    requires forall j :: 0 <= j < k ==> !Contains(prefixes[j].network, addr)
    ensures FindRegion(prefixes, addr) == prefixes[k].region
  {
    var m := FirstMatch(prefixes, addr);
    assert m.Some?;
    assert m.value == k;
  }

  /** Without a containing entry the result is `Unknown`. */
  lemma NoContainingEntryIsUnknown(prefixes: seq<PrefixEntry>, addr: Address)
    requires forall j :: 0 <= j < |prefixes| ==> !Contains(prefixes[j].network, addr)
    ensures FindRegion(prefixes, addr) == Unknown
  {
    assert FirstMatch(prefixes, addr).None?;
  }

  /** Of two overlapping entries that both contain the address, the earlier one wins. */
  lemma OverlapEarlierWins(prefixes: seq<PrefixEntry>, addr: Address, i: nat, j: nat)
    requires i < j < |prefixes|
    requires Contains(prefixes[i].network, addr) && Contains(prefixes[j].network, addr)
    requires forall m :: 0 <= m < i ==> !Contains(prefixes[m].network, addr)
    ensures FindRegion(prefixes, addr) == prefixes[i].region
  {
    FirstContainingEntryWins(prefixes, addr, i);
  }

  /** Entries after a match do not matter, even when they overlap it; if no entry matches,
      the lookup continues into the appended ones. */
  lemma {:induction false} FirstMatchAppend(prefixes: seq<PrefixEntry>, rest: seq<PrefixEntry>, addr: Address)
    ensures FirstMatch(prefixes, addr).Some? ==> FirstMatch(prefixes + rest, addr) == FirstMatch(prefixes, addr)
    ensures FirstMatch(prefixes, addr).None? ==>
              FirstMatch(prefixes + rest, addr) ==
                (match FirstMatch(rest, addr)
                 case None => None
                 case Some(k) => Some(|prefixes| + k))
  {
    if |prefixes| > 0 {
      assert (prefixes + rest)[0] == prefixes[0];
      if !Contains(prefixes[0].network, addr) {
        assert (prefixes + rest)[1..] == prefixes[1..] + rest;
        FirstMatchAppend(prefixes[1..], rest, addr);
      }
    } else {
      assert prefixes + rest == rest;
    }
  }

  /** The result depends only on the list up to and including the first match. */
  lemma LaterEntriesIgnored(prefixes: seq<PrefixEntry>, rest: seq<PrefixEntry>, addr: Address)
    requires exists k :: 0 <= k < |prefixes| && Contains(prefixes[k].network, addr)
    ensures FindRegion(prefixes + rest, addr) == FindRegion(prefixes, addr)
  {
    FirstMatchAppend(prefixes, rest, addr);
  }

  /** When nothing in `prefixes` matches, the lookup over `prefixes + rest` is the lookup over `rest`. */
  lemma NonMatchingPrefixSkipped(prefixes: seq<PrefixEntry>, rest: seq<PrefixEntry>, addr: Address)
    requires forall j :: 0 <= j < |prefixes| ==> !Contains(prefixes[j].network, addr)
    ensures FindRegion(prefixes + rest, addr) == FindRegion(rest, addr)
  {
    FirstMatchAppend(prefixes, rest, addr);
  }

  /** Putting an entry that does not contain the address in front of the list does not change the result. */
  lemma PrependNonMatching(e: PrefixEntry, prefixes: seq<PrefixEntry>, addr: Address)
    requires !Contains(e.network, addr)
    ensures FindRegion([e] + prefixes, addr) == FindRegion(prefixes, addr)
  {
    NonMatchingPrefixSkipped([e], prefixes, addr);
  }

  /** An address of the other IP version than every entry is never found. */
  lemma OtherVersionIsUnknown(prefixes: seq<PrefixEntry>, addr: Address)
    requires forall j :: 0 <= j < |prefixes| ==> prefixes[j].network.version != addr.version
    ensures FindRegion(prefixes, addr) == Unknown
  {
    NoContainingEntryIsUnknown(prefixes, addr);
  }
}
