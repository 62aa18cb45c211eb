/** The Route53 hostname dumper: zone-id extraction, record-set pagination, hostname filtering
    and the fold over named profiles that ends in a de-duplicated set. */
module Route53SubdomainDump {
  import opened Wrappers
  import opened PyStr

  /** What ends the run early, since none of it is caught: no profile on the command line; a
      Route53 client that could not be built or whose `list_hosted_zones` call raised (for example
      credentials the service rejects), with the exception's message; or a zone `Id` with fewer
      than three `/`-separated segments (the `IndexError` of `split('/')[2]`). */
  datatype DumpError = MissingProfiles | ServiceError(message: string) | IndexError(id: string)

  /** One entry of the zone listing's `HostedZones`: its keys with their string values. */
  datatype HostedZone = HostedZone(fields: map<string, string>)

  /** The zone listing response; `hostedZones` is `None` when the response has no `HostedZones` key. */
  datatype ListHostedZonesResponse = ListHostedZonesResponse(hostedZones: Option<seq<HostedZone>>)

  /** One page of `list_resource_record_sets`, reduced to the `Name` of each record set in order. */
  type Page = seq<string>

  /** A profile whose session was created: the outcome of building its client and listing the
      zones (the response, or the `ServiceError` raised), and the pages its paginator yields for
      each zone id. */
  datatype Client = Client(listing: Result<ListHostedZonesResponse, DumpError>, paginate: string -> seq<Page>)

  // ----- concatenation -----

  /** The elements of every inner sequence, in order. */
  function Concat<T>(xss: seq<seq<T>>): seq<T>
  {
    if |xss| == 0 then [] else Concat(xss[..|xss| - 1]) + xss[|xss| - 1]
  }

  lemma {:induction false} ConcatAppend<T>(a: seq<seq<T>>, b: seq<seq<T>>)
    ensures Concat(a + b) == Concat(a) + Concat(b)
  {
    if |b| > 0 {
      ConcatAppend(a, b[..|b| - 1]);
      assert (a + b)[..|a + b| - 1] == a + b[..|b| - 1];
    } else {
      assert a + b == a;
    }
  }

  /** An element is in the concatenation exactly when it is in one of the inner sequences. */
  lemma {:induction false} ConcatMembership<T>(xss: seq<seq<T>>, x: T)
    ensures x in Concat(xss) <==> exists i :: 0 <= i < |xss| && x in xss[i]
  {
    if |xss| > 0 {
      ConcatMembership(xss[..|xss| - 1], x);
      if x in xss[|xss| - 1] {
        assert x in Concat(xss);
      }
      if exists i :: 0 <= i < |xss| - 1 && x in xss[i] {
        var i :| 0 <= i < |xss| - 1 && x in xss[i];
        assert xss[..|xss| - 1][i] == xss[i];
      }
      if x in Concat(xss[..|xss| - 1]) {
        var i :| 0 <= i < |xss| - 1 && x in xss[..|xss| - 1][i];
        assert x in xss[i];
      }
    }
  }

  // ----- get_hosted_zone_ids -----

  /** `id.split('/')[2]`: the third `/`-separated segment; fails when `id` has fewer than two `/`. */
  function ZoneId(id: string): (r: Result<string, DumpError>)
    ensures r.Success? <==> Occurrences(id, '/') >= 2
    ensures r.Success? ==> '/' !in r.value
    ensures r.Failure? ==> r.error == IndexError(id)
  {
    var segments := Split(id, '/');
    if |segments| >= 3 then Success(segments[2]) else Failure(IndexError(id))
  }

  /** The zone id is the segment between the second and the third `/`. */
  lemma ZoneIdOfPath(a: string, b: string, c: string, tail: string)
    requires '/' !in a && '/' !in b && '/' !in c
    requires tail == [] || tail[0] == '/'
    ensures ZoneId(a + "/" + b + "/" + c + tail) == Success(c)
  {
    var id := a + "/" + b + "/" + c + tail;
    assert id == a + ['/'] + (b + ['/'] + (c + tail));
    SplitAtSeparator(a, b + ['/'] + (c + tail), '/');
    SplitAtSeparator(b, c + tail, '/');
    if tail == [] {
      SplitAtSeparator(c, [], '/');
      assert c + tail == c;
    } else {
      SplitAtSeparator(c, tail[1..], '/');
      assert c + tail == c + ['/'] + tail[1..];
    }
  }

  /** The listing's usual shape: `/hostedzone/<id>`. */
  lemma HostedZonePathExample()
    ensures ZoneId("/hostedzone/Z123") == Success("Z123")
  {
    ZoneIdOfPath("", "hostedzone", "Z123", "");
    assert "" + "/" + "hostedzone" + "/" + "Z123" + "" == "/hostedzone/Z123";
  }

  /** An id without two `/` raises. */
  lemma BareIdRaises()
    ensures ZoneId("Z123") == Failure(IndexError("Z123"))
  {
    assert Occurrences("Z123", '/') == 0;
  }

  /** Combines two steps that can raise: the first failure wins, otherwise the values are appended. */
  function AppendResults<T>(r1: Result<seq<T>, DumpError>, r2: Result<seq<T>, DumpError>): Result<seq<T>, DumpError>
  {
    if r1.Failure? then r1 else if r2.Failure? then r2 else Success(r1.value + r2.value)
  }

  lemma AppendResultsAssoc<T>(r1: Result<seq<T>, DumpError>, r2: Result<seq<T>, DumpError>, r3: Result<seq<T>, DumpError>)
    ensures AppendResults(r1, AppendResults(r2, r3)) == AppendResults(AppendResults(r1, r2), r3)
  {
    if r1.Success? && r2.Success? && r3.Success? {
      assert r1.value + (r2.value + r3.value) == (r1.value + r2.value) + r3.value;
    }
  }

  /** The ids of the zones that carry an `Id` key, in listing order; the first malformed `Id` aborts. */
  function ZoneIds(zones: seq<HostedZone>): (r: Result<seq<string>, DumpError>)
    ensures r.Success? <==> forall k :: 0 <= k < |zones| && "Id" in zones[k].fields ==> ZoneId(zones[k].fields["Id"]).Success?
    ensures r.Success? ==> |r.value| <= |zones|
    ensures r.Success? ==> forall k :: 0 <= k < |zones| && "Id" in zones[k].fields ==> ZoneId(zones[k].fields["Id"]).value in r.value
    ensures r.Success? ==> forall id :: id in r.value ==>
              exists k :: 0 <= k < |zones| && "Id" in zones[k].fields && ZoneId(zones[k].fields["Id"]) == Success(id)
    ensures r.Failure? ==> exists k :: 0 <= k < |zones| && "Id" in zones[k].fields && r.error == IndexError(zones[k].fields["Id"])
  {
    if |zones| == 0 then Success([])
    else
      var zone := zones[0];
      if "Id" in zone.fields then
        match ZoneId(zone.fields["Id"])
        case Failure(e) => Failure(e)
        case Success(id) => AppendResults(Success([id]), ZoneIds(zones[1..]))
      else ZoneIds(zones[1..])
  }

  /** Zone-id extraction proceeds zone by zone, so it distributes over a split of the listing. */
  lemma {:induction false} ZoneIdsAppend(a: seq<HostedZone>, b: seq<HostedZone>)
    ensures ZoneIds(a + b) == AppendResults(ZoneIds(a), ZoneIds(b))
  {
    if |a| > 0 {
      assert (a + b)[0] == a[0];
      assert (a + b)[1..] == a[1..] + b;
      ZoneIdsAppend(a[1..], b);
      if "Id" in a[0].fields && ZoneId(a[0].fields["Id"]).Success? {
        AppendResultsAssoc(Success([ZoneId(a[0].fields["Id"]).value]), ZoneIds(a[1..]), ZoneIds(b));
      }
    } else {
      assert a + b == b;
      if ZoneIds(b).Success? {
        assert [] + ZoneIds(b).value == ZoneIds(b).value;
      }
    }
  }

  /** A single zone contributes its id if it carries an `Id` key, and nothing otherwise. */
  lemma ZoneIdsSingle(zone: HostedZone)
    ensures "Id" !in zone.fields ==> ZoneIds([zone]) == Success([])
    ensures "Id" in zone.fields ==>
              ZoneIds([zone]) == (match ZoneId(zone.fields["Id"]) case Failure(e) => Failure(e) case Success(id) => Success([id]))
  {
    assert [zone][1..] == [];
    if "Id" in zone.fields && ZoneId(zone.fields["Id"]).Success? {
      var id := ZoneId(zone.fields["Id"]).value;
      assert [id] + [] == [id];
    }
  }

  /** The test on the listing as written: `('HostedZones' in response.keys() and len(...)) > 0`,
      where the `and` yields `False` (that is, 0) when the key is absent and the length otherwise. */
  predicate ListingHasZones(response: ListHostedZonesResponse)
  {
    var conjunction: int := if response.hostedZones.None? then 0 else |response.hostedZones.value|;
    conjunction > 0
  }

  /** Despite the parenthesisation, the test means "the key is present and the list is non-empty". */
  lemma ListingHasZonesMeansNonEmpty(response: ListHostedZonesResponse)
    ensures ListingHasZones(response) <==> response.hostedZones.Some? && |response.hostedZones.value| > 0
  {
  }

  /** `get_hosted_zone_ids`: a listing call that raised propagates its error; no zones (key absent
      or list empty) gives no ids; otherwise one id per zone carrying `Id`, in order. */
  function GetHostedZoneIds(listing: Result<ListHostedZonesResponse, DumpError>): (r: Result<seq<string>, DumpError>)
    ensures listing.Failure? ==> r == Failure(listing.error)
    ensures listing.Success? && listing.value.hostedZones.None? ==> r == Success([])
    ensures listing.Success? && listing.value.hostedZones.Some? ==> r == ZoneIds(listing.value.hostedZones.value)
  {
    var response :- listing;
    if ListingHasZones(response) then ZoneIds(response.hostedZones.value) else Success([])
  }

  // ----- get_resource_records -----

  /** The pages of each zone, zone by zone. */
  function PagesPerZone(hostedZones: seq<string>, paginate: string -> seq<Page>): (r: seq<seq<Page>>)
    ensures |r| == |hostedZones|
    ensures forall i :: 0 <= i < |hostedZones| ==> r[i] == paginate(hostedZones[i])
  {
    seq(|hostedZones|, i requires 0 <= i < |hostedZones| => paginate(hostedZones[i]))
  }

  /** `get_resource_records`: every page of every zone, zones in order and each zone's pages in order. */
  method GetResourceRecords(hostedZones: seq<string>, paginate: string -> seq<Page>) returns (resourceRecordSets: seq<Page>)
    ensures resourceRecordSets == Concat(PagesPerZone(hostedZones, paginate))
  {
    resourceRecordSets := [];
    var i := 0;
    while i < |hostedZones|
      invariant 0 <= i <= |hostedZones|
      invariant resourceRecordSets == Concat(PagesPerZone(hostedZones[..i], paginate))
    {
      var paginated := paginate(hostedZones[i]);
      var j := 0;
      while j < |paginated|
        invariant 0 <= j <= |paginated|
        invariant resourceRecordSets == Concat(PagesPerZone(hostedZones[..i], paginate)) + paginated[..j]
      {
        resourceRecordSets := resourceRecordSets + [paginated[j]];
        assert paginated[..j + 1] == paginated[..j] + [paginated[j]];
        j := j + 1;
      }
      assert paginated[..j] == paginated;
      assert PagesPerZone(hostedZones[..i + 1], paginate)[..i] == PagesPerZone(hostedZones[..i], paginate);
      i := i + 1;
    }
    assert hostedZones[..i] == hostedZones;
  }

  /** Zero zones give no record sets. */
  lemma NoZonesNoRecords(paginate: string -> seq<Page>)
    ensures Concat(PagesPerZone([], paginate)) == []
  {
  }

  /** The record sets of a list of zones are those of its parts, one after the other. */
  lemma RecordsAppend(a: seq<string>, b: seq<string>, paginate: string -> seq<Page>)
    ensures Concat(PagesPerZone(a + b, paginate)) == Concat(PagesPerZone(a, paginate)) + Concat(PagesPerZone(b, paginate))
  {
    assert PagesPerZone(a + b, paginate) == PagesPerZone(a, paginate) + PagesPerZone(b, paginate);
    ConcatAppend(PagesPerZone(a, paginate), PagesPerZone(b, paginate));
  }

  /** A page is collected exactly when some listed zone yields it. */
  lemma RecordsMembership(hostedZones: seq<string>, paginate: string -> seq<Page>, page: Page)
    ensures page in Concat(PagesPerZone(hostedZones, paginate)) <==>
              exists i :: 0 <= i < |hostedZones| && page in paginate(hostedZones[i])
  {
    ConcatMembership(PagesPerZone(hostedZones, paginate), page);
  }

  // ----- get_subdomains -----

  /** A record name is kept when it contains neither an underscore nor a backslash. */
  predicate IsHostname(name: string)
  {
    '_' !in name && '\\' !in name
  }

  /** The names that pass the filter, in their original order. */
  function FilterHostnames(names: seq<string>): (r: seq<string>)
    ensures |r| <= |names|
  {
    if |names| == 0 then []
    else
      var last := names[|names| - 1];
      FilterHostnames(names[..|names| - 1]) + (if IsHostname(last) then [last] else [])
  }

  /** A name is kept exactly when it occurs in the input and is a hostname. */
  lemma {:induction false} FilterMembership(names: seq<string>, x: string)
    ensures x in FilterHostnames(names) <==> x in names && IsHostname(x)
  {
    if |names| > 0 {
      var init := names[..|names| - 1];
      FilterMembership(init, x);
      assert names == init + [names[|names| - 1]];
    }
  }

  /** Filtering works name by name, so it distributes over concatenation. */
  lemma {:induction false} FilterAppend(a: seq<string>, b: seq<string>)
    ensures FilterHostnames(a + b) == FilterHostnames(a) + FilterHostnames(b)
  {
    if |b| > 0 {
      FilterAppend(a, b[..|b| - 1]);
      assert (a + b)[..|a + b| - 1] == a + b[..|b| - 1];
      assert (a + b)[|a + b| - 1] == b[|b| - 1];
    } else {
      assert a + b == a;
    }
  }

  /** A list of hostnames passes the filter unchanged. */
  lemma {:induction false} FilterKeepsHostnames(names: seq<string>)
    requires forall i :: 0 <= i < |names| ==> IsHostname(names[i])
    ensures FilterHostnames(names) == names
  {
    if |names| > 0 {
      FilterKeepsHostnames(names[..|names| - 1]);
      assert names[..|names| - 1] + [names[|names| - 1]] == names;
    }
  }

  /** Filtering twice is filtering once. */
  lemma FilterIdempotent(names: seq<string>)
    ensures FilterHostnames(FilterHostnames(names)) == FilterHostnames(names)
  {
    var once := FilterHostnames(names);
    assert forall i :: 0 <= i < |once| ==> IsHostname(once[i]) by {
      forall i | 0 <= i < |once|
        ensures IsHostname(once[i])
      {
        FilterMembership(names, once[i]);
      }
    }
    FilterKeepsHostnames(once);
  }

  /** Filtering one more name appends it exactly when it is a hostname. */
  lemma FilterStep(names: seq<string>, name: string)
    ensures FilterHostnames(names + [name]) == FilterHostnames(names) + (if IsHostname(name) then [name] else [])
  {
    assert (names + [name])[..|names|] == names;
  }

  /** A name survives the pipeline exactly when it is a hostname found on some page. */
  lemma SurvivorsMembership(resourceRecords: seq<Page>, x: string)
    ensures x in FilterHostnames(Concat(resourceRecords)) <==>
              IsHostname(x) && exists i :: 0 <= i < |resourceRecords| && x in resourceRecords[i]
  {
    ConcatMembership(resourceRecords, x);
    FilterMembership(Concat(resourceRecords), x);
  }

  /** The inner loop of `get_subdomains`: append the names of one page that pass the filter. */
  method AppendHostnames(parsedRecords: seq<string>, subdomains: seq<string>) returns (result: seq<string>)
    ensures result == subdomains + FilterHostnames(parsedRecords)
  {
    result := subdomains;
    var j := 0;
    while j < |parsedRecords|
      invariant 0 <= j <= |parsedRecords|
      invariant result == subdomains + FilterHostnames(parsedRecords[..j])
    {
      var parsedRecord := parsedRecords[j];
      FilterStep(parsedRecords[..j], parsedRecord);
      assert parsedRecords[..j + 1] == parsedRecords[..j] + [parsedRecord];
      if '_' !in parsedRecord && '\\' !in parsedRecord {
        result := result + [parsedRecord];
      }
      j := j + 1;
    }
    assert parsedRecords[..j] == parsedRecords;
  }

  /** `get_subdomains`: append to `subdomains` every record name that passes the filter, pages in
      order and names within a page in order. */
  method GetSubdomains(resourceRecords: seq<Page>, subdomains: seq<string>) returns (result: seq<string>)
    ensures result == subdomains + FilterHostnames(Concat(resourceRecords))
    ensures result[..|subdomains|] == subdomains
  {
    result := subdomains;
    var i := 0;
    while i < |resourceRecords|
      invariant 0 <= i <= |resourceRecords|
      invariant result == subdomains + FilterHostnames(Concat(resourceRecords[..i]))
    {
      result := AppendHostnames(resourceRecords[i], result);
      assert resourceRecords[..i + 1][..i] == resourceRecords[..i];
      FilterAppend(Concat(resourceRecords[..i]), resourceRecords[i]);
      i := i + 1;
    }
    assert resourceRecords[..i] == resourceRecords;
  }

  // ----- main -----

  /** What one created session appends: the hostnames of all its zones' pages, or the error that
      aborts the run. */
  function ProfileNames(client: Client): Result<seq<string>, DumpError>
  {
    var hostedZones :- GetHostedZoneIds(client.listing);
    Success(FilterHostnames(Concat(Concat(PagesPerZone(hostedZones, client.paginate)))))
  }

  /** The loop of `main` over the profiles, threading the accumulator; `None` is a profile whose
      session could not be created, which is skipped. */
  function Accumulate(sessions: seq<Option<Client>>, subdomains: seq<string>): (r: Result<seq<string>, DumpError>)
    ensures r.Success? ==> subdomains <= r.value
  {
    if |sessions| == 0 then Success(subdomains)
    else
      match sessions[0]
      case None => Accumulate(sessions[1..], subdomains)
      case Some(client) =>
        match ProfileNames(client)
        case Failure(e) => Failure(e)
        case Success(names) => Accumulate(sessions[1..], subdomains + names)
  }

  /** `main`: click demands at least one profile; the accumulated names collapse to a set. */
  function Dump(sessions: seq<Option<Client>>): Result<set<string>, DumpError>
  {
    if |sessions| == 0 then Failure(MissingProfiles)
    else
      match Accumulate(sessions, [])
      case Failure(e) => Failure(e)
      case Success(subdomains) => Success(set x | x in subdomains)
  }

  /** `n` is a name that the session at hand contributes to the output. */
  predicate Yields(session: Option<Client>, n: string)
  {
    && session.Some?
    && ProfileNames(session.value).Success?
    && n in ProfileNames(session.value).value
  }

  /** `main` as a loop over the profiles, calling the three stages in turn. */
  method DumpSubdomains(sessions: seq<Option<Client>>) returns (outcome: Result<set<string>, DumpError>)
    ensures outcome == Dump(sessions)
  {
    if |sessions| == 0 {
      return Failure(MissingProfiles);
    }
    var subdomains: seq<string> := [];
    var i := 0;
    while i < |sessions|
      invariant 0 <= i <= |sessions|
      invariant Accumulate(sessions, []) == Accumulate(sessions[i..], subdomains)
    {
      assert sessions[i..][0] == sessions[i] && sessions[i..][1..] == sessions[i + 1..];
      match sessions[i] {
        case None =>
        case Some(client) =>
          var zoneIds := GetHostedZoneIds(client.listing);
          if zoneIds.Failure? {
            return Failure(zoneIds.error);
          }
          var resourceRecords := GetResourceRecords(zoneIds.value, client.paginate);
          subdomains := GetSubdomains(resourceRecords, subdomains);
      }
      i := i + 1;
    }
    assert sessions[i..] == [];
    outcome := Success(set x | x in subdomains);
  }

  /** The accumulation succeeds exactly when no created session fails, and then holds the incoming
      names followed by every name a created session yields. */
  lemma {:induction false} AccumulateContents(sessions: seq<Option<Client>>, subdomains: seq<string>)
    ensures Accumulate(sessions, subdomains).Success? <==>
              forall i :: 0 <= i < |sessions| && sessions[i].Some? ==> ProfileNames(sessions[i].value).Success?
    ensures Accumulate(sessions, subdomains).Success? ==>
              forall n :: n in Accumulate(sessions, subdomains).value <==>
                n in subdomains || exists i :: 0 <= i < |sessions| && Yields(sessions[i], n)
  {
    if |sessions| > 0 {
      var rest := sessions[1..];
      assert forall i :: 1 <= i < |sessions| ==> sessions[i] == rest[i - 1];
      match sessions[0]
      case None =>
        AccumulateContents(rest, subdomains);
        if Accumulate(sessions, subdomains).Success? {
          forall n, i | 0 <= i < |sessions| && Yields(sessions[i], n)
            ensures exists j :: 0 <= j < |rest| && Yields(rest[j], n)
          {
            assert Yields(rest[i - 1], n);
          }
          forall n, i | 0 <= i < |rest| && Yields(rest[i], n)
            ensures exists j :: 0 <= j < |sessions| && Yields(sessions[j], n)
          {
            assert Yields(sessions[i + 1], n);
          }
        }
      case Some(client) =>
        if ProfileNames(client).Success? {
          var names := ProfileNames(client).value;
          AccumulateContents(rest, subdomains + names);
          if Accumulate(sessions, subdomains).Success? {
            forall n, i | 0 <= i < |sessions| && Yields(sessions[i], n)
              ensures n in names || exists j :: 0 <= j < |rest| && Yields(rest[j], n)
            {
              if i > 0 {
                assert Yields(rest[i - 1], n);
              }
            }
            forall n, i | 0 <= i < |rest| && Yields(rest[i], n)
              ensures exists j :: 0 <= j < |sessions| && Yields(sessions[j], n)
            {
              assert Yields(sessions[i + 1], n);
            }
            forall n | n in names
              ensures Yields(sessions[0], n)
            {
            }
          }
        }
    }
  }

  /** A created session yields exactly the hostnames on the pages of the zones its listing names. */
  lemma ProfileNamesContents(client: Client, n: string)
    ensures ProfileNames(client).Success? <==> GetHostedZoneIds(client.listing).Success?
    ensures ProfileNames(client).Success? ==>
              var ids := GetHostedZoneIds(client.listing).value;
              (n in ProfileNames(client).value <==>
                 IsHostname(n) && exists i, j :: 0 <= i < |ids| && 0 <= j < |client.paginate(ids[i])|
                                                && n in client.paginate(ids[i])[j])
  {
    if GetHostedZoneIds(client.listing).Success? {
      var ids := GetHostedZoneIds(client.listing).value;
      var records := Concat(PagesPerZone(ids, client.paginate));
      SurvivorsMembership(records, n);
      if exists k :: 0 <= k < |records| && n in records[k] {
        var k :| 0 <= k < |records| && n in records[k];
        RecordsMembership(ids, client.paginate, records[k]);
        var i :| 0 <= i < |ids| && records[k] in client.paginate(ids[i]);
        var j :| 0 <= j < |client.paginate(ids[i])| && client.paginate(ids[i])[j] == records[k];
      }
      if exists i, j :: 0 <= i < |ids| && 0 <= j < |client.paginate(ids[i])| && n in client.paginate(ids[i])[j] {
        var i, j :| 0 <= i < |ids| && 0 <= j < |client.paginate(ids[i])| && n in client.paginate(ids[i])[j];
        var page := client.paginate(ids[i])[j];
        RecordsMembership(ids, client.paginate, page);
        var k :| 0 <= k < |records| && records[k] == page;
      }
    }
  }

  /** The run prints exactly the names some created session yields; it fails only for a missing
      profile list, or a zone listing that raised or a malformed zone id in a created session. */
  lemma DumpContents(sessions: seq<Option<Client>>)
    ensures Dump(sessions).Success? <==>
              |sessions| > 0 && forall i :: 0 <= i < |sessions| && sessions[i].Some? ==> ProfileNames(sessions[i].value).Success?
    ensures Dump(sessions).Success? ==>
              forall n :: n in Dump(sessions).value <==> exists i :: 0 <= i < |sessions| && Yields(sessions[i], n)
  {
    AccumulateContents(sessions, []);
  }

  /** Processing the sessions in two runs of the loop is processing them in one. */
  lemma {:induction false} AccumulateAppend(a: seq<Option<Client>>, b: seq<Option<Client>>, subdomains: seq<string>)
    ensures Accumulate(a + b, subdomains) ==
              match Accumulate(a, subdomains)
              case Failure(e) => Failure(e)
              case Success(acc) => Accumulate(b, acc)
  {
    if |a| > 0 {
      assert (a + b)[0] == a[0];
      assert (a + b)[1..] == a[1..] + b;
      match a[0]
      case None =>
        AccumulateAppend(a[1..], b, subdomains);
      case Some(client) =>
        if ProfileNames(client).Success? {
          AccumulateAppend(a[1..], b, subdomains + ProfileNames(client).value);
        }
    } else {
      assert a + b == b;
    }
  }

  /** A profile whose session could not be created contributes nothing and does not stop the run. */
  lemma FailedSessionSkipped(a: seq<Option<Client>>, b: seq<Option<Client>>)
    requires |a + b| > 0
    ensures Dump(a + [None] + b) == Dump(a + b)
  {
    AccumulateAppend(a, [None] + b, []);
    AccumulateAppend(a, b, []);
    assert a + [None] + b == a + ([None] + b);
    if Accumulate(a, []).Success? {
      assert ([None] + b)[1..] == b;
    }
  }

  /** A created session whose zone listing raised ends the whole run with that error: unlike a
      session that could not be created, it is not skipped, and later profiles are not reached. */
  lemma RejectedListingEndsRun(a: seq<Option<Client>>, client: Client, b: seq<Option<Client>>)
    requires client.listing.Failure?
    requires Accumulate(a, []).Success?
    ensures Dump(a + [Some(client)] + b) == Failure(client.listing.error)
  {
    AccumulateAppend(a, [Some(client)] + b, []);
    assert a + [Some(client)] + b == a + ([Some(client)] + b);
    assert ([Some(client)] + b)[0] == Some(client);
  }

  /** Names found twice are printed once: running every profile a second time changes nothing. */
  lemma RepeatedProfilesCollapse(sessions: seq<Option<Client>>)
    ensures Dump(sessions + sessions) == Dump(sessions)
  {
    AccumulateAppend(sessions, sessions, []);
    if |sessions| > 0 && Accumulate(sessions, []).Success? {
      var once := Accumulate(sessions, []).value;
      AccumulateContents(sessions, []);
      AccumulateContents(sessions, once);
      var twice := Accumulate(sessions, once).value;
      assert (set x | x in twice) == (set x | x in once);
    }
  }

  /** The record names of the example zone: a host and a DMARC service record. */
  lemma ExampleNamesFiltered()
    ensures FilterHostnames(["a.example.com", "_dmarc.example.com"]) == ["a.example.com"]
  {
    assert "_dmarc.example.com"[0] == '_';
    assert !IsHostname("_dmarc.example.com");
    assert IsHostname("a.example.com");
    assert ["a.example.com", "_dmarc.example.com"][..1] == ["a.example.com"];
    assert ["a.example.com"][..0] == [];
  }

  /** The example listing names one zone, `Z1`. */
  lemma ExampleZoneIds()
    ensures GetHostedZoneIds(Success(ListHostedZonesResponse(Some([HostedZone(map["Id" := "/hostedzone/Z1"])])))) == Success(["Z1"])
  {
    ZoneIdOfPath("", "hostedzone", "Z1", "");
    assert "" + "/" + "hostedzone" + "/" + "Z1" + "" == "/hostedzone/Z1";
    ZoneIdsSingle(HostedZone(map["Id" := "/hostedzone/Z1"]));
  }

  /** The example session, holding the one zone `Z1`. */
  function ExampleClient(paginate: string -> seq<Page>): Client
  {
    Client(Success(ListHostedZonesResponse(Some([HostedZone(map["Id" := "/hostedzone/Z1"])]))), paginate)
  }

  /** The example session yields `a.example.com` only. */
  lemma ExampleProfileNames(paginate: string -> seq<Page>)
    requires paginate("Z1") == [["a.example.com", "_dmarc.example.com"]]
    ensures ProfileNames(ExampleClient(paginate)) == Success(["a.example.com"])
  {
    ExampleZoneIds();
    ExampleNamesFiltered();
    assert PagesPerZone(["Z1"], paginate) == [[["a.example.com", "_dmarc.example.com"]]];
    assert Concat(PagesPerZone(["Z1"], paginate)) == [["a.example.com", "_dmarc.example.com"]];
    assert Concat([["a.example.com", "_dmarc.example.com"]]) == ["a.example.com", "_dmarc.example.com"];
  }

  /** A broken profile followed by a session that yields only `a.example.com` (as the example
      session does) completes and prints only `a.example.com`. */
  lemma BrokenProfileThenExample(client: Client)
    requires ProfileNames(client) == Success(["a.example.com"])
    ensures Dump([None, Some(client)]) == Success({"a.example.com"})
  {
    var names: seq<string> := ["a.example.com"];
    assert [Some(client)][1..] == [];
    assert [] + names == names;
    assert Accumulate([Some(client)], []) == Success(names);
    assert [None, Some(client)][1..] == [Some(client)];
    assert Accumulate([None, Some(client)], []) == Success(names);
    assert (set x | x in names) == {"a.example.com"};
  }
}
