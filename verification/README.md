# Cloud security scripts: region lookup and Route53 hostname dump

This project models the pure logic of two small command-line utilities and proves properties of it.

- **Region lookup** (`aws/find-aws-region.py`). It scans the published list of `(ip_prefix, region)`
  entries in document order. It returns, and prints, the region of the first prefix whose network
  contains the address, or returns `Unknown` without printing anything when none does. Addresses and
  networks are numbers tagged with their IP version (32 bits for IPv4, 128 for IPv6). Containment is
  CIDR prefix matching as in section 3.1 of RFC 4632. The model defines it once, as "the quotients by
  2^(host bits) agree" (Python's `address & netmask == network_address`). It then proves that this
  definition agrees with two independent readings: the top `len` bits agree, and the address lies
  between the network and broadcast addresses.
- **Route53 hostname dump** (`aws/route53-subdomain-dump.py`). For each named profile whose session
  could be created, the dumper does four things. It lists the hosted zones and takes the third
  `/`-separated segment of each zone `Id`. It concatenates every page of record sets of every zone.
  It keeps the record names that contain neither `_` nor `\`, and appends them to an accumulator
  threaded through the profiles. At the end it collapses the accumulator to a set.

Modules:

- `Wrappers` (`wrappers.dfy`): `Option` and `Result`.
- `IpNetwork` (`ip_network.dfy`): versions, addresses, networks, `Contains`, and its bit-level and
  range characterisations.
- `FindAwsRegion` (`find_aws_region.dfy`): the first-match scan. `FirstMatch` is the reference,
  `FindRegion` the pure lookup and `FindAwsRegion` the loop with `break`.
- `PyStr` (`py_str.dfy`): Python's `str.split(sep)`, with `sep.join` as its proved inverse.
- `Route53SubdomainDump` (`route53_subdomain_dump.dfy`): `get_hosted_zone_ids`,
  `get_resource_records`, `get_subdomains` and the profile loop of `main`.

Inputs that come from outside the program are parameters:

- the parsed `prefixes` list and the parsed address;
- per profile, `None` when `boto3.Session(...)` raised, or a `Client` holding the outcome of building
  the Route53 client and calling `list_hosted_zones` (the response, or the `ServiceError` raised) and
  a function from a zone id to its pages;
- each page, reduced to the list of `Name`s that `jmespath.search("ResourceRecordSets[].Name", …)`
  returns.

An uncaught `IndexError` from `split('/')[2]` ends the whole run. It is modelled as a `Failure`
result. So is an exception from `session.client('route53')` or `client.list_hosted_zones(...)`:
both lie outside the `try` around session creation, so a profile whose credentials load but are
rejected by the service ends the run instead of being skipped. So, too, is click's refusal of an
empty profile list (`required=True`).

Two details of the code that are easy to misread:

- The zone id is the third `/`-separated segment (`split('/')[2]`), not the last one. The two agree
  on `/hostedzone/<id>` and differ on ids with more or fewer segments.
- The region lookup prints a line exactly when some entry contains the address, and that line is
  the returned region. An entry whose region is literally `Unknown` can still be printed.

## Model

| member | source | states |
|---|---|---|
| IpNetwork.ContainsIffTopBitsAgree | aws/find-aws-region.py:14 | for well-formed values of one version, `addr in network` (the predicate `Contains`) holds exactly when the top `len` bits of address and base agree (RFC 4632 prefix match) |
| IpNetwork.ContainsIffInRange | aws/find-aws-region.py:14 | containment holds exactly when the address lies between the network address and the broadcast address |
| IpNetwork.ZeroLengthContainsAll | aws/find-aws-region.py:14 | a `/0` network contains every address of its version |
| IpNetwork.FullLengthContainsOnlyBase | aws/find-aws-region.py:14 | a full-length network contains its base address and no other |
| IpNetwork.CrossVersionNeverContains | aws/find-aws-region.py:14 | an address is never inside a network of the other IP version |
| IpNetwork.MaskHostBits | aws/find-aws-region.py:14 | clearing the host bits of a network's base, as non-strict parsing does, gives a parsed network (host bits clear) with the same network address that contains exactly the same addresses |
| IpNetwork.ParsedNetworkIsNetworkAddress | aws/find-aws-region.py:14 | the base of a parsed network is its own network address |
| FindAwsRegion.FirstMatch | aws/find-aws-region.py:13-17 | the index found contains the address and no earlier entry does; none is found exactly when no entry contains it |
| FindAwsRegion.FindRegion | aws/find-aws-region.py:12-18 | the result is `Unknown` or the region of some entry of the list |
| FindAwsRegion.FindAwsRegion | aws/find-aws-region.py:12-18 | the loop returns the region of the lowest-index containing entry and prints exactly that one line; with no containing entry it returns `Unknown` and prints nothing; at most one line is printed |
| FindAwsRegion.FirstContainingEntryWins | aws/find-aws-region.py:13-17 | if entry `k` contains the address and no earlier entry does, the result is entry `k`'s region |
| FindAwsRegion.NoContainingEntryIsUnknown | aws/find-aws-region.py:12-18 | if no entry contains the address, the result is `Unknown` |
| FindAwsRegion.OverlapEarlierWins | aws/find-aws-region.py:13-17 | of two overlapping entries that both contain the address, the earlier one decides the result |
| FindAwsRegion.FirstMatchAppend | aws/find-aws-region.py:13-17 | entries appended after a match never change the match; with no match the scan continues into the appended entries at shifted indices |
| FindAwsRegion.LaterEntriesIgnored | aws/find-aws-region.py:17 | once some entry matches, entries appended after the list do not change the result, even when they overlap |
| FindAwsRegion.NonMatchingPrefixSkipped | aws/find-aws-region.py:13-17 | a block of non-matching entries in front of a list leaves the result of the rest unchanged |
| FindAwsRegion.PrependNonMatching | aws/find-aws-region.py:13-17 | prepending one entry that does not contain the address leaves the result unchanged |
| FindAwsRegion.OtherVersionIsUnknown | aws/find-aws-region.py:14 | an address whose version differs from every entry's is reported `Unknown` |
| PyStr.Split | aws/route53-subdomain-dump.py:47 | `split('/')` returns one more piece than there are separators, and no piece contains the separator |
| PyStr.JoinSplit | aws/route53-subdomain-dump.py:47 | joining the pieces of a split with the separator gives back the original string |
| PyStr.SplitJoin | aws/route53-subdomain-dump.py:47 | splitting a join of separator-free pieces gives back the pieces |
| Route53SubdomainDump.ZoneId | aws/route53-subdomain-dump.py:47 | `split('/')[2]` succeeds exactly when the id has at least two `/` and raises `IndexError` otherwise; a result never contains `/` |
| Route53SubdomainDump.ZoneIdOfPath | aws/route53-subdomain-dump.py:47 | for an id `a/b/c…` the zone id is `c`, the segment between the second and the third `/` |
| Route53SubdomainDump.HostedZonePathExample | aws/route53-subdomain-dump.py:47 | `/hostedzone/Z123` gives `Z123` |
| Route53SubdomainDump.BareIdRaises | aws/route53-subdomain-dump.py:47 | an id without `/` raises `IndexError` |
| Route53SubdomainDump.ZoneIds | aws/route53-subdomain-dump.py:44-47 | extraction succeeds exactly when every zone carrying `Id` has a well-formed one; each such zone's id is in the result and every result element comes from such a zone; a failure names a zone's `Id` |
| Route53SubdomainDump.ZoneIdsAppend | aws/route53-subdomain-dump.py:44-47 | zones are processed in listing order: extraction over `a + b` is extraction over `a` followed by `b`, and the first failure wins |
| Route53SubdomainDump.ZoneIdsSingle | aws/route53-subdomain-dump.py:45-47 | a zone without an `Id` key contributes nothing; a zone with one contributes exactly its id, or its `IndexError` |
| Route53SubdomainDump.ListingHasZonesMeansNonEmpty | aws/route53-subdomain-dump.py:42-43 | the oddly parenthesised test (the predicate `ListingHasZones`) means "`HostedZones` is present and non-empty" |
| Route53SubdomainDump.GetHostedZoneIds | aws/route53-subdomain-dump.py:36-51 | a `list_hosted_zones` call that raised propagates its error; an absent `HostedZones` key gives no ids; otherwise the result is the zone-by-zone extraction, which is empty for an empty list |
| Route53SubdomainDump.GetResourceRecords | aws/route53-subdomain-dump.py:54-64 | the record-set pages are every zone's pages concatenated, zones in order and pages in order |
| Route53SubdomainDump.NoZonesNoRecords | aws/route53-subdomain-dump.py:58-62 | zero zones give no pages |
| Route53SubdomainDump.RecordsAppend | aws/route53-subdomain-dump.py:58-62 | the pages of `a + b` are the pages of `a` followed by those of `b` |
| Route53SubdomainDump.RecordsMembership | aws/route53-subdomain-dump.py:58-62 | a page is collected exactly when some listed zone yields it |
| Route53SubdomainDump.FilterMembership | aws/route53-subdomain-dump.py:72-73 | a name is kept exactly when it occurs in the input and contains neither `_` nor `\` |
| Route53SubdomainDump.FilterStep | aws/route53-subdomain-dump.py:72-73 | one more name is appended exactly when it is a hostname |
| Route53SubdomainDump.FilterAppend | aws/route53-subdomain-dump.py:71-73 | filtering keeps the input order: the filter of `a + b` is the filter of `a` followed by that of `b` |
| Route53SubdomainDump.FilterKeepsHostnames | aws/route53-subdomain-dump.py:72 | a list of hostnames passes the filter unchanged |
| Route53SubdomainDump.FilterIdempotent | aws/route53-subdomain-dump.py:72 | filtering an already filtered list gives the same list |
| Route53SubdomainDump.SurvivorsMembership | aws/route53-subdomain-dump.py:69-73 | a name survives exactly when it is a hostname found on some page |
| Route53SubdomainDump.AppendHostnames | aws/route53-subdomain-dump.py:71-73 | the inner loop appends the page's surviving names, in order, after the accumulator |
| Route53SubdomainDump.GetSubdomains | aws/route53-subdomain-dump.py:67-74 | the incoming accumulator is kept unchanged as a prefix, followed by the names that pass the filter, pages in order and then records in order (which names those are is `SurvivorsMembership`) |
| Route53SubdomainDump.Accumulate | aws/route53-subdomain-dump.py:17-29 | the accumulator threaded through the profiles only grows: the incoming names remain a prefix |
| Route53SubdomainDump.ProfileNamesContents | aws/route53-subdomain-dump.py:26-29 | what one created session contributes (`ProfileNames`): it fails only when its listing or its zone ids fail, and otherwise yields exactly the hostnames on the pages of its listed zones |
| Route53SubdomainDump.AccumulateContents | aws/route53-subdomain-dump.py:17-29 | the loop over profiles succeeds exactly when no created session fails, and then holds the incoming names plus every name some created session yields |
| Route53SubdomainDump.DumpContents | aws/route53-subdomain-dump.py:17-30 | the printed set of `main` (`Dump`) is exactly the set of names some created session yields; the run fails only with no profiles, a listing call that raised, or a malformed zone id |
| Route53SubdomainDump.DumpSubdomains | aws/route53-subdomain-dump.py:17-30 | the loop of `main`, calling the three stages, computes the reference fold and set |
| Route53SubdomainDump.AccumulateAppend | aws/route53-subdomain-dump.py:18-29 | processing profiles `a + b` is processing `a` and then `b` with the accumulator `a` left behind |
| Route53SubdomainDump.FailedSessionSkipped | aws/route53-subdomain-dump.py:19-25 | a profile whose session construction failed changes nothing and does not stop the run |
| Route53SubdomainDump.RejectedListingEndsRun | aws/route53-subdomain-dump.py:19-27 | a created session whose client or zone listing raised ends the whole run with that error; later profiles are not reached |
| Route53SubdomainDump.RepeatedProfilesCollapse | aws/route53-subdomain-dump.py:30 | names found more than once are printed once: running every profile twice gives the same set |
| Route53SubdomainDump.ExampleNamesFiltered | aws/route53-subdomain-dump.py:72-73 | of `a.example.com` and `_dmarc.example.com` only the first is kept |
| Route53SubdomainDump.ExampleZoneIds | aws/route53-subdomain-dump.py:42-47 | a listing with the one zone `/hostedzone/Z1` gives the ids `[Z1]` |
| Route53SubdomainDump.ExampleProfileNames | aws/route53-subdomain-dump.py:26-29 | a session whose zone `Z1` holds `a.example.com` and `_dmarc.example.com` yields only `a.example.com` |
| Route53SubdomainDump.BrokenProfileThenExample | aws/route53-subdomain-dump.py:18-30 | a failed profile followed by that session completes and prints exactly `{a.example.com}` |

## Left out

- The HTTP fetch of the range document and its JSON decoding (`aws/find-aws-region.py:7-10`) are
  left out: they are network and library I/O. The lookup takes the decoded `prefixes` list.
- The parsing of address and prefix strings by Python's `ipaddress` is left out, including the
  rejection of malformed literals and strict-mode rejection of host bits. That library is not part of
  this model. Addresses and networks are numeric inputs. `ValidAddress` states what a successful
  address parse guarantees. `ValidNetwork` states only part of what a network parse guarantees: it
  admits a base with host bits set. `ParsedNetwork` adds the missing part, that the host bits are
  clear. `Contains` masks host bits off anyway, and `MaskHostBits` proves that masking them leaves
  containment unchanged.
- The lookup reads only the `prefixes` list of the document. Which address families that list holds
  is a property of the published data, not of this code, and is not modelled.
  `FindAwsRegion.OtherVersionIsUnknown` states what happens to an address of a version the list does
  not hold.
- boto3 sessions, clients and paginators, and the `jmespath` query, are left out: they are foreign
  calls. They are replaced by the per-profile `Option<Client>`, the listing response and the
  zone-to-pages function. A page that lacks `ResourceRecordSets` is not modelled, because the query
  would return `None` and iterating it would raise.
- A failure while paginating the record sets of a zone is not modelled: the zone-to-pages function
  always returns pages. In the source such a failure is uncaught and ends the run, like the modelled
  `ServiceError` from building the client or listing the zones.
- The `MaxItems="300"` cap on the zone listing is left out: it is enforced by the server, so the
  listing response is taken as given.
- The click command line, `sys.argv`, logging, `print(e)` for a failed session, and the order in
  which the set is printed are left out. Python's set iteration order is unspecified, so the output
  is modelled as a set.
- Route53SubdomainDump.FilterHostnames: its own contract states only a length bound. Its meaning is
  proved separately by `FilterMembership`, `FilterAppend` and `FilterStep`.
