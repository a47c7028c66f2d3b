# Network analysis suite: a Dafny model of its core

The suite is a WinForms traceroute and MTR/PathPing tool. It does four things:

1. Resolves a host name to one address, honouring an IPv4/IPv6 preference and falling back to a DNS client.
2. Discovers the route by probing with hop limits 1 to 40. It stops at the target, on a stalled route, on cancellation or on a probe failure.
3. Monitors every hop and keeps per-hop statistics after a warm-up of ten probes:
   - sent and lost counters;
   - the last, best and worst round-trip times;
   - a window of the last fifty samples.
4. Produces two reports and keeps a history of hosts:
   - a PathPing table, built from fifty further probes per hop;
   - an automatic diagnosis, which applies ordered rules to a snapshot of the hops;
   - the history of analysed hosts, which saving updates.

The model covers this logic in `Program.cs`:

| File | Module | What it models |
|---|---|---|
| `common.dfy` | `Common` | `Option`, bytes, whitespace tests, decimal text, `TrimEnd`, `Split` |
| `net.dfy` | `Net` | address bytes and text, `GetNetworkType`, `ResolveHostWithCustomDnsAsync` |
| `geo.dfy` | `Geo` | the ASN/location lookups with their provider fallback |
| `hop.dfy` | `Hops` | `HopInfo`, `UpdateHopStats`, `ResolveHostnameAsync`, `GetIpInfoAsync` |
| `discovery.dfy` | `Discovery` | `DiscoverRouteAsync` |
| `pathping.dfy` | `PathPing` | the sample collection and summary of `StartPathAnalysis` |
| `diagnosis.dfy` | `Diagnosis` | `AnalyzeNetworkHealth` |
| `history.dfy` | `History` | the list update of `HistoryService.Save` |

`Hops`, `Discovery`, `PathPing` and `Diagnosis` are imperative where the source is. Pure definitions in the same modules specify them.

- `HopInfo` is a class whose methods update its fields.
- Discovery is a loop over a `Tracer` that owns the hop registry.
- Path analysis has the source's nested loops over a result map.
- The diagnosis appends findings in a loop. Its origin scan carries the previous loss.
- The history update is a loop that removes entries in place.

Network replies, DNS answers, provider replies and the stored history file are inputs:
- one `Echo` per probe;
- one `Outcome` per hop limit;
- `SystemLookup`, `DnsQuery`, `PtrLookup`, `IpApiReply` and `IpInfoReply`;
- the loaded list.

When the input sequence of discovery outcomes runs out, the model treats it as cancellation.

Three behaviours of the code that the model keeps:

- Path analysis never probes a hop without an address (Program.cs:476). Its row counts 0 lost out of 50, which is 0% (Program.cs:508-514). It does not show a total loss. See `PathPing.UnaddressedRow`.
- When some hop has sent probes but no hop has an address, the diagnosis returns early, before the first-hop rule, without any finding (Program.cs:545-546). The model returns `None`. See `Diagnosis.NeverEmpty`.
- A destination that has sent nothing has a loss of 0/0 in double precision, which is NaN (Program.cs:587). Every comparison with NaN is false, so neither the destination rule nor the deprioritisation rule fires, and the fallback is "Analisando..." rather than "no issues" (Program.cs:607-611). See `Diagnosis.UnprobedDestination`.

## Model

| member | source | states |
|---|---|---|
| Common.TrimEnd | Program.cs:908 | The result is a prefix of the input, does not end with the trimmed character, and only that character was removed. |
| Common.Decimal | Program.cs:676 | The decimal text of a number is non-empty and all digits, has no leading zero, and reads back as the number. |
| Net.Classify | Program.cs:938-955 | No address gives "N/A" and only then; every IPv6 address is loopback (::1) or public; a class is always set. |
| Net.ClassifyIsCidr | Program.cs:938-955 | An IPv4 address is loopback, private A/B/C or link-local exactly when it lies in 127/8, 10/8, 172.16/12, 192.168/16 or 169.254/16, and public exactly when in none. |
| Net.BlockTests | Program.cs:938-955 | Membership in each of the five blocks the classifier tests is a test on the first one or two octets of the address. |
| Net.Hex | Program.cs:676 | An IPv6 group's text is non-empty lower-case hexadecimal (digits and a-f), has no leading zero, and reads back as the group's value. |
| Net.V6GroupsPieces | Program.cs:676 | IPv6 text splits at its colons into exactly the groups' hexadecimal texts, in order. |
| Net.TextReadsBack | Program.cs:676 | The address text reads back as the address: four dotted numerals worth the four octets, or eight colon-separated groups worth the eight 16-bit groups. |
| Net.TextInjective | Program.cs:676 | Two addresses with the same text are the same address, so IPv4 and IPv6 texts never collide. |
| Net.FirstOfFamily | Program.cs:838-842 | `FirstOrDefault` by family: empty exactly when no address has the family, otherwise the first address of that family. |
| Net.PickAddress | Program.cs:837-842 | The system pick is empty exactly when the answer is empty, and otherwise comes from the answer. |
| Net.PickAddressPrefers | Program.cs:837-842 | The pick is the first address of the preferred family whenever one exists, and otherwise the first of the other family (the `??` fallback). |
| Net.DnsFallback | Program.cs:856-886 | A result is a record some query returned. A preferred query that throws gives no address, and a non-empty preferred answer decides with its first record. An empty preferred answer falls back to the other record type: its first record, or no address when it throws or is empty too. |
| Net.ResolveHost | Program.cs:823-887 | A literal resolves to itself; any other result comes from the system answer or from a DNS-client query. |
| Net.ResolveHostSources | Program.cs:823-887 | A literal resolves to itself whatever the resolvers say; a non-empty system answer decides regardless of DNS-client replies; only a failed or empty system lookup reaches the AAAA/A fallback. |
| Geo.LocationReadsBack | Program.cs:796 | A location splits at its comma into the city and the country after the space, and is the country alone when the city is blank, for names without commas. |
| Geo.UserAsnNeverBlank | Program.cs:723-757 | The user's ASN is never blank: the primary provider's answer when usable, else the secondary's when usable, else the failure text. |
| Geo.HopGeoFallback | Program.cs:759-820 | An unaddressed or non-public hop gets the user ASN and "Rede Local" whatever the providers answer. A usable primary decides, with its ASN and "city, country", whatever the secondary says. Otherwise a usable secondary gives its organisation and location, else the failure markers. A public hop's ASN is never blank. |
| Hops.RecordedStep | Program.cs:411-448 | During warm-up only the warm-up counter moves. Afterwards sent grows by one, a loss also grows lost and sets the last time to -1, and the sample joins the window. |
| Hops.PushedIsWindow | Program.cs:426-427 | Add-then-drop-oldest keeps exactly the last fifty samples. |
| Hops.ReplayCounters | Program.cs:411-448 | From a fresh record, sent is the number of probes after warm-up, lost their losses, and sent equals successes plus lost. The window is the last fifty samples and the last time is the last sample. |
| Hops.ReplayWarmup | Program.cs:411-448 | From a fresh record, the warm-up counter counts every probe, warm-up or not. |
| Hops.ExtremalStep | Program.cs:428-429 | One probe after warm-up keeps best and worst as answered times bounding every answered time, and keeps them at -1 and 0 while none has answered. |
| Hops.ReplayExtremes | Program.cs:428-429 | After any run of probes, best and worst are the extremes of the answered post-warm-up times. |
| Hops.RecordedConsistent | Program.cs:411-448 | Recording a probe preserves the record's invariant: the window holds at most fifty samples, each a time or -1; lost is between 0 and sent; sent is exactly the probes past warm-up; best is at least -1. |
| Hops.ReverseName | Program.cs:899-913 | The first PTR name without trailing dots, or the address text when the lookup failed or found nothing. |
| Hops.HopInfo.constructor | Program.cs:84-103 | A fresh record: the given number, empty strings, no address, best time -1, counters zero. |
| Hops.HopInfo.UpdateStats | Program.cs:411-448 | The statistics fields become `Recorded` of the old ones, and the record invariant is kept. |
| Hops.HopInfo.ResolveHostname | Program.cs:889-918 | Names off: the host name is the address text. No address or a lookup already in flight: nothing changes. Otherwise the PTR name is stored and the in-flight flag cleared. |
| Hops.HopInfo.FetchGeoInfo | Program.cs:759-784 | The ASN and location are `HopGeo` of the hop's address and class; the fetching flag is cleared on every path that raised it. |
| Discovery.ScanFrom | Program.cs:656-716 | The loop creates at most forty hops and no more than there are outcomes; it fails only when the probe after the last created hop threw. |
| Discovery.Discover | Program.cs:656-716 | At most forty hops, and no more than the probes made. |
| Discovery.ScanFromFacts | Program.cs:656-716 | Each created hop came from a non-failing probe, and the loop went past a hop only when that probe did not halt it. |
| Discovery.DiscoverFacts | Program.cs:656-716 | No created hop came from a failure. An abandoned run stopped at a failure. An early stop is a reply from the target or a stall count of five. |
| Discovery.StopsAtFirstSuccess | Program.cs:699 | Only the last created hop can be a reply from the target. |
| Discovery.StallGrows | Program.cs:682-709 | Repeated replies from the last address, or silences, raise the stall count by at least one each. |
| Discovery.StopsOnStall | Program.cs:693-713 | Five consecutive stalling probes end the discovery. |
| Discovery.StopsOnSameAddress | Program.cs:682-697 | Six consecutive replies from one address end the discovery. |
| Discovery.NoStallOnFreshAddresses | Program.cs:682-691 | Replies from ever-changing addresses keep the stall count at zero. |
| Discovery.ReachableInN | Program.cs:646-719 | A route whose routers each differ from the one before, ending at the target after n hops is discovered with exactly n hops. |
| Discovery.DiscoveredFields | Program.cs:668-717 | A discovered hop has its number, fresh statistics and no lookup pending. A silent hop has the "*" markers. A replying hop has its address text and the host name its reverse lookup gave. A local or unaddressed hop has the operator's ASN and "Rede Local"; a public one has a non-blank ASN. |
| Discovery.NewHop | Program.cs:668-707 | A new hop numbered by its limit carries the reply's address, text and class, or the "*" markers of a silent hop. |
| Discovery.MarkReplied | Program.cs:675-677 | A replying hop gets the reply's address, its text ("N/A" without one) and its class, and nothing else changes. |
| Discovery.MarkSilent | Program.cs:703-707 | A silent hop gets the "*" address, the no-reply host name and "N/A" class, ASN and location, and nothing else changes. |
| Discovery.LookUp | Program.cs:679-680 | Once the reverse lookup and the ASN lookup of a replying hop complete, the hop holds its discovered record. |
| Discovery.ListedStep | Program.cs:670-671 | Storing the next hop under the next number keeps the registry and the list in step. |
| Discovery.KeptStep | Program.cs:670 | Storing under the next number keeps every other registry entry and adds no other key. |
| Discovery.Published | Program.cs:670-671 | Registry entries 1..n are the listed hops, each describing its probe, and every other entry is one the registry held before. |
| Discovery.Tracer.constructor | Program.cs:125 | The registry starts empty. |
| Discovery.Tracer.Publish | Program.cs:668-680 | Exactly one registry entry is set, to a fresh hop holding its discovered record, and the tracked state extends by it. |
| Discovery.Tracer.DiscoverRoute | Program.cs:646-719 | It creates `Discover(outcomes).created` fresh hops, registered under 1..n with no other key added, each holding its record after its lookups completed, and returns them unless a probe threw. |
| PathPing.CollectSamples | Program.cs:468-491 | Every hop index has an entry, holding one sample per probe for an addressed hop and nothing otherwise. |
| PathPing.LostCount | Program.cs:510 | The lost count never exceeds the number of samples. |
| PathPing.ValidPings | Program.cs:511 | Each valid sample is a non-negative member of the samples, and every non-negative sample is among them. |
| PathPing.ValidPingsCounts | Program.cs:511-512 | The valid samples hold each non-negative value exactly as often as the samples do, and no negative value, so the average is taken over every answered probe. |
| PathPing.Summarize | Program.cs:505-520 | One row per hop, in order, each row that of the hop's samples. |
| PathPing.LossPercentIsDouble | Program.cs:514 | With fifty probes the truncated percentage is twice the lost count, between 0 and 100. |
| PathPing.SamplesCounted | Program.cs:485-488 | The lost count of a hop's samples is its number of losses, and the valid samples number its successes. |
| PathPing.LostAndValidPartition | Program.cs:510-511 | Lost and valid samples together account for every sample. |
| PathPing.SumBounds | Program.cs:512 | A sum of values within bounds lies between count times each bound. |
| PathPing.AverageWithinRange | Program.cs:512 | The truncated average lies between the fastest and slowest answer, and is 0 when nothing answered. |
| PathPing.AddressedRow | Program.cs:505-520 | An addressed hop's row numbers it, counts exactly its losses out of fifty at twice that percentage, and averages within its answer range. |
| PathPing.UnaddressedRow | Program.cs:476-514 | An unaddressed hop is never probed: 0 ms, 0 lost, 0%. |
| PathPing.AddressLabelCases | Program.cs:515-517 | The address column is the bare address exactly when names are off, the name is empty or equals the address; otherwise it ends with "[address]". |
| PathPing.LabelExtendsName | Program.cs:515-517 | The address column is the name the hop listing shows (Program.cs:462) when that name is the address, and otherwise that name followed by the bracketed address. |
| PathPing.AnalyzePath | Program.cs:468-520 | Row i is the summary of hop i's own probes. |
| Diagnosis.LastAddressed | Program.cs:545-546 | The destination is the last hop with an address, and there is none exactly when no hop has one. |
| Diagnosis.FirstHopFindings | Program.cs:548-562 | The first-hop rule yields only first-hop findings. |
| Diagnosis.OriginFrom | Program.cs:564-579 | A found origin has more than five sent and is not the destination. |
| Diagnosis.NumberedWithData | Program.cs:588 | The hop before the destination has the preceding number and has sent something. |
| Diagnosis.NumberedWithDataIsLast | Program.cs:588 | It is the last such hop, and there is none exactly when no hop has that number and data. |
| Diagnosis.DestinationFindings | Program.cs:587-598 | The destination rule yields only destination findings. |
| Diagnosis.DeprioritisedFindings | Program.cs:600-605 | The deprioritisation rule yields only its two findings. |
| Diagnosis.OriginFindings | Program.cs:580-585 | The origin rule yields only the origin alert and its note. |
| Diagnosis.LaterFindings | Program.cs:564-605 | The origin, destination and deprioritisation rules together yield only their own alerts and notes. |
| Diagnosis.FindOrigin | Program.cs:564-579 | The loop with its carried previous loss and early exit yields the scan's answer. |
| Diagnosis.ApplyRules | Program.cs:548-605 | The findings appended are the first-hop, origin, destination and deprioritisation findings, in that order. |
| Diagnosis.RulesInOrder | Program.cs:548-605 | The four rule blocks appended one after another are the rule findings. |
| Diagnosis.AnalyzeNetworkHealth | Program.cs:529-615 | The findings are the diagnosis of the snapshot. |
| Diagnosis.RuleSources | Program.cs:548-605 | No rule yields the waiting message or a fallback, and the first-hop loss alert and latency warning come only from the first-hop rule. |
| Diagnosis.WaitingExactly | Program.cs:538-543 | The diagnosis is the waiting message alone exactly when no hop has sent a probe. |
| Diagnosis.NeverEmpty | Program.cs:545-612 | With data, a diagnosis exists exactly when some hop has an address, and it is never empty. |
| Diagnosis.FallbackExactly | Program.cs:607-612 | The diagnosis is a single fallback exactly when no rule fired, and it is "no issues" exactly when also the destination's loss is below 2%. |
| Diagnosis.RateAbove | Program.cs:551-552 | The loss percentage exceeds a threshold exactly when 100 times lost exceeds the threshold times sent. |
| Diagnosis.RateBelow | Program.cs:601 | The loss percentage is below a threshold exactly when 100 times lost is below the threshold times sent. |
| Diagnosis.RateExceeds | Program.cs:591-592 | One hop's loss exceeds another's by more than t points exactly when the cross-multiplied integer counts say so. |
| Diagnosis.FirstHopLatencyRule | Program.cs:557-561 | The latency warning fires exactly when the first hop sent more than five and its best time exceeds 20 ms; its pair closes the first-hop findings, after the loss pair when that fired. |
| Diagnosis.FirstHopSlow | Program.cs:548-562 | The diagnosis holds the latency warning exactly under that condition, right after the loss pair, or first when there is no loss pair. |
| Diagnosis.FirstHopLossRule | Program.cs:548-556 | The first-hop loss alert fires exactly when more than five were sent and more than 2% were lost, and then it comes first with its note. |
| Diagnosis.DestinationRule | Program.cs:587-598 | The destination alert fires exactly when the hop numbered just before the destination has data, the destination has sent something, and its loss exceeds that hop's by more than ten points; it comes with the note naming the destination. |
| Diagnosis.DeprioritisedRule | Program.cs:600-605 | The deprioritisation alert fires exactly when some hop other than the destination has sent more than five with more than 80% lost, and the destination has sent something with less than 10% lost. |
| Diagnosis.FirstHopCritical | Program.cs:548-556 | The diagnosis opens with the first-hop loss alert and its note exactly when the first hop sent more than five and lost more than 2%. |
| Diagnosis.NoOriginWithoutLoss | Program.cs:564-579 | Without any loss the origin scan finds nothing. |
| Diagnosis.QuietDestination | Program.cs:587-612 | Without loss anywhere and with a probed destination, the destination and deprioritisation rules are silent and the fallback is "no issues". |
| Diagnosis.QuietFirstHop | Program.cs:548-562 | A lossless first hop that is fast, or has sent five or fewer, raises nothing. |
| Diagnosis.QuietRules | Program.cs:548-612 | With no loss anywhere, a probed destination and a quiet first hop, no rule fires and the fallback is "no issues". |
| Diagnosis.UniformZeroLoss | Program.cs:529-615 | Uniformly zero loss, a probed destination and a quiet first hop give "no issues" alone. |
| Diagnosis.UnprobedDestination | Program.cs:587-612 | A destination that sent nothing has a NaN loss: the destination and deprioritisation rules cannot fire and the fallback is "Analisando...". |
| Diagnosis.OriginFromIsFirst | Program.cs:564-579 | The scan from any position yields the first problematic hop from there, and nothing exactly when there is none. |
| Diagnosis.OriginIsFirstProblematic | Program.cs:564-579 | The origin named is the first hop meeting the origin condition against the nearest earlier hop's loss, and none is named exactly when no hop meets it. |
| History.Without | Program.cs:71 | Removal never lengthens the list. |
| History.Save | Program.cs:70-73 | The in-place removal, front insertion and truncation produce `Saved(stored, host)`. |
| History.SameIgnoringCaseEquivalence | Program.cs:71 | Ordinal case-insensitive equality is reflexive, symmetric and transitive. |
| History.WithoutMembers | Program.cs:71 | An entry survives removal exactly when it was present and differs from the host ignoring case. |
| History.WithoutAppend | Program.cs:71 | Removal distributes over concatenation, so it keeps the order of the survivors. |
| History.WithoutNothingToRemove | Program.cs:71 | A list with no match is left unchanged. |
| History.WithoutKeepsNoDuplicates | Program.cs:71 | Removal preserves freedom from case-insensitive duplicates. |
| History.SavedShape | Program.cs:70-73 | After saving, the host is first, there are one to twenty entries, and no other entry equals the host ignoring case. |
| History.SavedKeepsOrder | Program.cs:70-73 | The entries after the host are the older non-matching entries in order, as many as fit in twenty. |
| History.SaveIdempotent | Program.cs:70-73 | Saving the same host twice equals saving it once. |
| History.SaveKeepsNoDuplicates | Program.cs:70-73 | A history free of case-insensitive duplicates stays so after saving. |

## Left out

- Jitter (Program.cs:430-437): it is a floating-point square root of a variance, and no decision reads it.
- Hops.HopInfo.UpdateStats: 32-bit wrap-around of the counters is not modelled. Counters are unbounded integers, and wrap-around would need more than 2^31 probes.
- Diagnosis.Rate: loss percentages are exact reals rather than doubles. Rounding of `lost / sent * 100` could in principle move a value across a threshold.
- Diagnosis.DestinationRule: stated for a destination whose counters satisfy 0 <= lost <= sent, which every record keeps (`Hops.RecordedConsistent`). The same holds for Diagnosis.DeprioritisedRule.
- PathPing.AverageRtt: the mean is the exact truncated integer mean. The source averages in double precision before truncating.
- History.SameIgnoringCase: case folding covers Basic Latin and Latin-1 Supplement letters only. Other characters compare exactly.
- History.Save: a `null` entry in the stored file would make the source throw and save nothing. Stored entries are modelled as strings.
- Net.Text: IPv6 text is eight uncompressed hexadecimal groups. The `::` compression of `IPAddress.ToString()` is not modelled.
- Geo.LocationReadsBack: stated for city and country names without commas; a name with a comma makes the location text ambiguous.
- Network I/O and its exceptions are inputs, as described above:
  - ICMP, DNS and HTTP calls;
  - the user-ASN fetch of `FetchUserPublicInfoAsync`;
  - the history file and its JSON.
- Concurrency is not modelled:
  - the concurrent monitor cycle and its locks;
  - the lookups discovery starts for each replying hop (Program.cs:679-680) run to completion right after the hop is created, in order; the model does not interleave them with later probes, which only matters to a reader of the registry during discovery;
  - the order in which discovery stores a hop and then sets its fields, as seen by other threads.
- Diagnosis.AnalyzeNetworkHealth: the snapshot is taken as given, already ordered by hop number. The lock and the `OrderBy` are not modelled.
- Cancellation during path analysis is not modelled. A cancelled analysis returns without a table.
- UI output is not modelled: grids, rich text, colours on screen, column padding, status messages, and the header of the path-analysis report (the target line and the hop listing, Program.cs:457-465). Diagnosis findings carry their exact text, colour and emphasis.
