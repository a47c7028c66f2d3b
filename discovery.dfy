/** Route discovery: probe the target with hop limits 1, 2, ... 40, create one
    hop record per hop limit tried, and stop at the first reply from the
    target itself, when the stall counter reaches five, on cancellation, or
    after hop limit 40. A transport failure of the probe mechanism abandons
    discovery. */
module Discovery {
  import opened Common
  import opened Net
  import opened Hops
  import opened Geo

  const MaxHops: nat := 40
  const StallThreshold: nat := 5

  /** What the probe with one hop limit produced: a Success reply from the
      target, a TtlExpired reply from a router on the way (both with the
      replying address, possibly null, and what the name and ASN services
      will answer about it), no usable reply at all (null reply or any other
      status), or a PingException. */
  datatype Outcome =
    | Reached(from: Option<Address>, answers: Answers)
    | Expired(from: Option<Address>, answers: Answers)
    | Silent
    | Fault

  /** The loop's carried state: the last replying address and the stall count. */
  datatype Scan = Scan(last: Option<Address>, stall: nat)

  /** How a discovery ended: the number of hop records created, and whether it
      was abandoned on a PingException (it then returns null). */
  datatype Run = Run(created: nat, failed: bool)

  /** The carried state after one probe. A reply from the address seen last
      increments the stall count, a reply from any other address resets it;
      no reply increments it and keeps the last address. */
  function Step(s: Scan, o: Outcome): Scan {
    match o
    case Silent => Scan(s.last, s.stall + 1)
    case Fault => s
    case _ => Scan(o.from, if s.last.Some? && s.last == o.from then s.stall + 1 else 0)
  }

  /** The loop breaks after this probe: the stall count has reached the
      threshold, or the target itself answered. */
  predicate Halts(s: Scan, o: Outcome) {
    s.stall >= StallThreshold || o.Reached?
  }

  /** The discovery loop from the probe at index `i` (hop limit i + 1) on.
      Running out of outcomes is cancellation: the loop ends before the next
      probe with what it has. */
  function ScanFrom(outcomes: seq<Outcome>, i: nat, s: Scan): (r: Run)
    requires i <= MaxHops && i <= |outcomes|
    ensures i <= r.created <= MaxHops && r.created <= |outcomes|
    ensures r.failed ==> r.created < MaxHops && r.created < |outcomes| && outcomes[r.created].Fault?
    decreases MaxHops - i
  {
    if i >= MaxHops || i >= |outcomes| then Run(i, false)
    else if outcomes[i].Fault? then Run(i, true)
    else
      var s' := Step(s, outcomes[i]);
      if Halts(s', outcomes[i]) then Run(i + 1, false) else ScanFrom(outcomes, i + 1, s')
  }

  function Discover(outcomes: seq<Outcome>): (r: Run)
    ensures r.created <= MaxHops && r.created <= |outcomes|
  {
    ScanFrom(outcomes, 0, Scan(None, 0))
  }

  /** The carried state after the first `k` probes. */
  function StateAfter(outcomes: seq<Outcome>, k: nat): Scan
    requires k <= |outcomes|
  {
    if k == 0 then Scan(None, 0) else Step(StateAfter(outcomes, k - 1), outcomes[k - 1])
  }

  lemma {:induction false} ScanFromFacts(outcomes: seq<Outcome>, i: nat)
    requires i <= MaxHops && i <= |outcomes|
    requires forall j :: 1 <= j <= i ==> !Halts(StateAfter(outcomes, j), outcomes[j - 1])
    ensures var r := ScanFrom(outcomes, i, StateAfter(outcomes, i));
      && i <= r.created <= MaxHops && r.created <= |outcomes|
      && (forall j :: i <= j < r.created ==> !outcomes[j].Fault?)
      && (r.failed ==> r.created < MaxHops && r.created < |outcomes| && outcomes[r.created].Fault?)
      && (forall j :: 1 <= j < r.created || (r.failed && 1 <= j == r.created) ==>
            !Halts(StateAfter(outcomes, j), outcomes[j - 1]))
      && (!r.failed && r.created < MaxHops && r.created < |outcomes| ==>
            1 <= r.created && Halts(StateAfter(outcomes, r.created), outcomes[r.created - 1]))
    decreases MaxHops - i
  {
    if i < MaxHops && i < |outcomes| && !outcomes[i].Fault? {
      var s' := Step(StateAfter(outcomes, i), outcomes[i]);
      assert s' == StateAfter(outcomes, i + 1);
      if !Halts(s', outcomes[i]) {
        ScanFromFacts(outcomes, i + 1);
      }
    }
  }

  /** What discovery does, for every sequence of probe outcomes: it tries at
      most 40 hop limits and never more than it has outcomes for; no probe it
      built a hop for failed; it is abandoned exactly when the probe after the
      last hop threw; it went on past a hop limit only when that probe neither
      came from the target nor brought the stall count to five; and when it
      ended early without failing, it was for one of those two reasons. */
  lemma DiscoverFacts(outcomes: seq<Outcome>)
    ensures var r := Discover(outcomes);
      && r.created <= MaxHops && r.created <= |outcomes|
      && (forall j :: 0 <= j < r.created ==> !outcomes[j].Fault?)
      && (r.failed ==> r.created < MaxHops && r.created < |outcomes| && outcomes[r.created].Fault?)
      && (forall j :: 1 <= j < r.created || (r.failed && 1 <= j == r.created) ==>
            !Halts(StateAfter(outcomes, j), outcomes[j - 1]))
      && (!r.failed && r.created < MaxHops && r.created < |outcomes| ==>
            1 <= r.created && Halts(StateAfter(outcomes, r.created), outcomes[r.created - 1]))
  {
    ScanFromFacts(outcomes, 0);
  }

  /** Discovery stops right after the first reply from the target: no hop but
      the last one it built came from a Success reply. */
  lemma StopsAtFirstSuccess(outcomes: seq<Outcome>)
    ensures forall j :: 0 <= j < Discover(outcomes).created - 1 ==> !outcomes[j].Reached?
    ensures Discover(outcomes).failed ==> forall j :: 0 <= j < Discover(outcomes).created ==> !outcomes[j].Reached?
  {
    DiscoverFacts(outcomes);
    var r := Discover(outcomes);
    forall j | 0 <= j < r.created - 1 || (r.failed && 0 <= j < r.created)
      ensures !outcomes[j].Reached?
    {
      assert !Halts(StateAfter(outcomes, j + 1), outcomes[j]);
    }
  }

  /** A probe that counts toward the stall: no reply, or a reply from the
      address seen last. */
  predicate Repeats(last: Option<Address>, o: Outcome) {
    o.Silent? || ((o.Reached? || o.Expired?) && last.Some? && o.from == last)
  }

  lemma {:induction false} StallGrows(outcomes: seq<Outcome>, i: nat, k: nat)
    requires i + k <= |outcomes|
    requires forall j :: i <= j < i + k ==> Repeats(StateAfter(outcomes, i).last, outcomes[j])
    ensures StateAfter(outcomes, i + k).last == StateAfter(outcomes, i).last
    ensures StateAfter(outcomes, i + k).stall >= StateAfter(outcomes, i).stall + k
    decreases k
  {
    if k > 0 {
      StallGrows(outcomes, i, k - 1);
    }
  }

  /** Five probes in a row that get no reply, or that get a reply from the
      address seen last, end discovery by the fifth of them at the latest. */
  lemma StopsOnStall(outcomes: seq<Outcome>, i: nat)
    requires i + StallThreshold <= |outcomes|
    requires forall j :: i <= j < i + StallThreshold ==> Repeats(StateAfter(outcomes, i).last, outcomes[j])
    ensures Discover(outcomes).created <= i + StallThreshold
  {
    DiscoverFacts(outcomes);
    StallGrows(outcomes, i, StallThreshold);
  }

  /** Six replies in a row from one address (the first one and five repeats)
      end discovery by the sixth of them at the latest. */
  lemma StopsOnSameAddress(outcomes: seq<Outcome>, i: nat, a: Address)
    requires i + StallThreshold + 1 <= |outcomes|
    requires forall j :: i <= j <= i + StallThreshold ==> (outcomes[j].Expired? || outcomes[j].Reached?) && outcomes[j].from == Some(a)
    ensures Discover(outcomes).created <= i + StallThreshold + 1
  {
    assert StateAfter(outcomes, i + 1).last == Some(a);
    StopsOnStall(outcomes, i + 1);
  }

  lemma {:induction false} NoStallOnFreshAddresses(outcomes: seq<Outcome>, k: nat)
    requires k <= |outcomes|
    requires forall j :: 0 <= j < k ==> outcomes[j].Expired? && outcomes[j].from.Some?
    requires forall j :: 1 <= j < k ==> outcomes[j].from != outcomes[j - 1].from
    ensures StateAfter(outcomes, k).stall == 0
    ensures k > 0 ==> StateAfter(outcomes, k).last == outcomes[k - 1].from
    decreases k
  {
    if k > 0 {
      NoStallOnFreshAddresses(outcomes, k - 1);
    }
  }

  /** A target reachable in n hops, every router on the way answering from a
      different address than the one before it, is discovered as exactly n
      hops, ending at the target's reply. */
  lemma ReachableInN(outcomes: seq<Outcome>, n: nat)
    requires 1 <= n <= MaxHops && n <= |outcomes|
    requires forall j :: 0 <= j < n - 1 ==> outcomes[j].Expired? && outcomes[j].from.Some?
    requires forall j :: 1 <= j < n - 1 ==> outcomes[j].from != outcomes[j - 1].from
    requires outcomes[n - 1].Reached?
    ensures Discover(outcomes) == Run(n, false)
  {
    DiscoverFacts(outcomes);
    var r := Discover(outcomes);
    assert Halts(StateAfter(outcomes, n), outcomes[n - 1]);
    if r.created < n {
      if !r.failed {
        NoStallOnFreshAddresses(outcomes, r.created);
        assert false;
      }
    }
  }

  /** What the name and ASN services answer about one replying hop: the PTR
      lookup of its address and the replies of the two providers. */
  datatype Answers = Answers(ptr: PtrLookup, primary: IpApiReply, secondary: IpInfoReply)

  /** The text discovery stores as a replying hop's address. */
  function AddressText(from: Option<Address>): string {
    if from.Some? then Text(from.value) else "N/A"
  }

  /** The record discovery creates for hop limit `ttl`: the replying address,
      its text and its class; or, for a hop that did not answer, the "*"
      markers. Statistics are fresh and no lookup is pending. */
  function CreatedRecord(ttl: nat, o: Outcome): HopRecord
    requires !o.Fault?
  {
    if o.Silent? then
      HopRecord(ttl, "*", "Sem resposta do host", false, Fresh, None, NotAvailable, "N/A", "N/A", false)
    else
      HopRecord(ttl, AddressText(o.from), "", false, Fresh, o.from, Classify(o.from), "", "", false)
  }

  /** The same record once discovery is over: a replying hop also carries
      what its reverse lookup and its ASN lookup stored, both of which have
      completed by the time discovery returns. */
  function DiscoveredRecord(ttl: nat, o: Outcome, resolveNames: bool, userAsn: string): HopRecord
    requires !o.Fault?
  {
    if o.Silent? then CreatedRecord(ttl, o)
    else
      var text := AddressText(o.from);
      var name := if !resolveNames then text else if o.from.None? then "" else ReverseName(o.answers.ptr, text);
      var geo := HopGeo(o.from.Some?, Classify(o.from), userAsn, o.answers.primary, o.answers.secondary);
      HopRecord(ttl, text, name, false, Fresh, o.from, Classify(o.from), geo.asn, geo.location, false)
  }

  /** What a discovered hop holds: its number, fresh statistics and no
      pending lookup; the "*" markers when it did not answer; otherwise the
      replying address's text, the host name its reverse lookup gave, and
      the operator's network for a local or unaddressed hop, or a non-blank
      ASN for a public one. */
  lemma DiscoveredFields(ttl: nat, o: Outcome, resolveNames: bool, userAsn: string)
    requires !o.Fault?
    ensures var r := DiscoveredRecord(ttl, o, resolveNames, userAsn);
            && r.hopNumber == ttl && r.stats == Fresh && !r.isResolvingHostname && !r.isFetchingGeoInfo
            && r.addressToPing == (if o.Silent? then None else o.from)
            && (o.Silent? ==> r.ipAddress == "*" && r.networkType == NotAvailable && r.asnInfo == "N/A")
            && (!o.Silent? && o.from.Some? ==>
                  && r.ipAddress == Text(o.from.value)
                  && r.hostname == (if resolveNames then ReverseName(o.answers.ptr, r.ipAddress) else r.ipAddress))
            && (!o.Silent? && (o.from.None? || Classify(o.from) != Public) ==>
                  r.asnInfo == userAsn && r.location == LocalNetwork)
            && (!o.Silent? && o.from.Some? && Classify(o.from) == Public ==> !IsNullOrWhiteSpace(Some(r.asnInfo)))
  {
    if !o.Silent? {
      HopGeoFallback(o.from.Some?, Classify(o.from), userAsn, o.answers.primary, o.answers.secondary,
                     o.answers.primary, o.answers.secondary);
    }
  }

  ghost predicate Created(h: HopInfo, ttl: nat, o: Outcome)
    reads h
  {
    !o.Fault? && h.Record() == CreatedRecord(ttl, o)
  }

  ghost predicate Describes(h: HopInfo, ttl: nat, o: Outcome, resolveNames: bool, userAsn: string)
    reads h
  {
    !o.Fault? && h.Record() == DiscoveredRecord(ttl, o, resolveNames, userAsn)
  }

  /** The record for hop limit `ttl`: `new HopInfo { HopNumber = ttl }`, then
      the replying address, its text and its class, or the markers of a hop
      that did not answer. */
  method NewHop(ttl: nat, o: Outcome) returns (hop: HopInfo)
    requires !o.Fault?
    ensures fresh(hop) && Created(hop, ttl, o)
  {
    hop := new HopInfo(ttl);
    if o.Reached? || o.Expired? {
      MarkReplied(hop, o.from);
    } else {
      MarkSilent(hop);
    }
  }

  /** The fields set for a hop that replied: its address, the address text
      ("N/A" when the reply carries none) and the address's class. */
  method MarkReplied(hop: HopInfo, from: Option<Address>)
    modifies hop
    ensures hop.Record() == old(hop.Record()).(addressToPing := from, ipAddress := AddressText(from),
                                               networkType := Classify(from))
  {
    hop.addressToPing, hop.ipAddress, hop.networkType := from, AddressText(from), Classify(from);
  }

  /** The markers set for a hop that did not reply. */
  method MarkSilent(hop: HopInfo)
    modifies hop
    ensures hop.Record() == old(hop.Record()).(ipAddress := "*", hostname := "Sem resposta do host",
                                               networkType := NotAvailable, asnInfo := "N/A", location := "N/A")
  {
    hop.ipAddress, hop.hostname := "*", "Sem resposta do host";
    hop.networkType, hop.asnInfo, hop.location := NotAvailable, "N/A", "N/A";
  }

  /** The lookups discovery starts for a replying hop, run to completion:
      ResolveHostnameAsync and GetIpInfoAsync. */
  method LookUp(hop: HopInfo, ttl: nat, o: Outcome, resolveNames: bool, userAsn: string)
    requires Created(hop, ttl, o) && !o.Silent?
    modifies hop
    ensures Describes(hop, ttl, o, resolveNames, userAsn)
  {
    ghost var before := hop.Record();
    ghost var text := AddressText(o.from);
    ghost var name := if !resolveNames then text else if o.from.None? then "" else ReverseName(o.answers.ptr, text);
    ghost var geo := HopGeo(o.from.Some?, Classify(o.from), userAsn, o.answers.primary, o.answers.secondary);
    hop.ResolveHostname(resolveNames, o.answers.ptr);
    assert hop.Record() == before.(hostname := name);
    hop.FetchGeoInfo(userAsn, o.answers.primary, o.answers.secondary);
    assert hop.Record() == before.(hostname := name, asnInfo := geo.asn, location := geo.location);
  }

  /** `list` holds the hops of the registry `hops` numbered 1, 2, ..., in
      order. */
  ghost predicate Listed(hops: map<int, HopInfo>, list: seq<HopInfo>) {
    forall k :: 1 <= k <= |list| ==> k in hops && hops[k] == list[k - 1]
  }

  /** Storing the next hop under the next number extends the list. */
  lemma ListedStep(hops: map<int, HopInfo>, list: seq<HopInfo>, hop: HopInfo)
    requires Listed(hops, list)
    ensures Listed(hops[|list| + 1 := hop], list + [hop])
  {
  }

  /** The state of the discovery loop after |list| probes: each hop of the
      list describes its probe and is the registry's entry for its number,
      every other entry of the registry `before` is still there, and no
      other entry has been added. */
  ghost predicate Tracked(hops: map<int, HopInfo>, before: map<int, HopInfo>, list: seq<HopInfo>,
                          outcomes: seq<Outcome>, resolveNames: bool, userAsn: string)
    reads list
  {
    && |list| <= |outcomes|
    && (forall i :: 0 <= i < |list| ==> Describes(list[i], i + 1, outcomes[i], resolveNames, userAsn))
    && Listed(hops, list)
    && Kept(hops, before, |list|)
  }

  /** Apart from the numbers 1..n, the registry `hops` holds exactly the
      entries of the registry `before`. */
  ghost predicate Kept(hops: map<int, HopInfo>, before: map<int, HopInfo>, n: nat) {
    && (forall k :: k in before && !(1 <= k <= n) ==> k in hops && hops[k] == before[k])
    && (forall k :: k in hops ==> k in before || 1 <= k <= n)
  }

  /** Storing an entry under the next number keeps every other entry. */
  lemma KeptStep(hops: map<int, HopInfo>, before: map<int, HopInfo>, n: nat, hop: HopInfo)
    requires Kept(hops, before, n)
    ensures Kept(hops[n + 1 := hop], before, n + 1)
  {
  }

  /** The tracked state read entry by entry of the registry: hop numbers
      1..|list| hold the list's hops, each describing its probe, and every
      other number is an entry of `before`. */
  lemma Published(hops: map<int, HopInfo>, before: map<int, HopInfo>, list: seq<HopInfo>,
                  outcomes: seq<Outcome>, resolveNames: bool, userAsn: string)
    requires Tracked(hops, before, list, outcomes, resolveNames, userAsn)
    ensures forall ttl :: 1 <= ttl <= |list| ==>
              ttl in hops && hops[ttl] == list[ttl - 1]
              && Describes(hops[ttl], ttl, outcomes[ttl - 1], resolveNames, userAsn)
    ensures forall k :: k in hops && !(1 <= k <= |list|) ==> k in before && hops[k] == before[k]
  {
  }

  /** The part of the analyser that owns the shared hop registry. */
  class Tracer {
    /** The registry of hops by hop number, rendered row by row as they appear. */
    var hops: map<int, HopInfo>

    constructor ()
      ensures hops == map[]
    {
      hops := map[];
    }

    /** One hop of the discovery loop after its probe returned: `new HopInfo
        { HopNumber = ttl }`, stored in the registry under its number, given
        the probe's address or the no-reply markers, looked up when it
        replied, and added to the list. */
    method Publish(outcomes: seq<Outcome>, ttl: nat, resolveNames: bool, userAsn: string,
                   ghost before: map<int, HopInfo>,
                   ghost list: seq<HopInfo>) returns (hop: HopInfo)
      requires 1 <= ttl <= |outcomes| && |list| == ttl - 1 && !outcomes[ttl - 1].Fault?
      requires Tracked(hops, before, list, outcomes, resolveNames, userAsn)
      modifies this`hops
      ensures fresh(hop) && hops == old(hops)[ttl := hop]
      ensures Tracked(hops, before, list + [hop], outcomes, resolveNames, userAsn)
    {
      var o := outcomes[ttl - 1];
      hop := NewHop(ttl, o);
      hops := hops[ttl := hop];
      assert forall i :: 0 <= i < |list| ==> list[i] != hop;
      if !o.Silent? {
        LookUp(hop, ttl, o, resolveNames, userAsn);
      }
      assert forall i :: 0 <= i < |list| ==>
               Describes(list[i], i + 1, outcomes[i], resolveNames, userAsn);
      assert Describes(hop, ttl, o, resolveNames, userAsn);
      ghost var extended := list + [hop];
      assert forall i :: 0 <= i < |extended| ==>
               Describes(extended[i], i + 1, outcomes[i], resolveNames, userAsn) by {
        forall i | 0 <= i < |extended|
          ensures Describes(extended[i], i + 1, outcomes[i], resolveNames, userAsn)
        {
          if i < |list| {
            assert extended[i] == list[i];
          }
        }
      }
      ListedStep(old(hops), list, hop);
      KeptStep(old(hops), before, |list|, hop);
    }

    /** DiscoverRouteAsync over the outcomes of its probes, one per hop limit
        in order; running out of outcomes is the cancellation token firing.
        Hops 1..k are created and published in the
        registry as they are found, k as Discover says (`published`, all new
        objects), and nothing else is added to it; every replying hop's
        lookups have completed when the list of them is returned, or null
        when a probe threw (the hops already published stay in the
        registry). */
    method DiscoverRoute(outcomes: seq<Outcome>, resolveNames: bool, userAsn: string)
      returns (discovered: Option<seq<HopInfo>>, ghost published: seq<HopInfo>)
      modifies this`hops
      ensures |published| == Discover(outcomes).created
      ensures forall h :: h in published ==> fresh(h)
      ensures Tracked(hops, old(hops), published, outcomes, resolveNames, userAsn)
      ensures discovered.None? <==> Discover(outcomes).failed
      ensures discovered.Some? ==> discovered.value == published
    {
      var list: seq<HopInfo> := [];
      var failed := false;
      var scan := Scan(None, 0);
      var ttl: nat := 1;
      while ttl <= MaxHops && ttl <= |outcomes|
        invariant 1 <= ttl <= MaxHops + 1 && ttl - 1 <= |outcomes| && |list| == ttl - 1
        invariant ScanFrom(outcomes, ttl - 1, scan) == Discover(outcomes)
        invariant Tracked(hops, old(hops), list, outcomes, resolveNames, userAsn)
        invariant forall h :: h in list ==> fresh(h)
        decreases MaxHops + 1 - ttl
      {
        var outcome := outcomes[ttl - 1];
        if outcome.Fault? {
          assert Discover(outcomes) == Run(ttl - 1, true);
          failed := true;
          break;
        }
        var hop := Publish(outcomes, ttl, resolveNames, userAsn, old(hops), list);
        list := list + [hop];
        scan := Step(scan, outcome);
        if Halts(scan, outcome) {
          assert Discover(outcomes) == Run(ttl, false);
          break;
        }
        ttl := ttl + 1;
      }
      assert Discover(outcomes) == Run(|list|, failed);
      published := list;
      discovered := if failed then None else Some(list);
    }
  }
}
