/** The per-hop record and its running statistics. Once warm-up is over each
    monitoring probe is counted as sent, and a lost probe also as lost; the
    last, best and worst round-trip times are kept, and the last fifty samples
    sit in a bounded FIFO where a loss is stored as -1. */
module Hops {
  import opened Common
  import opened Net
  import Geo

  /** WARMUP_PING_COUNT: probes excluded from the statistics. */
  const WarmupPingCount: nat := 10
  /** The capacity of the sample window. */
  const WindowSize: nat := 50

  /** The statistics fields of a hop record, as one value. */
  datatype Stats = Stats(warmupSent: int, totalSent: int, packetsLost: int,
                         lastPing: int, bestPing: int, worstPing: int,
                         pingTimes: seq<int>)

  /** A freshly created record: nothing sent, best time unset (-1). */
  const Fresh: Stats := Stats(0, 0, 0, 0, -1, 0, [])

  /** The value a probe leaves in the sample window. */
  function Sample(e: Echo): int {
    if e.Answered? then e.rtt else -1
  }

  /** `PingTimes.Add(x); if (PingTimes.Count > 50) PingTimes.RemoveAt(0);` */
  function Pushed(times: seq<int>, x: int): seq<int> {
    if |times + [x]| > WindowSize then (times + [x])[1..] else times + [x]
  }

  /** UpdateHopStats, on values: the statistics after one probe. */
  function Recorded(s: Stats, e: Echo): Stats {
    var s := s.(warmupSent := s.warmupSent + 1);
    if s.warmupSent <= WarmupPingCount then s
    else
      var s := s.(totalSent := s.totalSent + 1);
      match e
      case Answered(rtt) =>
        s.(lastPing := rtt,
           pingTimes := Pushed(s.pingTimes, rtt),
           bestPing := if s.bestPing == -1 || rtt < s.bestPing then rtt else s.bestPing,
           worstPing := if rtt > s.worstPing then rtt else s.worstPing)
      case Unanswered =>
        s.(packetsLost := s.packetsLost + 1,
           lastPing := -1,
           pingTimes := Pushed(s.pingTimes, -1))
  }

  /** One probe: during warm-up only the warm-up counter moves; afterwards one
      more probe is counted, a loss is counted as lost with last time -1 and
      leaves best and worst alone, and the sample goes to the end of the
      window, which drops its oldest entry only when it would exceed fifty. */
  lemma RecordedStep(s: Stats, e: Echo)
    requires |s.pingTimes| <= WindowSize
    ensures Recorded(s, e).warmupSent == s.warmupSent + 1
    ensures s.warmupSent + 1 <= WarmupPingCount ==> Recorded(s, e) == s.(warmupSent := s.warmupSent + 1)
    ensures s.warmupSent + 1 > WarmupPingCount ==>
              && Recorded(s, e).totalSent == s.totalSent + 1
              && Recorded(s, e).packetsLost == s.packetsLost + (if e.Unanswered? then 1 else 0)
              && Recorded(s, e).lastPing == Sample(e)
              && |Recorded(s, e).pingTimes| <= WindowSize
              && Recorded(s, e).pingTimes[|Recorded(s, e).pingTimes| - 1] == Sample(e)
              && (if |s.pingTimes| < WindowSize then Recorded(s, e).pingTimes == s.pingTimes + [Sample(e)]
                  else Recorded(s, e).pingTimes == s.pingTimes[1..] + [Sample(e)])
              && (e.Unanswered? ==> Recorded(s, e).bestPing == s.bestPing && Recorded(s, e).worstPing == s.worstPing)
  {
    if s.warmupSent + 1 > WarmupPingCount && |s.pingTimes| == WindowSize {
      assert (s.pingTimes + [Sample(e)])[1..] == s.pingTimes[1..] + [Sample(e)];
    }
  }

  /** The statistics after a whole run of probes, oldest first. */
  function Replay(s: Stats, probes: seq<Echo>): Stats
    decreases |probes|
  {
    if probes == [] then s else Recorded(Replay(s, probes[..|probes| - 1]), probes[|probes| - 1])
  }

  /** The probes that count: everything after the warm-up window. */
  function Counted(probes: seq<Echo>): seq<Echo> {
    if |probes| <= WarmupPingCount then [] else probes[WarmupPingCount..]
  }

  function Losses(probes: seq<Echo>): nat
    decreases |probes|
  {
    if probes == [] then 0
    else Losses(probes[..|probes| - 1]) + (if probes[|probes| - 1].Unanswered? then 1 else 0)
  }

  function Successes(probes: seq<Echo>): nat
    decreases |probes|
  {
    if probes == [] then 0
    else Successes(probes[..|probes| - 1]) + (if probes[|probes| - 1].Answered? then 1 else 0)
  }

  function Samples(probes: seq<Echo>): (r: seq<int>)
    ensures |r| == |probes|
    ensures forall i :: 0 <= i < |probes| ==> r[i] == Sample(probes[i])
  {
    seq(|probes|, i requires 0 <= i < |probes| => Sample(probes[i]))
  }

  /** The last `n` entries of `s` (all of them when there are fewer). */
  function LastN(s: seq<int>, n: nat): seq<int> {
    if |s| <= n then s else s[|s| - n..]
  }

  lemma PushedIsWindow(s: seq<int>, x: int)
    ensures Pushed(LastN(s, WindowSize), x) == LastN(s + [x], WindowSize)
  {
    if |s| > WindowSize {
      assert (s[|s| - WindowSize..] + [x])[1..] == (s + [x])[|s + [x]| - WindowSize..];
    }
  }

  /** After any run of probes from a fresh record: every probe bumped the
      warm-up counter; the probes past warm-up are all counted as sent, the
      unanswered ones as lost, so sent = answered + lost; the window holds the
      samples of the last fifty counted probes in order (FIFO); and the last
      time is the last counted probe's sample, -1 for a loss. */
  lemma {:induction false} ReplayCounters(probes: seq<Echo>)
    ensures Replay(Fresh, probes).warmupSent == |probes|
    ensures Replay(Fresh, probes).totalSent == |Counted(probes)|
    ensures Replay(Fresh, probes).packetsLost == Losses(Counted(probes))
    ensures Replay(Fresh, probes).totalSent == Successes(Counted(probes)) + Replay(Fresh, probes).packetsLost
    ensures Replay(Fresh, probes).pingTimes == LastN(Samples(Counted(probes)), WindowSize)
    ensures Replay(Fresh, probes).lastPing ==
              if Counted(probes) == [] then 0 else Sample(Counted(probes)[|Counted(probes)| - 1])
    decreases |probes|
  {
    if probes != [] {
      var init, e := probes[..|probes| - 1], probes[|probes| - 1];
      ReplayCounters(init);
      if |probes| > WarmupPingCount {
        CountedStep(probes);
        PushedIsWindow(Samples(Counted(init)), Sample(e));
      }
    }
  }

  /** A probe past warm-up joins the counted probes and their samples at the end. */
  lemma CountedStep(probes: seq<Echo>)
    requires |probes| > WarmupPingCount
    ensures var init, e := probes[..|probes| - 1], probes[|probes| - 1];
            && Counted(probes) == Counted(init) + [e]
            && Counted(probes)[..|Counted(probes)| - 1] == Counted(init)
            && Samples(Counted(probes)) == Samples(Counted(init)) + [Sample(e)]
  {
    var init, e := probes[..|probes| - 1], probes[|probes| - 1];
    var c, c0 := Counted(probes), Counted(init);
    assert c == c0 + [e];
    assert c[..|c| - 1] == c0;
  }

  /** Every probe, counted or not, moves the warm-up counter. */
  lemma {:induction false} ReplayWarmup(probes: seq<Echo>)
    ensures Replay(Fresh, probes).warmupSent == |probes|
    decreases |probes|
  {
    if probes != [] {
      ReplayWarmup(probes[..|probes| - 1]);
    }
  }

  /** `best` and `worst` bound every answered time of `counted`, are -1 and 0
      while none is answered, and are answered times themselves afterwards. */
  ghost predicate Extremal(best: int, worst: int, counted: seq<Echo>) {
    && (forall i :: 0 <= i < |counted| && counted[i].Answered? ==> best <= counted[i].rtt <= worst)
    && (Successes(counted) == 0 ==> best == -1 && worst == 0)
    && (Successes(counted) > 0 ==>
          && best >= 0
          && (exists i :: 0 <= i < |counted| && counted[i].Answered? && counted[i].rtt == best)
          && (exists i :: 0 <= i < |counted| && counted[i].Answered? && counted[i].rtt == worst))
  }

  lemma {:induction false} NoSuccesses(probes: seq<Echo>)
    requires Successes(probes) == 0
    ensures forall i :: 0 <= i < |probes| ==> probes[i].Unanswered?
    decreases |probes|
  {
    if probes != [] {
      var init := probes[..|probes| - 1];
      NoSuccesses(init);
      assert forall i :: 0 <= i < |init| ==> probes[i] == init[i];
    }
  }

  lemma ExtremalStep(s: Stats, counted: seq<Echo>, e: Echo)
    requires s.warmupSent >= WarmupPingCount
    requires Extremal(s.bestPing, s.worstPing, counted)
    ensures Extremal(Recorded(s, e).bestPing, Recorded(s, e).worstPing, counted + [e])
  {
    var c := counted + [e];
    assert c[..|c| - 1] == counted;
    assert forall i :: 0 <= i < |counted| ==> c[i] == counted[i];
    if Successes(counted) == 0 {
      NoSuccesses(counted);
    } else {
      var i :| 0 <= i < |counted| && counted[i].Answered? && counted[i].rtt == s.bestPing;
      var j :| 0 <= j < |counted| && counted[j].Answered? && counted[j].rtt == s.worstPing;
      assert c[i] == counted[i] && c[j] == counted[j];
    }
    assert c[|c| - 1] == e;
  }

  /** The best time is -1 until a counted probe is answered; from then on it
      is the smallest answered round-trip time and the worst time the largest:
      no answered time lies outside [best, worst]. */
  lemma {:induction false} ReplayExtremes(probes: seq<Echo>)
    ensures Extremal(Replay(Fresh, probes).bestPing, Replay(Fresh, probes).worstPing, Counted(probes))
    decreases |probes|
  {
    if probes != [] {
      var init, e := probes[..|probes| - 1], probes[|probes| - 1];
      ReplayExtremes(init);
      ReplayWarmup(init);
      if |probes| > WarmupPingCount {
        assert Counted(probes) == Counted(init) + [e];
        ExtremalStep(Replay(Fresh, init), Counted(init), e);
      } else {
        assert Counted(probes) == [] && Counted(init) == [];
        assert Replay(Fresh, probes) == Replay(Fresh, init).(warmupSent := |probes|);
      }
    }
  }

  /** The invariant every hop record keeps: the window is bounded and holds
      samples only, losses never exceed probes sent, and the sent counter is
      exactly the number of probes past warm-up. */
  predicate Consistent(s: Stats) {
    && |s.pingTimes| <= WindowSize
    && (forall i :: 0 <= i < |s.pingTimes| ==> s.pingTimes[i] >= -1)
    && 0 <= s.packetsLost <= s.totalSent
    && s.warmupSent >= 0
    && s.totalSent == (if s.warmupSent <= WarmupPingCount then 0 else s.warmupSent - WarmupPingCount)
    && s.bestPing >= -1
  }

  /** Every probe keeps the record consistent. */
  lemma RecordedConsistent(s: Stats, e: Echo)
    requires Consistent(s)
    ensures Consistent(Recorded(s, e))
  {
  }

  /** The fields of a hop that path analysis and the diagnosis read, copied
      out of the record at one moment. */
  datatype HopSnapshot = HopSnapshot(hopNumber: int, ipAddress: string, hostname: string,
                                     hasAddress: bool, totalSent: int, packetsLost: int,
                                     bestPing: int, asnInfo: string, location: string)

  /** The name a report shows for a hop: its host name when names are shown
      and one is known, its address otherwise. */
  function DisplayName(hop: HopSnapshot, resolveNames: bool): string {
    if resolveNames && hop.hostname != "" then hop.hostname else hop.ipAddress
  }

  /** Every field of a hop record, as one value. */
  datatype HopRecord = HopRecord(hopNumber: int, ipAddress: string, hostname: string,
                                 isResolvingHostname: bool, stats: Stats,
                                 addressToPing: Option<Address>, networkType: NetworkType,
                                 asnInfo: string, location: string, isFetchingGeoInfo: bool)

  /** A PTR lookup: it throws, or it returns the PTR domain names. */
  datatype PtrLookup = PtrFailed | PtrNames(names: seq<string>)

  /** The host name a reverse lookup stores: the first PTR name without its
      trailing dots, or the address text when there is none. */
  function ReverseName(ptr: PtrLookup, ipAddress: string): (name: string)
    ensures ptr.PtrNames? && ptr.names != [] ==>
              name <= ptr.names[0] && (name == [] || name[|name| - 1] != '.')
              && forall i :: |name| <= i < |ptr.names[0]| ==> ptr.names[0][i] == '.'
    ensures (ptr.PtrFailed? || ptr.names == []) ==> name == ipAddress
  {
    if ptr.PtrNames? && ptr.names != [] then TrimEnd(ptr.names[0], '.') else ipAddress
  }

  /** HopInfo: one hop of the route, shared by discovery, the monitor and the
      name and ASN lookups. */
  class HopInfo {
    var hopNumber: int
    var ipAddress: string
    var hostname: string
    var isResolvingHostname: bool
    var totalSent: int
    var packetsLost: int
    var lastPing: int
    var bestPing: int
    var worstPing: int
    var pingTimes: seq<int>
    var addressToPing: Option<Address>
    var warmupPingsSent: int
    var networkType: NetworkType
    var asnInfo: string
    var location: string
    var isFetchingGeoInfo: bool

    function StatsOf(): Stats
      reads this
    {
      Stats(warmupPingsSent, totalSent, packetsLost, lastPing, bestPing, worstPing, pingTimes)
    }

    function Record(): HopRecord
      reads this
    {
      HopRecord(hopNumber, ipAddress, hostname, isResolvingHostname, StatsOf(), addressToPing,
                networkType, asnInfo, location, isFetchingGeoInfo)
    }

    ghost predicate Valid()
      reads this
    {
      Consistent(StatsOf())
    }

    function Snapshot(): HopSnapshot
      reads this
    {
      HopSnapshot(hopNumber, ipAddress, hostname, addressToPing.Some?, totalSent, packetsLost,
                  bestPing, asnInfo, location)
    }

    /** `new HopInfo { HopNumber = ttl }`: every other field at its default. */
    constructor (number: int)
      ensures Valid() && StatsOf() == Fresh
      ensures hopNumber == number && ipAddress == "" && hostname == "" && !isResolvingHostname
      ensures addressToPing == None && networkType == Unset && asnInfo == "" && location == ""
      ensures !isFetchingGeoInfo
    {
      hopNumber := number;
      ipAddress, hostname := "", "";
      isResolvingHostname := false;
      totalSent, packetsLost, lastPing, bestPing, worstPing := 0, 0, 0, -1, 0;
      pingTimes := [];
      addressToPing := None;
      warmupPingsSent := 0;
      networkType := Unset;
      asnInfo, location := "", "";
      isFetchingGeoInfo := false;
    }

    /** UpdateHopStats: record one monitoring probe. Only the statistics
        fields change. */
    method UpdateStats(reply: Echo)
      requires Valid()
      modifies this`warmupPingsSent, this`totalSent, this`packetsLost, this`lastPing,
               this`bestPing, this`worstPing, this`pingTimes
      ensures Valid()
      ensures StatsOf() == Recorded(old(StatsOf()), reply)
    {
      warmupPingsSent := warmupPingsSent + 1;
      if warmupPingsSent <= WarmupPingCount {
        return;
      }
      totalSent := totalSent + 1;
      if reply.Answered? {
        var rtt := reply.rtt;
        lastPing := rtt;
        pingTimes := pingTimes + [rtt];
        if |pingTimes| > WindowSize {
          pingTimes := pingTimes[1..];
        }
        if bestPing == -1 || rtt < bestPing {
          bestPing := rtt;
        }
        if rtt > worstPing {
          worstPing := rtt;
        }
      } else {
        packetsLost := packetsLost + 1;
        lastPing := -1;
        pingTimes := pingTimes + [-1];
        if |pingTimes| > WindowSize {
          pingTimes := pingTimes[1..];
        }
      }
    }

    /** ResolveHostnameAsync, with the background lookup run to completion.
        With name resolution off the host name is the address text; a hop
        without an address, or one whose lookup is already in flight, is left
        alone; otherwise the PTR answer (or the address text) is stored and
        the in-flight flag is cleared again. */
    method ResolveHostname(resolveNames: bool, ptr: PtrLookup)
      modifies this`hostname, this`isResolvingHostname
      ensures !resolveNames ==>
                hostname == ipAddress && isResolvingHostname == old(isResolvingHostname)
      ensures resolveNames && (addressToPing.None? || old(isResolvingHostname)) ==>
                hostname == old(hostname) && isResolvingHostname == old(isResolvingHostname)
      ensures resolveNames && addressToPing.Some? && !old(isResolvingHostname) ==>
                hostname == ReverseName(ptr, ipAddress) && !isResolvingHostname
    {
      if !resolveNames {
        hostname := ipAddress;
        return;
      }
      if addressToPing.None? || isResolvingHostname {
        return;
      }
      isResolvingHostname := true;
      if ptr.PtrNames? && ptr.names != [] {
        hostname := TrimEnd(ptr.names[0], '.');
      } else {
        hostname := ipAddress;
      }
      isResolvingHostname := false;
    }

    /** GetIpInfoAsync, with both provider calls as inputs. The pending flag
        is raised only for a real lookup and is cleared on every way out. */
    method FetchGeoInfo(userAsn: string, primary: Geo.IpApiReply, secondary: Geo.IpInfoReply)
      modifies this`asnInfo, this`location, this`isFetchingGeoInfo
      ensures Geo.GeoInfo(asnInfo, location)
                == Geo.HopGeo(addressToPing.Some?, networkType, userAsn, primary, secondary)
      ensures isFetchingGeoInfo ==
                (if addressToPing.None? || networkType != Public then old(isFetchingGeoInfo) else false)
    {
      if addressToPing.None? || networkType != Public {
        asnInfo := userAsn;
        location := Geo.LocalNetwork;
        return;
      }
      isFetchingGeoInfo := true;
      var success := false;
      if Geo.IpApiUsable(primary) {
        asnInfo := primary.asn.value;
        location := Geo.LocationText(primary.city, primary.country);
        success := true;
      }
      if !success && Geo.IpInfoUsable(secondary) {
        asnInfo := secondary.org.value;
        location := Geo.LocationText(secondary.city, secondary.country);
        success := true;
      }
      if !success {
        asnInfo := Geo.LookupFailed;
        location := Geo.NoLocation;
      }
      isFetchingGeoInfo := false;
    }
  }
}
