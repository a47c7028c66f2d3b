/** Path analysis, the third phase of a run: every discovered hop that
    answered with an address is pinged a fixed number of times, each probe
    leaving its round-trip time or -1 for a loss, and then one summary row per
    hop reports the truncated mean of the answered times, the lost count out
    of the fixed total with its integer percentage, and the hop's address. */
module PathPing {
  import opened Common
  import opened Net
  import opened Hops

  /** PATHPING_PACKET_COUNT: probes sent to each addressed hop. */
  const PacketCount: nat := 50

  /** The samples path analysis keeps for one hop, given the replies to its
      probes: one sample per probe for a hop with an address, none otherwise. */
  function Gathered(hop: HopSnapshot, echoes: seq<Echo>): seq<int> {
    if hop.hasAddress then Samples(echoes) else []
  }

  /** The collection loop: `results[i]` starts empty and, for a hop with an
      address, receives one sample per probe in order. `echoes[i]` are the
      replies hop `i` gives (a thrown exception counts as no reply). */
  method CollectSamples(hops: seq<HopSnapshot>, echoes: seq<seq<Echo>>)
      returns (results: map<int, seq<int>>)
    requires |echoes| == |hops|
    requires forall i :: 0 <= i < |hops| && hops[i].hasAddress ==> |echoes[i]| == PacketCount
    ensures forall i :: i in results <==> 0 <= i < |hops|
    ensures forall i :: 0 <= i < |hops| ==> results[i] == Gathered(hops[i], echoes[i])
  {
    results := map[];
    var i := 0;
    while i < |hops|
      invariant 0 <= i <= |hops|
      invariant forall k :: k in results <==> 0 <= k < i
      invariant forall k :: 0 <= k < i ==> results[k] == Gathered(hops[k], echoes[k])
    {
      results := results[i := []];
      if hops[i].hasAddress {
        var j := 0;
        while j < PacketCount
          invariant 0 <= j <= PacketCount
          invariant forall k :: k in results <==> 0 <= k <= i
          invariant forall k :: 0 <= k < i ==> results[k] == Gathered(hops[k], echoes[k])
          invariant results[i] == Samples(echoes[i][..j])
        {
          results := results[i := results[i] + [Sample(echoes[i][j])]];
          j := j + 1;
        }
        assert echoes[i][..PacketCount] == echoes[i];
      }
      i := i + 1;
    }
  }

  /** The number of samples equal to -1. */
  function LostCount(samples: seq<int>): (n: nat)
    ensures n <= |samples|
    decreases |samples|
  {
    if samples == [] then 0
    else LostCount(samples[..|samples| - 1]) + (if samples[|samples| - 1] == -1 then 1 else 0)
  }

  /** The non-negative samples, in order. */
  function ValidPings(samples: seq<int>): (v: seq<int>)
    ensures |v| <= |samples|
    ensures forall k :: 0 <= k < |v| ==> v[k] >= 0 && v[k] in samples
    ensures forall k :: 0 <= k < |samples| && samples[k] >= 0 ==> samples[k] in v
    decreases |samples|
  {
    if samples == [] then []
    else
      var last := samples[|samples| - 1];
      ValidPings(samples[..|samples| - 1]) + (if last >= 0 then [last] else [])
  }

  /** The valid samples hold every non-negative sample as many times as the
      samples do, and nothing else, so the average is over all of them. */
  lemma {:induction false} ValidPingsCounts(samples: seq<int>)
    ensures forall x :: multiset(ValidPings(samples))[x] == if x >= 0 then multiset(samples)[x] else 0
    decreases |samples|
  {
    if samples != [] {
      var init, last := samples[..|samples| - 1], samples[|samples| - 1];
      ValidPingsCounts(init);
      assert samples == init + [last];
    }
  }

  function Sum(v: seq<int>): int
    decreases |v|
  {
    if v == [] then 0 else Sum(v[..|v| - 1]) + v[|v| - 1]
  }

  /** `(long)validPings.Average()`, or 0 when nothing answered. The samples
      are non-negative, so truncation toward zero is the floor. */
  function AverageRtt(samples: seq<int>): int {
    var v := ValidPings(samples);
    if |v| == 0 then 0 else Sum(v) / |v|
  }

  /** The integer percentage `lost * 100 / PacketCount`; `lost` is never
      negative, so C#'s truncating division and Dafny's agree. */
  function LossPercent(lost: nat): int {
    lost * 100 / PacketCount
  }

  /** The address column: `host [ip]` when names are shown and the host name
      is present and differs from the address, the address otherwise. */
  function AddressLabel(hop: HopSnapshot, resolveNames: bool): string {
    if resolveNames && hop.hostname != "" && hop.hostname != hop.ipAddress
    then hop.hostname + " [" + hop.ipAddress + "]"
    else hop.ipAddress
  }

  /** One line of the final table. */
  datatype Row = Row(hop: int, avgRtt: int, lost: nat, lossPercent: int, address: string)

  /** The samples the summary reads for hop `i`: none when it has no entry. */
  function SamplesOf(results: map<int, seq<int>>, i: int): seq<int> {
    if i in results then results[i] else []
  }

  function RowFor(i: nat, hop: HopSnapshot, samples: seq<int>, resolveNames: bool): Row {
    var lost := LostCount(samples);
    Row(i + 1, AverageRtt(samples), lost, LossPercent(lost), AddressLabel(hop, resolveNames))
  }

  /** The summary loop: one row per discovered hop, in order. */
  method Summarize(hops: seq<HopSnapshot>, results: map<int, seq<int>>, resolveNames: bool)
      returns (rows: seq<Row>)
    ensures |rows| == |hops|
    ensures forall i :: 0 <= i < |hops| ==>
              rows[i] == RowFor(i, hops[i], SamplesOf(results, i), resolveNames)
  {
    rows := [];
    var i := 0;
    while i < |hops|
      invariant 0 <= i <= |hops| && |rows| == i
      invariant forall k :: 0 <= k < i ==> rows[k] == RowFor(k, hops[k], SamplesOf(results, k), resolveNames)
    {
      var samples := if i in results then results[i] else [];
      var lost := LostCount(samples);
      var avgRtt := AverageRtt(samples);
      rows := rows + [Row(i + 1, avgRtt, lost, LossPercent(lost), AddressLabel(hops[i], resolveNames))];
      i := i + 1;
    }
  }

  /** The percentage is twice the lost count, so it runs from 0 to 100. */
  lemma LossPercentIsDouble(lost: nat)
    ensures LossPercent(lost) == 2 * lost
    ensures lost <= PacketCount ==> 0 <= LossPercent(lost) <= 100
  {
    assert lost * 100 == (2 * lost) * PacketCount;
  }

  /** A hop's lost count is its number of unanswered probes, and its valid
      samples number its answered probes. */
  lemma {:induction false} SamplesCounted(echoes: seq<Echo>)
    ensures LostCount(Samples(echoes)) == Losses(echoes)
    ensures |ValidPings(Samples(echoes))| == Successes(echoes)
    decreases |echoes|
  {
    if echoes != [] {
      var init := echoes[..|echoes| - 1];
      assert Samples(echoes)[..|echoes| - 1] == Samples(init);
      SamplesCounted(init);
    }
  }

  /** Every sample is either a loss or valid, when none is below -1. */
  lemma {:induction false} LostAndValidPartition(samples: seq<int>)
    requires forall k :: 0 <= k < |samples| ==> samples[k] >= -1
    ensures LostCount(samples) + |ValidPings(samples)| == |samples|
    decreases |samples|
  {
    if samples != [] {
      LostAndValidPartition(samples[..|samples| - 1]);
    }
  }

  lemma {:induction false} SumBounds(v: seq<int>, lo: int, hi: int)
    requires forall k :: 0 <= k < |v| ==> lo <= v[k] <= hi
    ensures |v| * lo <= Sum(v) <= |v| * hi
    decreases |v|
  {
    if v != [] {
      var init, n := v[..|v| - 1], |v| - 1;
      assert forall k :: 0 <= k < n ==> init[k] == v[k];
      SumBounds(init, lo, hi);
      assert Sum(v) == Sum(init) + v[n] && lo <= v[n] <= hi;
      assert |v| * lo == n * lo + lo && |v| * hi == n * hi + hi;
    }
  }

  /** The reported average lies between the least and the greatest answered
      time; with no answered probe it is 0. */
  lemma AverageWithinRange(samples: seq<int>, lo: int, hi: int)
    requires forall k :: 0 <= k < |ValidPings(samples)| ==> lo <= ValidPings(samples)[k] <= hi
    ensures |ValidPings(samples)| > 0 ==> lo <= AverageRtt(samples) <= hi
    ensures |ValidPings(samples)| == 0 ==> AverageRtt(samples) == 0
  {
    var v := ValidPings(samples);
    if |v| > 0 {
      SumBounds(v, lo, hi);
      var n := |v|;
      assert n * lo <= Sum(v) <= n * hi;
      DivBounds(Sum(v), n, lo, hi);
    }
  }

  lemma DivBounds(s: int, n: int, lo: int, hi: int)
    requires n > 0 && n * lo <= s <= n * hi
    ensures lo <= s / n <= hi
  {
    var q := s / n;
    assert s == n * q + s % n && 0 <= s % n < n;
    LessTimes(n, lo, q + 1);
    AtMostTimes(n, q, hi);
  }

  lemma LessTimes(n: int, a: int, b: int)
    requires n > 0 && n * a < n * b
    ensures a < b
  {
    assert n * (b - a) == n * b - n * a > 0;
  }

  lemma AtMostTimes(n: int, a: int, b: int)
    requires n > 0 && n * a <= n * b
    ensures a <= b
  {
    LessTimes(n, a, b + 1);
  }

  /** A hop that answered the path-analysis probes: its row counts exactly
      its lost probes out of fifty, at twice that percentage, and its average
      lies between its fastest and slowest answer. */
  lemma AddressedRow(i: nat, hop: HopSnapshot, echoes: seq<Echo>, resolveNames: bool, lo: int, hi: int)
    requires hop.hasAddress && |echoes| == PacketCount
    requires forall k :: 0 <= k < |echoes| && echoes[k].Answered? ==> lo <= echoes[k].rtt <= hi
    ensures var r := RowFor(i, hop, Gathered(hop, echoes), resolveNames);
            && r.hop == i + 1
            && r.lost == Losses(echoes) <= PacketCount
            && r.lossPercent == 2 * Losses(echoes)
            && (Successes(echoes) > 0 ==> lo <= r.avgRtt <= hi)
            && (Successes(echoes) == 0 ==> r.avgRtt == 0)
  {
    var s := Samples(echoes);
    SamplesCounted(echoes);
    LossPercentIsDouble(Losses(echoes));
    forall k | 0 <= k < |ValidPings(s)| ensures lo <= ValidPings(s)[k] <= hi {
      var x := ValidPings(s)[k];
      assert x in s;
      var m :| 0 <= m < |s| && s[m] == x;
      assert echoes[m].Answered?;
    }
    AverageWithinRange(s, lo, hi);
  }

  /** A hop without an address is never probed, so its row shows 0 ms and
      0 lost, 0%, rather than a total loss. */
  lemma UnaddressedRow(i: nat, hop: HopSnapshot, echoes: seq<Echo>, resolveNames: bool)
    requires !hop.hasAddress
    ensures RowFor(i, hop, Gathered(hop, echoes), resolveNames)
            == Row(i + 1, 0, 0, 0, AddressLabel(hop, resolveNames))
  {
  }

  /** The address column is the bare address exactly when names are hidden,
      the host name is empty or it equals the address; otherwise it is longer
      and ends with the bracketed address. */
  lemma AddressLabelCases(hop: HopSnapshot, resolveNames: bool)
    ensures AddressLabel(hop, resolveNames) == hop.ipAddress
            <==> !resolveNames || hop.hostname == "" || hop.hostname == hop.ipAddress
    ensures AddressLabel(hop, resolveNames) != hop.ipAddress ==>
              && |AddressLabel(hop, resolveNames)| > |hop.ipAddress| + 2
              && AddressLabel(hop, resolveNames)[|AddressLabel(hop, resolveNames)| - |hop.ipAddress| - 2..]
                 == "[" + hop.ipAddress + "]"
  {
    var shown := AddressLabel(hop, resolveNames);
    if resolveNames && hop.hostname != "" && hop.hostname != hop.ipAddress {
      assert |shown| == |hop.hostname| + |hop.ipAddress| + 3;
      assert shown[|shown| - |hop.ipAddress| - 2..] == "[" + hop.ipAddress + "]";
    }
  }

  /** The address column extends the name the hop listing shows: it is that
      name when the name is the address itself, and otherwise that name
      followed by the bracketed address. */
  lemma LabelExtendsName(hop: HopSnapshot, resolveNames: bool)
    ensures AddressLabel(hop, resolveNames) == DisplayName(hop, resolveNames)
            <==> DisplayName(hop, resolveNames) == hop.ipAddress
    ensures DisplayName(hop, resolveNames) != hop.ipAddress ==>
              AddressLabel(hop, resolveNames) == DisplayName(hop, resolveNames) + " [" + hop.ipAddress + "]"
  {
    var column, name := AddressLabel(hop, resolveNames), DisplayName(hop, resolveNames);
    if name != hop.ipAddress {
      assert |column| == |name| + |hop.ipAddress| + 3;
    }
  }

  /** The whole phase: collect every hop's samples, then summarise them; row
      `i` is the row of hop `i`'s own probes. */
  method AnalyzePath(hops: seq<HopSnapshot>, echoes: seq<seq<Echo>>, resolveNames: bool)
      returns (rows: seq<Row>)
    requires |echoes| == |hops|
    requires forall i :: 0 <= i < |hops| && hops[i].hasAddress ==> |echoes[i]| == PacketCount
    ensures |rows| == |hops|
    ensures forall i :: 0 <= i < |hops| ==>
              rows[i] == RowFor(i, hops[i], Gathered(hops[i], echoes[i]), resolveNames)
  {
    var results := CollectSamples(hops, echoes);
    rows := Summarize(hops, results, resolveNames);
  }
}
