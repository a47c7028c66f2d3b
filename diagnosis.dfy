/** The automatic diagnosis: ordered rules over a snapshot of the hop records
    (ordered by hop number) that yield findings, each a message with a colour
    and an emphasis flag. Loss percentages are `lost / sent * 100` computed in
    double precision; they are modelled as exact reals, with the one division
    that can meet a zero count (the destination's) giving NaN or an infinity,
    against which every comparison is false except the infinity's own sign. */
module Diagnosis {
  import opened Common
  import opened Hops

  datatype Colour = Black | DarkRed | DarkOrange | DarkBlue | DarkGreen | Gray

  /** A finding of the diagnosis; `Text`, `ColourOf` and `Emphasised` give
      the message, colour and bold flag the report shows for it. */
  datatype Finding =
    | Waiting
    | FirstHopLoss | FirstHopLossNote
    | FirstHopLatency | FirstHopLatencyNote
    | OriginAlert(hopNumber: int, name: string) | OriginNote(asn: string, location: string)
    | DestinationLoss | DestinationNote(name: string)
    | Deprioritised | DeprioritisedNote
    | NoIssues | Analysing

  /** An IEEE double that is a number, NaN or an infinity. */
  datatype Ratio = NaN | Infinite(positive: bool) | Num(value: real)

  predicate Above(r: Ratio, x: real) {
    match r
    case NaN => false
    case Infinite(positive) => positive
    case Num(v) => v > x
  }

  predicate Below(r: Ratio, x: real) {
    match r
    case NaN => false
    case Infinite(positive) => !positive
    case Num(v) => v < x
  }

  /** The loss percentage of a hop that has sent something. */
  function Rate(h: HopSnapshot): real
    requires h.totalSent != 0
  {
    h.packetsLost as real / h.totalSent as real * 100.0
  }

  /** The loss percentage of any hop, as the double division yields it. */
  function Loss(h: HopSnapshot): Ratio {
    if h.totalSent != 0 then Num(Rate(h))
    else if h.packetsLost == 0 then NaN
    else Infinite(h.packetsLost > 0)
  }

  function Text(f: Finding): string {
    match f
    case Waiting => "Aguardando mais dados para uma análise precisa..."
    case FirstHopLoss => "ALERTA: Perda de pacotes significativa no primeiro salto (seu roteador)."
    case FirstHopLossNote => "Isso indica um problema na sua rede local. Verifique seu cabo de rede, conexão Wi-Fi ou o próprio roteador."
    case FirstHopLatency => "AVISO: Latência alta para o seu roteador."
    case FirstHopLatencyNote => "A comunicação na rede local está lenta. Isso pode ser causado por interferência no Wi-Fi ou um roteador sobrecarregado."
    case OriginAlert(n, name) => "ALERTA: A perda de pacotes parece começar no salto " + IntText(n) + " (" + name + ")."
    case OriginNote(asn, location) =>
      "Este nó pertence a '" + asn + "' e está provavelmente em '" + location + "'. O problema pode ser com este provedor."
    case DestinationLoss => "AVISO: A perda de pacotes ocorre principalmente no destino final."
    case DestinationNote(name) =>
      "O servidor " + name + " pode estar sobrecarregado ou configurado para limitar o tráfego que estamos enviando."
    case Deprioritised => "INFORMATIVO: Alguns saltos intermediários mostram alta perda de pacotes."
    case DeprioritisedNote => "Como a perda não se reflete no destino final, isso é provavelmente devido a roteadores que desprioritizam pings (comportamento normal)."
    case NoIssues => "Nenhum problema significativo detectado na rota até o momento."
    case Analysing => "Analisando..."
  }

  function ColourOf(f: Finding): Colour {
    match f
    case FirstHopLoss | OriginAlert(_, _) => DarkRed
    case FirstHopLatency | DestinationLoss => DarkOrange
    case Deprioritised => DarkBlue
    case NoIssues => DarkGreen
    case Analysing => Gray
    case _ => Black
  }

  /** Headlines are bold; the waiting message, notes and the placeholder are not. */
  predicate Emphasised(f: Finding) {
    f.FirstHopLoss? || f.FirstHopLatency? || f.OriginAlert? || f.DestinationLoss?
    || f.Deprioritised? || f.NoIssues?
  }

  /** Nothing has been probed yet: no hop, or none has sent a probe. */
  predicate AwaitingData(hops: seq<HopSnapshot>) {
    forall k :: 0 <= k < |hops| ==> hops[k].totalSent == 0
  }

  /** The index of the last hop with an address: the destination. */
  function LastAddressed(hops: seq<HopSnapshot>): (r: Option<nat>)
    ensures r.Some? ==> r.value < |hops| && hops[r.value].hasAddress
                        && forall k :: r.value < k < |hops| ==> !hops[k].hasAddress
    ensures r.None? ==> forall k :: 0 <= k < |hops| ==> !hops[k].hasAddress
    decreases |hops|
  {
    if hops == [] then None
    else if hops[|hops| - 1].hasAddress then Some(|hops| - 1)
    else LastAddressed(hops[..|hops| - 1])
  }

  /** The first-hop rules: significant loss, then high latency, each as an
      alert with its explanation, once the hop has sent more than five. */
  function FirstHopFindings(first: HopSnapshot): (r: seq<Finding>)
    ensures forall i :: 0 <= i < |r| ==> r[i].FirstHopLoss? || r[i].FirstHopLossNote? || r[i].FirstHopLatency? || r[i].FirstHopLatencyNote?
  {
    if first.totalSent <= 5 then []
    else
      (if Rate(first) > 2.0 then [FirstHopLoss, FirstHopLossNote] else [])
      + (if first.bestPing > 20 then [FirstHopLatency, FirstHopLatencyNote] else [])
  }

  /** The loss percentages of the hops numbered above `n` that have sent
      something, in order. */
  function LossesAfter(hops: seq<HopSnapshot>, n: int): seq<real>
    decreases |hops|
  {
    if hops == [] then []
    else
      var h := hops[|hops| - 1];
      LossesAfter(hops[..|hops| - 1], n) + (if h.hopNumber > n && h.totalSent > 0 then [Rate(h)] else [])
  }

  function Total(xs: seq<real>): real
    decreases |xs|
  {
    if xs == [] then 0.0 else Total(xs[..|xs| - 1]) + xs[|xs| - 1]
  }

  /** The loss at hop `k` persists downstream: some later hop has data and
      their mean loss is at least five points below it or higher. */
  predicate Persists(hops: seq<HopSnapshot>, k: nat, current: real)
    requires k < |hops|
  {
    var after := LossesAfter(hops, hops[k].hopNumber);
    |after| > 0 && Total(after) / |after| as real >= current - 5.0
  }

  /** The origin scan from position `k`, with `previous` the loss of the last
      hop scanned: the first hop with more than five sent whose loss exceeds
      the previous by more than five, that is not the destination, and whose
      loss persists downstream. */
  function OriginFrom(hops: seq<HopSnapshot>, last: nat, k: nat, previous: real): (r: Option<nat>)
    requires k <= |hops|
    ensures r.Some? ==> k <= r.value < |hops| && hops[r.value].totalSent > 5 && r.value != last
    decreases |hops| - k
  {
    if k == |hops| then None
    else if hops[k].totalSent <= 5 then OriginFrom(hops, last, k + 1, previous)
    else
      var current := Rate(hops[k]);
      if current > previous + 5.0 && k != last && Persists(hops, k, current) then Some(k)
      else OriginFrom(hops, last, k + 1, current)
  }

  /** The last hop numbered `n` that has sent something. */
  function NumberedWithData(hops: seq<HopSnapshot>, n: int): (r: Option<nat>)
    ensures r.Some? ==> r.value < |hops| && hops[r.value].hopNumber == n && hops[r.value].totalSent > 0
    decreases |hops|
  {
    if hops == [] then None
    else if hops[|hops| - 1].hopNumber == n && hops[|hops| - 1].totalSent > 0 then Some(|hops| - 1)
    else NumberedWithData(hops[..|hops| - 1], n)
  }

  /** The hop the destination is compared with is the last hop numbered `n`
      that has sent something, and there is none exactly when no hop is. */
  lemma {:induction false} NumberedWithDataIsLast(hops: seq<HopSnapshot>, n: int)
    ensures var r := NumberedWithData(hops, n);
            && (r.Some? ==> forall k :: r.value < k < |hops| ==> !(hops[k].hopNumber == n && hops[k].totalSent > 0))
            && (r.None? <==> forall k :: 0 <= k < |hops| ==> !(hops[k].hopNumber == n && hops[k].totalSent > 0))
    decreases |hops|
  {
    if hops != [] {
      var init := hops[..|hops| - 1];
      NumberedWithDataIsLast(init, n);
      assert forall k :: 0 <= k < |init| ==> init[k] == hops[k];
    }
  }

  /** The destination rule: its loss exceeds the hop numbered just before
      it by more than ten points. */
  function DestinationFindings(hops: seq<HopSnapshot>, last: nat, resolveNames: bool): (r: seq<Finding>)
    requires last < |hops|
    ensures forall i :: 0 <= i < |r| ==> r[i].DestinationLoss? || r[i].DestinationNote?
  {
    match NumberedWithData(hops, hops[last].hopNumber - 1)
    case None => []
    case Some(b) =>
      if Above(Loss(hops[last]), Rate(hops[b]) + 10.0)
      then [DestinationLoss, DestinationNote(DisplayName(hops[last], resolveNames))]
      else []
  }

  /** A hop other than the destination, with more than five sent and more
      than 80% loss. */
  predicate HighLossIntermediate(hops: seq<HopSnapshot>, last: nat, k: nat)
    requires k < |hops|
  {
    k != last && hops[k].totalSent > 5 && Rate(hops[k]) > 80.0
  }

  function DeprioritisedFindings(hops: seq<HopSnapshot>, last: nat): (r: seq<Finding>)
    requires last < |hops|
    ensures forall i :: 0 <= i < |r| ==> r[i].Deprioritised? || r[i].DeprioritisedNote?
  {
    if (exists k :: 0 <= k < |hops| && HighLossIntermediate(hops, last, k)) && Below(Loss(hops[last]), 10.0)
    then [Deprioritised, DeprioritisedNote]
    else []
  }

  /** The origin rule: an alert naming the problematic hop and a note with
      its network and location. */
  function OriginFindings(hops: seq<HopSnapshot>, last: nat, resolveNames: bool): (r: seq<Finding>)
    ensures forall i :: 0 <= i < |r| ==> r[i].OriginAlert? || r[i].OriginNote?
  {
    match OriginFrom(hops, last, 0, 0.0)
    case None => []
    case Some(k) => [OriginAlert(hops[k].hopNumber, DisplayName(hops[k], resolveNames)), OriginNote(hops[k].asnInfo, hops[k].location)]
  }

  /** Everything the rules say about a snapshot with data and a destination. */
  function RuleFindings(hops: seq<HopSnapshot>, last: nat, resolveNames: bool): seq<Finding>
    requires last < |hops|
  {
    FirstHopFindings(hops[0]) + LaterFindings(hops, last, resolveNames)
  }

  /** The finding shown when no rule fired. */
  function Fallback(destination: HopSnapshot): Finding {
    if Below(Loss(destination), 2.0) then NoIssues else Analysing
  }

  /** The diagnosis of a snapshot; `None` when there is data but no hop has
      an address, where the source returns without any finding. */
  function Diagnose(hops: seq<HopSnapshot>, resolveNames: bool): Option<seq<Finding>> {
    if AwaitingData(hops) then Some([Waiting])
    else match LastAddressed(hops)
      case None => None
      case Some(last) =>
        var rules := RuleFindings(hops, last, resolveNames);
        Some(if rules == [] then [Fallback(hops[last])] else rules)
  }

  /** The origin scan as the source runs it: a loop over the hops that
      carries the previous loss and stops at the first problematic hop. */
  method FindOrigin(hops: seq<HopSnapshot>, last: nat) returns (problematic: Option<nat>)
    ensures problematic == OriginFrom(hops, last, 0, 0.0)
  {
    var previousLoss := 0.0;
    problematic := None;
    var k := 0;
    while k < |hops|
      invariant 0 <= k <= |hops|
      invariant OriginFrom(hops, last, k, previousLoss) == OriginFrom(hops, last, 0, 0.0)
      decreases |hops| - k
    {
      if hops[k].totalSent > 5 {
        var currentLoss := Rate(hops[k]);
        if currentLoss > previousLoss + 5.0 && k != last {
          var after := LossesAfter(hops, hops[k].hopNumber);
          if |after| > 0 && Total(after) / |after| as real >= currentLoss - 5.0 {
            problematic := Some(k);
            break;
          }
        }
        previousLoss := currentLoss;
      }
      k := k + 1;
    }
  }

  /** The rule blocks of AnalyzeNetworkHealth, appending their findings in
      order to a list that starts empty. */
  method ApplyRules(hops: seq<HopSnapshot>, last: nat, resolveNames: bool) returns (list: seq<Finding>)
    requires last < |hops|
    ensures list == RuleFindings(hops, last, resolveNames)
  {
    list := [];
    var first := hops[0];
    if first.totalSent > 5 {
      if Rate(first) > 2.0 {
        list := list + [FirstHopLoss, FirstHopLossNote];
      }
      if first.bestPing > 20 {
        list := list + [FirstHopLatency, FirstHopLatencyNote];
      }
    }
    ghost var firsts := list;
    assert firsts == FirstHopFindings(hops[0]);

    var problematic := FindOrigin(hops, last);
    if problematic.Some? {
      var h := hops[problematic.value];
      list := list + [OriginAlert(h.hopNumber, DisplayName(h, resolveNames)), OriginNote(h.asnInfo, h.location)];
    }
    ghost var origin := OriginFindings(hops, last, resolveNames);
    assert list == firsts + origin;

    var lastLoss := Loss(hops[last]);
    var beforeLast := NumberedWithData(hops, hops[last].hopNumber - 1);
    ghost var before := list;
    if beforeLast.Some? && Above(lastLoss, Rate(hops[beforeLast.value]) + 10.0) {
      list := list + [DestinationLoss, DestinationNote(DisplayName(hops[last], resolveNames))];
    }
    ghost var destination := DestinationFindings(hops, last, resolveNames);
    assert list == before + destination;

    before := list;
    if (exists k :: 0 <= k < |hops| && HighLossIntermediate(hops, last, k)) && Below(lastLoss, 10.0) {
      list := list + [Deprioritised, DeprioritisedNote];
    }
    ghost var deprioritised := DeprioritisedFindings(hops, last);
    assert list == before + deprioritised;
    RulesInOrder(hops, last, resolveNames);
  }

  /** The four rule blocks, appended one after another, give the rule findings. */
  lemma RulesInOrder(hops: seq<HopSnapshot>, last: nat, resolveNames: bool)
    requires last < |hops|
    ensures FirstHopFindings(hops[0]) + OriginFindings(hops, last, resolveNames)
            + DestinationFindings(hops, last, resolveNames) + DeprioritisedFindings(hops, last)
            == RuleFindings(hops, last, resolveNames)
  {
    var firsts, origin := FirstHopFindings(hops[0]), OriginFindings(hops, last, resolveNames);
    var destination, deprioritised := DestinationFindings(hops, last, resolveNames), DeprioritisedFindings(hops, last);
    AppendAssociative(firsts, origin, destination);
    AppendAssociative(firsts, origin + destination, deprioritised);
    assert LaterFindings(hops, last, resolveNames) == origin + destination + deprioritised;
  }

  lemma AppendAssociative(a: seq<Finding>, b: seq<Finding>, c: seq<Finding>)
    ensures a + b + c == a + (b + c)
  {
    assert forall i :: 0 <= i < |a| + |b| + |c| ==> (a + b + c)[i] == (a + (b + c))[i];
  }

  /** AnalyzeNetworkHealth over the snapshot: the waiting check, the choice
      of the destination, the rules, and the fallback when none fired. */
  method AnalyzeNetworkHealth(hops: seq<HopSnapshot>, resolveNames: bool)
      returns (findings: Option<seq<Finding>>)
    ensures findings == Diagnose(hops, resolveNames)
  {
    if AwaitingData(hops) {
      return Some([Waiting]);
    }
    var lastHop := LastAddressed(hops);
    if lastHop.None? {
      return None;
    }
    var last := lastHop.value;
    var list := ApplyRules(hops, last, resolveNames);
    if |list| == 0 {
      list := list + [if Below(Loss(hops[last]), 2.0) then NoIssues else Analysing];
      assert list == [Fallback(hops[last])];
    }
    ghost var rules := RuleFindings(hops, last, resolveNames);
    assert Diagnose(hops, resolveNames) == Some(if rules == [] then [Fallback(hops[last])] else rules);
    findings := Some(list);
  }

  /** A snapshot with data and a destination, the case the rules handle. */
  predicate Diagnosable(hops: seq<HopSnapshot>) {
    !AwaitingData(hops) && LastAddressed(hops).Some?
  }

  /** Which rule can produce which finding: the waiting message and the
      fallbacks never come from a rule, and the first-hop loss alert only
      from the first-hop rule. */
  lemma RuleSources(hops: seq<HopSnapshot>, last: nat, resolveNames: bool)
    requires last < |hops|
    ensures var rules := RuleFindings(hops, last, resolveNames);
            forall i :: 0 <= i < |rules| ==> !rules[i].Waiting? && !rules[i].NoIssues? && !rules[i].Analysing?
    ensures FirstHopLoss in RuleFindings(hops, last, resolveNames) <==> FirstHopLoss in FirstHopFindings(hops[0])
    ensures FirstHopLatency in RuleFindings(hops, last, resolveNames) <==> FirstHopLatency in FirstHopFindings(hops[0])
  {
    var firsts := FirstHopFindings(hops[0]);
    var rest := LaterFindings(hops, last, resolveNames);
    var rules := firsts + rest;
    forall j | 0 <= j < |rules|
      ensures !rules[j].Waiting? && !rules[j].NoIssues? && !rules[j].Analysing?
      ensures j >= |firsts| ==> rules[j] != FirstHopLoss && rules[j] != FirstHopLatency
    {
      if j >= |firsts| {
        assert rules[j] == rest[j - |firsts|];
      } else {
        assert rules[j] == firsts[j];
      }
    }
    if FirstHopLoss in rules {
      var i :| 0 <= i < |rules| && rules[i] == FirstHopLoss;
      assert firsts[i] == FirstHopLoss;
    }
    if FirstHopLatency in rules {
      var i :| 0 <= i < |rules| && rules[i] == FirstHopLatency;
      assert firsts[i] == FirstHopLatency;
    }
  }

  /** The findings of the rules after the first-hop rule. */
  function LaterFindings(hops: seq<HopSnapshot>, last: nat, resolveNames: bool): (r: seq<Finding>)
    requires last < |hops|
    ensures forall i :: 0 <= i < |r| ==> r[i].OriginAlert? || r[i].OriginNote? || r[i].DestinationLoss?
                                          || r[i].DestinationNote? || r[i].Deprioritised? || r[i].DeprioritisedNote?
  {
    var origin := OriginFindings(hops, last, resolveNames);
    var destination := DestinationFindings(hops, last, resolveNames);
    var deprioritised := DeprioritisedFindings(hops, last);
    var r := origin + destination + deprioritised;
    assert forall i :: 0 <= i < |origin| ==> r[i] == origin[i];
    assert forall i :: 0 <= i < |destination| ==> r[|origin| + i] == destination[i];
    assert forall i :: 0 <= i < |deprioritised| ==> r[|origin| + |destination| + i] == deprioritised[i];
    r
  }

  /** The waiting message is the whole diagnosis exactly when nothing has
      been probed yet. */
  lemma WaitingExactly(hops: seq<HopSnapshot>, resolveNames: bool)
    ensures Diagnose(hops, resolveNames) == Some([Waiting]) <==> AwaitingData(hops)
  {
    if !AwaitingData(hops) && LastAddressed(hops).Some? {
      RuleSources(hops, LastAddressed(hops).value, resolveNames);
    }
  }

  /** With data, a diagnosis is produced exactly when some hop has an
      address, and then it is never empty. */
  lemma NeverEmpty(hops: seq<HopSnapshot>, resolveNames: bool)
    requires !AwaitingData(hops)
    ensures Diagnose(hops, resolveNames).Some? <==> exists k :: 0 <= k < |hops| && hops[k].hasAddress
    ensures Diagnose(hops, resolveNames).Some? ==> |Diagnose(hops, resolveNames).value| > 0
  {
    if LastAddressed(hops).Some? {
      assert hops[LastAddressed(hops).value].hasAddress;
    }
  }

  /** The diagnosis is the single fallback finding exactly when no rule fired,
      and that finding is "no issues" exactly when the destination's loss is
      below 2%. */
  lemma FallbackExactly(hops: seq<HopSnapshot>, resolveNames: bool)
    requires Diagnosable(hops)
    ensures var last := LastAddressed(hops).value;
            var found := Diagnose(hops, resolveNames).value;
            && ((found == [NoIssues] || found == [Analysing]) <==> RuleFindings(hops, last, resolveNames) == [])
            && (found == [NoIssues] <==> RuleFindings(hops, last, resolveNames) == [] && Below(Loss(hops[last]), 2.0))
  {
    var last := LastAddressed(hops).value;
    RuleSources(hops, last, resolveNames);
    var rules := RuleFindings(hops, last, resolveNames);
    if rules != [] {
      assert Diagnose(hops, resolveNames).value == rules;
      assert rules[0] in rules;
    }
  }

  /** `(double)lost / sent * 100 > t` is `100 * lost > t * sent` for a
      positive count. */
  lemma RateAbove(h: HopSnapshot, t: real)
    requires h.totalSent > 0
    ensures Rate(h) > t <==> 100.0 * h.packetsLost as real > t * h.totalSent as real
  {
    var s := h.totalSent as real;
    var q := h.packetsLost as real / s;
    assert q * s == h.packetsLost as real;
    assert Rate(h) * s == 100.0 * h.packetsLost as real;
    if Rate(h) > t {
      assert Rate(h) * s > t * s;
    } else {
      assert Rate(h) * s <= t * s;
    }
  }

  /** `(double)lost / sent * 100 < t` is `100 * lost < t * sent` for a
      positive count. */
  lemma RateBelow(h: HopSnapshot, t: real)
    requires h.totalSent > 0
    ensures Rate(h) < t <==> 100.0 * h.packetsLost as real < t * h.totalSent as real
  {
    var s := h.totalSent as real;
    assert Rate(h) * s == 100.0 * h.packetsLost as real by {
      var q := h.packetsLost as real / s;
      assert q * s == h.packetsLost as real;
    }
    if Rate(h) < t {
      assert Rate(h) * s < t * s;
    } else {
      assert Rate(h) * s >= t * s;
    }
  }

  /** One hop's loss exceeds another's by more than `t` points exactly when,
      cross-multiplied by both counts, `100 * lost` does. */
  lemma RateExceeds(h: HopSnapshot, g: HopSnapshot, t: int)
    requires h.totalSent > 0 && g.totalSent > 0
    ensures Rate(h) > Rate(g) + t as real
            <==> 100 * h.packetsLost * g.totalSent > (100 * g.packetsLost + t * g.totalSent) * h.totalSent
  {
    var sh, sg := h.totalSent as real, g.totalSent as real;
    var x := Rate(g) + t as real;
    RateAbove(h, x);
    assert Rate(g) * sg == 100.0 * g.packetsLost as real by {
      var q := g.packetsLost as real / sg;
      assert q * sg == g.packetsLost as real;
    }
    assert x * sg == 100.0 * g.packetsLost as real + t as real * sg;
    ScaleCompare(100.0 * h.packetsLost as real, x * sh, sg);
    assert x * sh * sg == (100.0 * g.packetsLost as real + t as real * sg) * sh;
  }

  /** Multiplying by a positive number keeps a strict order. */
  lemma ScaleCompare(a: real, b: real, c: real)
    requires c > 0.0
    ensures a > b <==> a * c > b * c
  {
  }

  /** The destination rule fires exactly when the hop numbered just before
      the destination has data and, with the destination probed, the
      destination's loss exceeds it by more than ten points; it then yields
      its warning and the note naming the destination. */
  lemma DestinationRule(hops: seq<HopSnapshot>, last: nat, resolveNames: bool)
    requires last < |hops| && 0 <= hops[last].packetsLost <= hops[last].totalSent
    ensures var before := NumberedWithData(hops, hops[last].hopNumber - 1);
            var d := hops[last];
            DestinationLoss in DestinationFindings(hops, last, resolveNames)
            <==> && before.Some? && d.totalSent > 0
                 && 100 * d.packetsLost * hops[before.value].totalSent
                    > (100 * hops[before.value].packetsLost + 10 * hops[before.value].totalSent) * d.totalSent
    ensures DestinationLoss in DestinationFindings(hops, last, resolveNames) ==>
              DestinationFindings(hops, last, resolveNames)
                == [DestinationLoss, DestinationNote(DisplayName(hops[last], resolveNames))]
  {
    var before := NumberedWithData(hops, hops[last].hopNumber - 1);
    if before.Some? && hops[last].totalSent > 0 {
      RateExceeds(hops[last], hops[before.value], 10);
    }
  }

  /** The deprioritisation rule fires exactly when a hop other than the
      destination has sent more than five with more than 80% lost, and the
      probed destination has lost less than 10%. */
  lemma DeprioritisedRule(hops: seq<HopSnapshot>, last: nat)
    requires last < |hops| && 0 <= hops[last].packetsLost <= hops[last].totalSent
    ensures Deprioritised in DeprioritisedFindings(hops, last)
            <==> && (exists k :: 0 <= k < |hops| && k != last && hops[k].totalSent > 5
                                 && 100 * hops[k].packetsLost > 80 * hops[k].totalSent)
                 && hops[last].totalSent > 0 && 100 * hops[last].packetsLost < 10 * hops[last].totalSent
    ensures Deprioritised in DeprioritisedFindings(hops, last) ==>
              DeprioritisedFindings(hops, last) == [Deprioritised, DeprioritisedNote]
  {
    forall k | 0 <= k < |hops| && k != last && hops[k].totalSent > 5
      ensures HighLossIntermediate(hops, last, k) <==> 100 * hops[k].packetsLost > 80 * hops[k].totalSent
    {
      RateAbove(hops[k], 80.0);
    }
    if hops[last].totalSent > 0 {
      RateBelow(hops[last], 10.0);
    }
  }

  /** The first-hop rule reports significant loss exactly when the first hop
      has sent more than five probes and lost more than 2% of them. */
  lemma FirstHopLossRule(first: HopSnapshot)
    ensures FirstHopLoss in FirstHopFindings(first)
            <==> first.totalSent > 5 && 100 * first.packetsLost > 2 * first.totalSent
    ensures FirstHopLoss in FirstHopFindings(first) ==>
              FirstHopFindings(first)[..2] == [FirstHopLoss, FirstHopLossNote]
  {
    if first.totalSent > 5 {
      RateAbove(first, 2.0);
    }
  }

  /** The first-hop latency warning fires exactly when the hop has sent more
      than five probes and its best time is above 20 ms; its pair then closes
      the first-hop findings, after the loss pair when that fired too. */
  lemma FirstHopLatencyRule(first: HopSnapshot)
    ensures FirstHopLatency in FirstHopFindings(first) <==> first.totalSent > 5 && first.bestPing > 20
    ensures var r := FirstHopFindings(first);
            var k := if FirstHopLoss in r then 2 else 0;
            FirstHopLatency in r ==> |r| == k + 2 && r[k..k + 2] == [FirstHopLatency, FirstHopLatencyNote]
  {
    if first.totalSent > 5 && first.bestPing <= 20 {
      var r := FirstHopFindings(first);
      assert r == (if Rate(first) > 2.0 then [FirstHopLoss, FirstHopLossNote] else []);
    }
  }

  /** The latency pair appears in the diagnosis exactly when the first hop has
      sent more than five probes with a best time above 20 ms, and it comes
      right after the loss pair, or first when there is no loss pair. */
  lemma FirstHopSlow(hops: seq<HopSnapshot>, resolveNames: bool)
    requires Diagnosable(hops)
    ensures var found := Diagnose(hops, resolveNames).value;
            var k := if FirstHopLoss in found then 2 else 0;
            && (FirstHopLatency in found <==> hops[0].totalSent > 5 && hops[0].bestPing > 20)
            && (FirstHopLatency in found ==> |found| >= k + 2 && found[k..k + 2] == [FirstHopLatency, FirstHopLatencyNote])
  {
    var last := LastAddressed(hops).value;
    RuleSources(hops, last, resolveNames);
    FirstHopLatencyRule(hops[0]);
    var rules := RuleFindings(hops, last, resolveNames);
    var firsts := FirstHopFindings(hops[0]);
    if rules == [] {
      assert Diagnose(hops, resolveNames).value == [Fallback(hops[last])];
    } else {
      assert Diagnose(hops, resolveNames).value == rules;
      if FirstHopLatency in firsts {
        var k := if FirstHopLoss in firsts then 2 else 0;
        assert rules == firsts + LaterFindings(hops, last, resolveNames);
        assert rules[k..k + 2] == firsts[k..k + 2];
      }
    }
  }

  /** The first-hop critical pair opens the diagnosis exactly when the first
      hop has sent more than five probes and lost more than 2% of them. */
  lemma FirstHopCritical(hops: seq<HopSnapshot>, resolveNames: bool)
    requires Diagnosable(hops)
    ensures var found := Diagnose(hops, resolveNames).value;
            && (FirstHopLoss in found <==> hops[0].totalSent > 5 && 100 * hops[0].packetsLost > 2 * hops[0].totalSent)
            && (FirstHopLoss in found ==> |found| >= 2 && found[..2] == [FirstHopLoss, FirstHopLossNote])
  {
    var last := LastAddressed(hops).value;
    RuleSources(hops, last, resolveNames);
    FirstHopLossRule(hops[0]);
    var rules := RuleFindings(hops, last, resolveNames);
    var firsts := FirstHopFindings(hops[0]);
    if rules == [] {
      assert Diagnose(hops, resolveNames).value == [Fallback(hops[last])];
    } else {
      assert Diagnose(hops, resolveNames).value == rules;
      if FirstHopLoss in firsts {
        assert rules[..2] == firsts[..2];
      }
    }
  }

  /** The origin scan finds nothing when no hop scanned loses anything. */
  lemma {:induction false} NoOriginWithoutLoss(hops: seq<HopSnapshot>, last: nat, k: nat, previous: real)
    requires k <= |hops| && previous >= 0.0
    requires forall j :: 0 <= j < |hops| ==> hops[j].packetsLost == 0
    ensures OriginFrom(hops, last, k, previous) == None
    decreases |hops| - k
  {
    if k < |hops| {
      if hops[k].totalSent <= 5 {
        NoOriginWithoutLoss(hops, last, k + 1, previous);
      } else {
        assert Rate(hops[k]) == 0.0;
        NoOriginWithoutLoss(hops, last, k + 1, 0.0);
      }
    }
  }

  /** Without loss anywhere and with a destination that has sent probes, the
      destination and deprioritisation rules stay quiet and the fallback is
      "no issues". */
  lemma QuietDestination(hops: seq<HopSnapshot>, last: nat, resolveNames: bool)
    requires last < |hops| && hops[last].totalSent > 0
    requires forall j :: 0 <= j < |hops| ==> hops[j].packetsLost == 0
    ensures DestinationFindings(hops, last, resolveNames) == []
    ensures DeprioritisedFindings(hops, last) == []
    ensures Fallback(hops[last]) == NoIssues
  {
    assert Loss(hops[last]) == Num(0.0);
    var before := NumberedWithData(hops, hops[last].hopNumber - 1);
    if before.Some? {
      assert Rate(hops[before.value]) == 0.0;
    }
    forall k | 0 <= k < |hops| ensures !HighLossIntermediate(hops, last, k) {
      if hops[k].totalSent > 5 {
        assert Rate(hops[k]) == 0.0;
      }
    }
  }

  /** A first hop that loses nothing and is fast, or has sent too little,
      raises no first-hop finding. */
  lemma QuietFirstHop(first: HopSnapshot)
    requires first.packetsLost == 0
    requires first.totalSent <= 5 || first.bestPing <= 20
    ensures FirstHopFindings(first) == []
  {
    if first.totalSent > 5 {
      assert Rate(first) == 0.0;
    }
  }

  /** With no loss anywhere, a destination that has sent probes and a quiet
      first hop, no rule fires and the fallback is "no issues". */
  lemma QuietRules(hops: seq<HopSnapshot>, last: nat, resolveNames: bool)
    requires last < |hops| && hops[last].totalSent > 0
    requires forall j :: 0 <= j < |hops| ==> hops[j].packetsLost == 0
    requires hops[0].totalSent <= 5 || hops[0].bestPing <= 20
    ensures RuleFindings(hops, last, resolveNames) == []
    ensures Fallback(hops[last]) == NoIssues
  {
    NoOriginWithoutLoss(hops, last, 0, 0.0);
    QuietDestination(hops, last, resolveNames);
    QuietFirstHop(hops[0]);
  }

  /** With no loss anywhere, a destination that has sent probes and a fast
      first hop, the diagnosis is "no issues" alone. */
  lemma UniformZeroLoss(hops: seq<HopSnapshot>, resolveNames: bool)
    requires Diagnosable(hops)
    requires forall j :: 0 <= j < |hops| ==> hops[j].packetsLost == 0
    requires hops[LastAddressed(hops).value].totalSent > 0
    requires hops[0].totalSent <= 5 || hops[0].bestPing <= 20
    ensures Diagnose(hops, resolveNames) == Some([NoIssues])
  {
    QuietRules(hops, LastAddressed(hops).value, resolveNames);
  }

  /** A destination that has sent nothing has a NaN loss: neither the
      destination rule nor the deprioritisation rule can fire, and the
      fallback is the placeholder. */
  lemma UnprobedDestination(hops: seq<HopSnapshot>, last: nat, resolveNames: bool)
    requires last < |hops| && hops[last].totalSent == 0 && hops[last].packetsLost == 0
    ensures DestinationFindings(hops, last, resolveNames) == []
    ensures DeprioritisedFindings(hops, last) == []
    ensures Fallback(hops[last]) == Analysing
  {
  }

  /** The loss the origin scan compares hop `k` with: that of the nearest
      earlier hop with more than five sent, or 0. */
  function PreviousLoss(hops: seq<HopSnapshot>, k: nat): real
    requires k <= |hops|
    decreases k
  {
    if k == 0 then 0.0
    else if hops[k - 1].totalSent > 5 then Rate(hops[k - 1])
    else PreviousLoss(hops, k - 1)
  }

  /** Hop `k` on its own meets the origin condition. */
  predicate Problematic(hops: seq<HopSnapshot>, last: nat, k: nat)
    requires k < |hops|
  {
    && hops[k].totalSent > 5 && k != last
    && Rate(hops[k]) > PreviousLoss(hops, k) + 5.0
    && Persists(hops, k, Rate(hops[k]))
  }

  /** No hop in `[from, to)` meets the origin condition. */
  predicate Clear(hops: seq<HopSnapshot>, last: nat, from: nat, to: nat)
    requires from <= to <= |hops|
  {
    forall j :: from <= j < to ==> !Problematic(hops, last, j)
  }

  /** The scan from `k` yields the first problematic hop at or after `k`,
      and nothing when there is none. */
  lemma {:induction false} OriginFromIsFirst(hops: seq<HopSnapshot>, last: nat, k: nat)
    requires k <= |hops|
    ensures var r := OriginFrom(hops, last, k, PreviousLoss(hops, k));
            && (r.Some? ==> Problematic(hops, last, r.value) && Clear(hops, last, k, r.value))
            && (r.None? <==> Clear(hops, last, k, |hops|))
    decreases |hops| - k
  {
    if k < |hops| {
      OriginFromIsFirst(hops, last, k + 1);
      var previous := PreviousLoss(hops, k);
      if !Problematic(hops, last, k) {
        var later := OriginFrom(hops, last, k + 1, PreviousLoss(hops, k + 1));
        if hops[k].totalSent <= 5 {
          assert PreviousLoss(hops, k + 1) == previous;
        } else {
          assert PreviousLoss(hops, k + 1) == Rate(hops[k]);
        }
        assert OriginFrom(hops, last, k, previous) == later;
        ClearExtends(hops, last, k, if later.Some? then later.value else |hops|);
      }
    }
  }

  /** A hop that does not meet the condition extends a clear stretch after it. */
  lemma ClearExtends(hops: seq<HopSnapshot>, last: nat, k: nat, to: nat)
    requires k < to <= |hops| && !Problematic(hops, last, k) && Clear(hops, last, k + 1, to)
    ensures Clear(hops, last, k, to)
  {
  }

  /** The origin finding names the first problematic hop of the snapshot. */
  lemma OriginIsFirstProblematic(hops: seq<HopSnapshot>, last: nat)
    ensures var r := OriginFrom(hops, last, 0, 0.0);
            && (r.Some? ==> r.value < |hops| && Problematic(hops, last, r.value)
                            && forall j :: 0 <= j < r.value ==> !Problematic(hops, last, j))
            && (r.None? <==> forall j :: 0 <= j < |hops| ==> !Problematic(hops, last, j))
  {
    OriginFromIsFirst(hops, last, 0);
  }
}
