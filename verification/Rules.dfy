/**
 * The rule engine: GP snapshot rules, SATCAT object rules and the registry
 * that runs them. Doubles are modelled as reals, event payloads as datatypes.
 */
module Rules {
  import opened Prelude

  /** One GP element set; `epoch` is an instant. Only the fields a rule or the dedup reads are kept. */
  datatype Snapshot = Snapshot(
    noradCatId: int, gpId: int, epoch: int,
    inclination: real, raOfAscNode: real, eccentricity: real, semimajorAxis: real, bstar: real)

  /** The catalog fields the SATCAT rules compare; "" stands for missing text. */
  datatype ObjectState = ObjectState(
    objectName: string, objectType: string, rcsSize: string, decayDate: Option<string>)

  datatype DetectedEvent =
    | ManeuverDetected(inclinationDelta: real, semimajorAxisDelta: real,
                       inclinationCrossed: bool, semimajorAxisCrossed: bool, prevEpoch: int, currEpoch: int)
    | RaanShift(raanDelta: real, prevEpoch: int, currEpoch: int)
    | EccentricityChange(eccentricityDelta: real, prevEpoch: int, currEpoch: int)
    | DragChange(prevBstar: real, currBstar: real, delta: real, usedAbsoluteFallback: bool,
                 percentChange: Option<real>, prevEpoch: int, currEpoch: int)
    | DecayDetected(decayDate: string)
    | ObjectRenamed(oldName: string, newName: string)
    | ObjectTypeChanged(oldType: string, newType: string)
    | RcsSizeChanged(oldRcsSize: string, newRcsSize: string)

  // ----- GP rules -----

  const INCLINATION_THRESHOLD := 0.01
  const SEMIMAJOR_AXIS_THRESHOLD := 1.0
  const RAAN_THRESHOLD := 0.01
  const ECCENTRICITY_THRESHOLD := 0.001
  const BSTAR_NEAR_ZERO := 0.000001
  const BSTAR_PERCENT_THRESHOLD := 0.5
  const BSTAR_ABSOLUTE_THRESHOLD := 0.0001

  function Abs(x: real): real {
    if x < 0.0 then -x else x
  }

  lemma AbsIsDistance(x: real)
    ensures Abs(x) >= 0.0 && (Abs(x) == x || Abs(x) == -x)
  {
  }

  function ManeuverDetectedRule(prev: Snapshot, curr: Snapshot): Option<DetectedEvent> {
    var inclinationDelta := Abs(curr.inclination - prev.inclination);
    var semimajorAxisDelta := Abs(curr.semimajorAxis - prev.semimajorAxis);
    var inclinationFired := inclinationDelta > INCLINATION_THRESHOLD;
    var semimajorAxisFired := semimajorAxisDelta > SEMIMAJOR_AXIS_THRESHOLD;
    if !inclinationFired && !semimajorAxisFired then
      None
    else
      Some(ManeuverDetected(inclinationDelta, semimajorAxisDelta, inclinationFired, semimajorAxisFired,
                            prev.epoch, curr.epoch))
  }

  /** A plain difference of angles, as in the code: 359.995 to 0.005 counts as 359.99. */
  function RaanShiftRule(prev: Snapshot, curr: Snapshot): Option<DetectedEvent> {
    var raanDelta := Abs(curr.raOfAscNode - prev.raOfAscNode);
    if raanDelta <= RAAN_THRESHOLD then None
    else Some(RaanShift(raanDelta, prev.epoch, curr.epoch))
  }

  function EccentricityChangeRule(prev: Snapshot, curr: Snapshot): Option<DetectedEvent> {
    var eccentricityDelta := Abs(curr.eccentricity - prev.eccentricity);
    if eccentricityDelta <= ECCENTRICITY_THRESHOLD then None
    else Some(EccentricityChange(eccentricityDelta, prev.epoch, curr.epoch))
  }

  function DragChangeRule(prev: Snapshot, curr: Snapshot): Option<DetectedEvent> {
    var delta := curr.bstar - prev.bstar;
    if Abs(prev.bstar) < BSTAR_NEAR_ZERO then
      if Abs(delta) > BSTAR_ABSOLUTE_THRESHOLD then
        Some(DragChange(prev.bstar, curr.bstar, delta, true, None, prev.epoch, curr.epoch))
      else
        None
    else
      var percentChange := delta / prev.bstar;
      if Abs(percentChange) > BSTAR_PERCENT_THRESHOLD then
        Some(DragChange(prev.bstar, curr.bstar, delta, false, Some(percentChange), prev.epoch, curr.epoch))
      else
        None
  }

  // ----- SATCAT rules -----

  function DecayDetectedRule(prev: ObjectState, curr: ObjectState): Option<DetectedEvent> {
    if prev.decayDate.None? && curr.decayDate.Some? then Some(DecayDetected(curr.decayDate.value)) else None
  }

  /** Text compared by the three change rules: missing text on either side is not a change. */
  predicate TextChanged(prev: string, curr: string) {
    prev != "" && curr != "" && prev != curr
  }

  function ObjectRenamedRule(prev: ObjectState, curr: ObjectState): Option<DetectedEvent> {
    if TextChanged(prev.objectName, curr.objectName) then
      Some(ObjectRenamed(prev.objectName, curr.objectName))
    else
      None
  }

  function ObjectTypeChangedRule(prev: ObjectState, curr: ObjectState): Option<DetectedEvent> {
    if TextChanged(prev.objectType, curr.objectType) then
      Some(ObjectTypeChanged(prev.objectType, curr.objectType))
    else
      None
  }

  function RcsSizeChangedRule(prev: ObjectState, curr: ObjectState): Option<DetectedEvent> {
    if TextChanged(prev.rcsSize, curr.rcsSize) then
      Some(RcsSizeChanged(prev.rcsSize, curr.rcsSize))
    else
      None
  }

  // ----- registries -----

  type Rule<!State> = (State, State) -> Option<DetectedEvent>

  function Fired(result: Option<DetectedEvent>): seq<DetectedEvent> {
    match result
    case Some(e) => [e]
    case None => []
  }

  /** Every firing rule's event, in registration order. */
  function FireAll<State>(rules: seq<Rule<State>>, prev: State, curr: State): seq<DetectedEvent> {
    if rules == [] then [] else Fired(rules[0](prev, curr)) + FireAll(rules[1..], prev, curr)
  }

  ghost predicate Produced<State>(rules: seq<Rule<State>>, prev: State, curr: State, e: DetectedEvent) {
    exists i :: 0 <= i < |rules| && rules[i](prev, curr) == Some(e)
  }

  lemma ProducedByFirstOrRest<State>(rules: seq<Rule<State>>, prev: State, curr: State, e: DetectedEvent)
    requires |rules| > 0
    ensures Produced(rules, prev, curr, e) <==> rules[0](prev, curr) == Some(e) || Produced(rules[1..], prev, curr, e)
  {
    if Produced(rules, prev, curr, e) {
      var i :| 0 <= i < |rules| && rules[i](prev, curr) == Some(e);
      assert i > 0 ==> rules[1..][i - 1](prev, curr) == Some(e);
    }
    if Produced(rules[1..], prev, curr, e) {
      var i :| 0 <= i < |rules[1..]| && rules[1..][i](prev, curr) == Some(e);
      assert rules[i + 1](prev, curr) == Some(e);
    }
  }

  lemma FireAllUnfold<State>(rules: seq<Rule<State>>, prev: State, curr: State, e: DetectedEvent)
    ensures |rules| == 0 ==> e !in FireAll(rules, prev, curr) && !Produced(rules, prev, curr, e)
    ensures |rules| > 0 ==>
              (e in FireAll(rules, prev, curr)
               <==> rules[0](prev, curr) == Some(e) || e in FireAll(rules[1..], prev, curr))
  {
  }

  /** An event is reported exactly if some registered rule produced it. */
  lemma {:induction false} FireAllMember<State>(rules: seq<Rule<State>>, prev: State, curr: State, e: DetectedEvent)
    ensures e in FireAll(rules, prev, curr) <==> Produced(rules, prev, curr, e)
  {
    hide Produced;
    FireAllUnfold(rules, prev, curr, e);
    if |rules| > 0 {
      FireAllMember(rules[1..], prev, curr, e);
      ProducedByFirstOrRest(rules, prev, curr, e);
    }
  }

  /** The events of earlier registered rules come first. */
  lemma {:induction false} FireAllInOrder<State>(first: seq<Rule<State>>, second: seq<Rule<State>>, prev: State, curr: State)
    ensures FireAll(first + second, prev, curr) == FireAll(first, prev, curr) + FireAll(second, prev, curr)
  {
    if first == [] {
      assert first + second == second;
    } else {
      assert (first + second)[0] == first[0] && (first + second)[1..] == first[1..] + second;
      FireAllInOrder(first[1..], second, prev, curr);
    }
  }

  class RuleRegistry<State> {
    var rules: seq<Rule<State>>

    constructor ()
      ensures rules == []
    {
      rules := [];
    }

    method RegisterRule(rule: Rule<State>)
      modifies this
      ensures rules == old(rules) + [rule]
    {
      rules := rules + [rule];
    }

    method EvaluateAll(prev: State, curr: State) returns (events: seq<DetectedEvent>)
      ensures events == FireAll(rules, prev, curr)
    {
      hide FireAll, Fired;
      events := [];
      FireAllEnds(rules, prev, curr);
      for i := 0 to |rules|
        invariant events + FireAll(rules[i..], prev, curr) == FireAll(rules, prev, curr)
      {
        FireAllStep(rules, i, prev, curr, events);
        match rules[i](prev, curr)
        case Some(event) => events := events + [event];
        case None =>
      }
    }
  }

  lemma FireAllStep<State>(rules: seq<Rule<State>>, i: nat, prev: State, curr: State, before: seq<DetectedEvent>)
    requires i < |rules|
    ensures before + FireAll(rules[i..], prev, curr)
            == (match rules[i](prev, curr)
                case Some(event) => before + [event]
                case None => before) + FireAll(rules[i + 1..], prev, curr)
  {
    assert rules[i..][0] == rules[i] && rules[i..][1..] == rules[i + 1..];
  }

  lemma FireAllEnds<State>(rules: seq<Rule<State>>, prev: State, curr: State)
    ensures [] + FireAll(rules[0..], prev, curr) == FireAll(rules, prev, curr)
    ensures FireAll(rules[|rules|..], prev, curr) == []
  {
    assert rules[0..] == rules && rules[|rules|..] == [];
  }

  const GP_RULES: seq<Rule<Snapshot>> :=
    [ManeuverDetectedRule, RaanShiftRule, EccentricityChangeRule, DragChangeRule]

  const OBJECT_RULES: seq<Rule<ObjectState>> :=
    [DecayDetectedRule, ObjectRenamedRule, ObjectTypeChangedRule, RcsSizeChangedRule]

  method MakeDefaultRuleRegistry() returns (registry: RuleRegistry<Snapshot>)
    ensures fresh(registry) && registry.rules == GP_RULES
  {
    registry := new RuleRegistry();
    registry.RegisterRule(ManeuverDetectedRule);
    registry.RegisterRule(RaanShiftRule);
    registry.RegisterRule(EccentricityChangeRule);
    registry.RegisterRule(DragChangeRule);
  }

  method MakeDefaultObjectRuleRegistry() returns (registry: RuleRegistry<ObjectState>)
    ensures fresh(registry) && registry.rules == OBJECT_RULES
  {
    registry := new RuleRegistry();
    registry.RegisterRule(DecayDetectedRule);
    registry.RegisterRule(ObjectRenamedRule);
    registry.RegisterRule(ObjectTypeChangedRule);
    registry.RegisterRule(RcsSizeChangedRule);
  }

  function GpEvents(prev: Snapshot, curr: Snapshot): seq<DetectedEvent> {
    FireAll(GP_RULES, prev, curr)
  }

  function ObjectEvents(prev: ObjectState, curr: ObjectState): seq<DetectedEvent> {
    FireAll(OBJECT_RULES, prev, curr)
  }

  lemma FireFour<State>(rules: seq<Rule<State>>, prev: State, curr: State)
    requires |rules| == 4
    ensures FireAll(rules, prev, curr)
            == Fired(rules[0](prev, curr)) + Fired(rules[1](prev, curr))
               + Fired(rules[2](prev, curr)) + Fired(rules[3](prev, curr))
  {
    assert rules[1..][0] == rules[1] && rules[1..][1..] == rules[2..];
    assert rules[2..][0] == rules[2] && rules[2..][1..] == rules[3..];
    assert rules[3..][0] == rules[3] && rules[3..][1..] == [];
    assert FireAll(rules[3..], prev, curr) == Fired(rules[3](prev, curr));
    assert FireAll(rules[2..], prev, curr) == Fired(rules[2](prev, curr)) + Fired(rules[3](prev, curr));
  }

  lemma GpEventsUnfold(prev: Snapshot, curr: Snapshot)
    ensures GpEvents(prev, curr)
            == Fired(ManeuverDetectedRule(prev, curr)) + Fired(RaanShiftRule(prev, curr))
               + Fired(EccentricityChangeRule(prev, curr)) + Fired(DragChangeRule(prev, curr))
  {
    FireFour(GP_RULES, prev, curr);
    assert GP_RULES[0](prev, curr) == ManeuverDetectedRule(prev, curr);
    assert GP_RULES[1](prev, curr) == RaanShiftRule(prev, curr);
    assert GP_RULES[2](prev, curr) == EccentricityChangeRule(prev, curr);
    assert GP_RULES[3](prev, curr) == DragChangeRule(prev, curr);
  }

  lemma ObjectEventsUnfold(prev: ObjectState, curr: ObjectState)
    ensures ObjectEvents(prev, curr)
            == Fired(DecayDetectedRule(prev, curr)) + Fired(ObjectRenamedRule(prev, curr))
               + Fired(ObjectTypeChangedRule(prev, curr)) + Fired(RcsSizeChangedRule(prev, curr))
  {
    FireFour(OBJECT_RULES, prev, curr);
    assert OBJECT_RULES[0](prev, curr) == DecayDetectedRule(prev, curr);
    assert OBJECT_RULES[1](prev, curr) == ObjectRenamedRule(prev, curr);
    assert OBJECT_RULES[2](prev, curr) == ObjectTypeChangedRule(prev, curr);
    assert OBJECT_RULES[3](prev, curr) == RcsSizeChangedRule(prev, curr);
  }

  /** The drag condition without the division: how far bstar may move unnoticed. */
  function DragAllowance(prevBstar: real): real {
    if Abs(prevBstar) < BSTAR_NEAR_ZERO then BSTAR_ABSOLUTE_THRESHOLD else BSTAR_PERCENT_THRESHOLD * Abs(prevBstar)
  }

  lemma PositiveProduct(a: real, b: real)
    requires b > 0.0
    ensures a > 0.0 ==> a * b > 0.0
    ensures a <= 0.0 ==> a * b <= 0.0
  {
  }

  lemma AbsProduct(a: real, b: real)
    ensures Abs(a * b) == Abs(a) * Abs(b)
  {
    if b > 0.0 {
      PositiveProduct(a, b);
    } else if b < 0.0 {
      PositiveProduct(a, -b);
      assert a * -b == -(a * b);
    }
  }

  lemma QuotientBound(delta: real, base: real)
    requires base != 0.0
    ensures Abs(delta / base) > BSTAR_PERCENT_THRESHOLD <==> Abs(delta) > BSTAR_PERCENT_THRESHOLD * Abs(base)
  {
    var q := delta / base;
    assert delta == q * base;
    AbsProduct(q, base);
    var excess := Abs(q) - BSTAR_PERCENT_THRESHOLD;
    assert excess * Abs(base) == Abs(q) * Abs(base) - BSTAR_PERCENT_THRESHOLD * Abs(base);
    PositiveProduct(excess, Abs(base));
  }

  /**
   * No GP rule fires exactly when all five quantities stay within their
   * thresholds; the relative drag test never divides by a near-zero value.
   */
  lemma GpSilentIff(prev: Snapshot, curr: Snapshot)
    ensures GpEvents(prev, curr) == []
            <==> (&& Abs(curr.inclination - prev.inclination) <= INCLINATION_THRESHOLD
                  && Abs(curr.semimajorAxis - prev.semimajorAxis) <= SEMIMAJOR_AXIS_THRESHOLD
                  && Abs(curr.raOfAscNode - prev.raOfAscNode) <= RAAN_THRESHOLD
                  && Abs(curr.eccentricity - prev.eccentricity) <= ECCENTRICITY_THRESHOLD
                  && Abs(curr.bstar - prev.bstar) <= DragAllowance(prev.bstar))
  {
    GpEventsUnfold(prev, curr);
    if Abs(prev.bstar) >= BSTAR_NEAR_ZERO {
      QuotientBound(curr.bstar - prev.bstar, prev.bstar);
    }
  }

  /** Epochs a GP event carries. */
  predicate Spans(e: DetectedEvent, prevEpoch: int, currEpoch: int) {
    match e
    case ManeuverDetected(_, _, _, _, p, c) => p == prevEpoch && c == currEpoch
    case RaanShift(_, p, c) => p == prevEpoch && c == currEpoch
    case EccentricityChange(_, p, c) => p == prevEpoch && c == currEpoch
    case DragChange(_, _, _, _, _, p, c) => p == prevEpoch && c == currEpoch
    case _ => false
  }

  /** Every reported event is over its threshold, dated by the pair, and its numbers tie the two states. */
  lemma GpEventsReportTheChange(prev: Snapshot, curr: Snapshot, e: DetectedEvent)
    requires e in GpEvents(prev, curr)
    ensures Spans(e, prev.epoch, curr.epoch)
    ensures e.ManeuverDetected? ==>
              && (e.inclinationCrossed || e.semimajorAxisCrossed)
              && (e.inclinationCrossed <==> e.inclinationDelta > INCLINATION_THRESHOLD)
              && (e.semimajorAxisCrossed <==> e.semimajorAxisDelta > SEMIMAJOR_AXIS_THRESHOLD)
              && curr.inclination in {prev.inclination + e.inclinationDelta, prev.inclination - e.inclinationDelta}
              && curr.semimajorAxis in {prev.semimajorAxis + e.semimajorAxisDelta, prev.semimajorAxis - e.semimajorAxisDelta}
    ensures e.RaanShift? ==>
              && e.raanDelta > RAAN_THRESHOLD
              && curr.raOfAscNode in {prev.raOfAscNode + e.raanDelta, prev.raOfAscNode - e.raanDelta}
    ensures e.EccentricityChange? ==>
              && e.eccentricityDelta > ECCENTRICITY_THRESHOLD
              && curr.eccentricity in {prev.eccentricity + e.eccentricityDelta, prev.eccentricity - e.eccentricityDelta}
    ensures e.DragChange? ==>
              && curr.bstar == prev.bstar + e.delta && e.prevBstar == prev.bstar && e.currBstar == curr.bstar
              && Abs(e.delta) > DragAllowance(prev.bstar)
              && (e.usedAbsoluteFallback <==> e.percentChange.None?)
              && (e.percentChange.Some? ==> e.percentChange.value * prev.bstar == e.delta)
  {
    GpEventMeaning(prev, curr, e);
    hide GpEvents, FireAll;
    if Abs(prev.bstar) >= BSTAR_NEAR_ZERO {
      assert (curr.bstar - prev.bstar) / prev.bstar * prev.bstar == curr.bstar - prev.bstar;
    }
  }

  /** The four kinds in the order the registry evaluates them. */
  function GpKind(e: DetectedEvent): nat {
    match e
    case ManeuverDetected(_, _, _, _, _, _) => 0
    case RaanShift(_, _, _) => 1
    case EccentricityChange(_, _, _) => 2
    case _ => 3
  }

  /** No kind twice, and always in the same order. */
  lemma GpEventsInOrder(prev: Snapshot, curr: Snapshot)
    ensures var events := GpEvents(prev, curr);
            forall i, j :: 0 <= i < j < |events| ==> GpKind(events[i]) < GpKind(events[j])
  {
    GpEventsUnfold(prev, curr);
  }

  /** Every GP event, by its own threshold on the two snapshots, whatever the other rules say. */
  lemma GpEventMeaning(prev: Snapshot, curr: Snapshot, e: DetectedEvent)
    ensures var inclinationDelta := Abs(curr.inclination - prev.inclination);
            var axisDelta := Abs(curr.semimajorAxis - prev.semimajorAxis);
            var raanDelta := Abs(curr.raOfAscNode - prev.raOfAscNode);
            var eccentricityDelta := Abs(curr.eccentricity - prev.eccentricity);
            var bstarDelta := curr.bstar - prev.bstar;
            e in GpEvents(prev, curr)
            <==> || ((inclinationDelta > 0.01 || axisDelta > 1.0)
                     && e == ManeuverDetected(inclinationDelta, axisDelta, inclinationDelta > 0.01, axisDelta > 1.0,
                                              prev.epoch, curr.epoch))
                 || (raanDelta > 0.01 && e == RaanShift(raanDelta, prev.epoch, curr.epoch))
                 || (eccentricityDelta > 0.001 && e == EccentricityChange(eccentricityDelta, prev.epoch, curr.epoch))
                 || (Abs(prev.bstar) < 0.000001 && Abs(bstarDelta) > 0.0001
                     && e == DragChange(prev.bstar, curr.bstar, bstarDelta, true, None, prev.epoch, curr.epoch))
                 || (Abs(prev.bstar) >= 0.000001 && Abs(bstarDelta) > 0.5 * Abs(prev.bstar)
                     && e == DragChange(prev.bstar, curr.bstar, bstarDelta, false, Some(bstarDelta / prev.bstar),
                                        prev.epoch, curr.epoch))
  {
    GpEventsUnfold(prev, curr);
    if Abs(prev.bstar) >= BSTAR_NEAR_ZERO {
      QuotientBound(curr.bstar - prev.bstar, prev.bstar);
    }
    FourFired(ManeuverDetectedRule(prev, curr), RaanShiftRule(prev, curr), EccentricityChangeRule(prev, curr),
              DragChangeRule(prev, curr), e);
    hide FireAll, GpEvents, Fired;
  }

  lemma FourFired(a: Option<DetectedEvent>, b: Option<DetectedEvent>, c: Option<DetectedEvent>, d: Option<DetectedEvent>,
                  e: DetectedEvent)
    ensures e in Fired(a) + Fired(b) + Fired(c) + Fired(d) <==> a == Some(e) || b == Some(e) || c == Some(e) || d == Some(e)
  {
  }

  /** The same order of kinds for SATCAT events. */
  function ObjectKind(e: DetectedEvent): nat {
    match e
    case DecayDetected(_) => 0
    case ObjectRenamed(_, _) => 1
    case ObjectTypeChanged(_, _) => 2
    case _ => 3
  }

  lemma ObjectEventsInOrder(prev: ObjectState, curr: ObjectState)
    ensures var events := ObjectEvents(prev, curr);
            forall i, j :: 0 <= i < j < |events| ==> ObjectKind(events[i]) < ObjectKind(events[j])
  {
    ObjectEventsUnfold(prev, curr);
  }

  /** The SATCAT rules fire on nothing but a first decay date and changed, present text. */
  lemma ObjectEventMeaning(prev: ObjectState, curr: ObjectState, e: DetectedEvent)
    ensures e in ObjectEvents(prev, curr)
            <==> || (prev.decayDate == None && curr.decayDate.Some? && e == DecayDetected(curr.decayDate.value))
                 || (prev.objectName != "" && curr.objectName != "" && prev.objectName != curr.objectName
                     && e == ObjectRenamed(prev.objectName, curr.objectName))
                 || (prev.objectType != "" && curr.objectType != "" && prev.objectType != curr.objectType
                     && e == ObjectTypeChanged(prev.objectType, curr.objectType))
                 || (prev.rcsSize != "" && curr.rcsSize != "" && prev.rcsSize != curr.rcsSize
                     && e == RcsSizeChanged(prev.rcsSize, curr.rcsSize))
  {
    ObjectEventsUnfold(prev, curr);
  }
}
