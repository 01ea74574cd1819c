/** The composite risk score: a clamped weighted sum of damage, outage probability
    and criticality, minus a clamped crew-ETA term.  Pure, row by row. */
module Composite {
  import opened Telemetry

  const DamageWeight: real := 0.40
  const OutageWeight: real := 0.30
  const CriticalityWeight: real := 0.20
  const CrewWeight: real := 0.10
  /** Crew ETA (minutes) that maps to a crew term of 100. */
  const CrewEtaFull: real := 180.0

  /** Limit x to [lo, hi]. */
  function Clamp(x: real, lo: real, hi: real): (r: real)
    requires lo <= hi
    ensures lo <= r <= hi
    ensures lo <= x <= hi ==> r == x
    ensures r == x || (x < lo && r == lo) || (x > hi && r == hi)
  {
    if x < lo then lo else if x > hi then hi else x
  }

  /** Clamping never moves a value past another one: it is monotone. */
  lemma ClampMonotone(x: real, y: real, lo: real, hi: real)
    requires lo <= hi && x <= y
    ensures Clamp(x, lo, hi) <= Clamp(y, lo, hi)
  {}

  /** The crew term before weighting: ETA as a percentage of 180 minutes, in [0, 100]. */
  function CrewNorm(crewEtaMin: real): (r: real)
    ensures 0.0 <= r <= 100.0
    ensures 0.0 <= crewEtaMin <= CrewEtaFull ==> r * CrewEtaFull == crewEtaMin * 100.0
    ensures crewEtaMin >= CrewEtaFull ==> r == 100.0
    ensures crewEtaMin <= 0.0 ==> r == 0.0
  {
    Clamp(crewEtaMin / CrewEtaFull * 100.0, 0.0, 100.0)
  }

  /** The weighted sum before the final clamp. */
  function RawScore(r: Row): real
  {
    DamageWeight * r.damageIndex + OutageWeight * r.outageProb
      + CriticalityWeight * r.criticality - CrewWeight * CrewNorm(r.crewEtaMin)
  }

  /** The composite of one row, whatever the ranges of its inputs. */
  function Score(r: Row): (c: real)
    ensures 0.0 <= c <= 100.0
    ensures 0.0 <= RawScore(r) <= 100.0 ==> c == RawScore(r)
    ensures RawScore(r) < 0.0 ==> c == 0.0
    ensures RawScore(r) > 100.0 ==> c == 100.0
  {
    Clamp(RawScore(r), 0.0, 100.0)
  }

  /** Scores a batch: the same rows in the same order, each with its composite;
      an empty batch gives an empty batch. */
  function ComputeComposite(rows: seq<Row>): (scored: seq<ScoredRow>)
    ensures |scored| == |rows|
    ensures forall i :: 0 <= i < |rows| ==> scored[i].row == rows[i]
    ensures forall i :: 0 <= i < |rows| ==> 0.0 <= scored[i].composite <= 100.0
    ensures forall i :: 0 <= i < |rows| ==> scored[i].composite == Score(rows[i])
  {
    seq(|rows|, i requires 0 <= i < |rows| => ScoredRow(rows[i], Score(rows[i])))
  }

  /** Scoring distributes over concatenation: each row is scored with no cross-row state. */
  lemma ComputeCompositeAppend(a: seq<Row>, b: seq<Row>)
    ensures ComputeComposite(a + b) == ComputeComposite(a) + ComputeComposite(b)
  {
    var l, r := ComputeComposite(a + b), ComputeComposite(a) + ComputeComposite(b);
    assert |l| == |r|;
    forall i | 0 <= i < |l| ensures l[i] == r[i] {
      if i < |a| {
        assert (a + b)[i] == a[i];
      } else {
        assert (a + b)[i] == b[i - |a|];
      }
    }
  }

  /** A longer crew ETA never raises the composite (the crew term is subtracted). */
  lemma ScoreAntitoneInCrewEta(r: Row, slower: real)
    requires r.crewEtaMin <= slower
    ensures Score(r.(crewEtaMin := slower)) <= Score(r)
  {
    var e := r.crewEtaMin;
    ClampMonotone(e / CrewEtaFull * 100.0, slower / CrewEtaFull * 100.0, 0.0, 100.0);
    assert CrewNorm(e) <= CrewNorm(slower);
    assert RawScore(r.(crewEtaMin := slower)) <= RawScore(r);
    ClampMonotone(RawScore(r.(crewEtaMin := slower)), RawScore(r), 0.0, 100.0);
  }

  /** More damage never lowers the composite. */
  lemma ScoreMonotoneInDamage(r: Row, worse: real)
    requires r.damageIndex <= worse
    ensures Score(r) <= Score(r.(damageIndex := worse))
  {
    ClampMonotone(RawScore(r), RawScore(r.(damageIndex := worse)), 0.0, 100.0);
  }

  /** With damage, outage and criticality on their nominal 0-100 scales and a
      non-negative crew ETA, the composite never exceeds 90. */
  lemma ScoreNominalAtMost90(r: Row)
    requires 0.0 <= r.damageIndex <= 100.0 && 0.0 <= r.outageProb <= 100.0
    requires 0.0 <= r.criticality <= 100.0 && 0.0 <= r.crewEtaMin
    ensures Score(r) <= 90.0
  {
    assert RawScore(r) <= 90.0;
  }
}
