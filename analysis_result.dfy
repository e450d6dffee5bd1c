/**
 * The display helpers of `src/components/AnalysisResult.tsx`: the colour band of a score, the
 * style of the niche verdict, the radar series, the pie split of the authority score and the
 * class of an impact badge. Scores are JavaScript numbers, taken here as reals.
 */
module AnalysisResult {
  import opened Wrappers
  import opened JsString

  // ---------------------------------------------------------------------------------------
  // getColor

  const Green := "#10b981"
  const Amber := "#f59e0b"
  const Red := "#ef4444"

  /** `getColor`: green from 80 up, amber from 50 up, red below. */
  function ScoreColor(score: real): (c: string)
    ensures c == Green <==> score >= 80.0
    ensures c == Amber <==> 50.0 <= score < 80.0
    ensures c == Red <==> score < 50.0
  {
    if score >= 80.0 then Green else if score >= 50.0 then Amber else Red
  }

  /** The bands in order: red, amber, green. */
  function Band(c: string): nat
  {
    if c == Green then 2 else if c == Amber then 1 else 0
  }

  /** A higher score never gets a lower band. */
  lemma ScoreColorMonotone(s: real, t: real)
    requires s <= t
    ensures Band(ScoreColor(s)) <= Band(ScoreColor(t))
  {
  }

  // ---------------------------------------------------------------------------------------
  // getVerdictStyles

  const LeaderStyle := "from-emerald-500/20 to-teal-500/20 text-emerald-400 border-emerald-500/30"
  const ChallengerStyle := "from-primary/20 to-secondary/20 text-primary-400 border-primary-500/30"
  const LaggardStyle := "from-red-500/20 to-amber-500/20 text-red-400 border-red-500/30"

  /** `getVerdictStyles`: a case-sensitive substring match, 'Leader' before 'Challenger'. */
  function VerdictStyle(verdict: string): (r: string)
    ensures r == LeaderStyle <==> Includes(verdict, "Leader")
    ensures r == ChallengerStyle <==> !Includes(verdict, "Leader") && Includes(verdict, "Challenger")
    ensures r == LaggardStyle <==> !Includes(verdict, "Leader") && !Includes(verdict, "Challenger")
  {
    assert |LeaderStyle| == 73 && |ChallengerStyle| == 70 && |LaggardStyle| == 62;
    if Includes(verdict, "Leader") then LeaderStyle
    else if Includes(verdict, "Challenger") then ChallengerStyle
    else LaggardStyle
  }

  /** A verdict naming the site both a leader and a challenger is styled as a leader. */
  lemma LeaderBeatsChallenger(verdict: string)
    requires Includes(verdict, "Leader") && Includes(verdict, "Challenger")
    ensures VerdictStyle(verdict) == LeaderStyle
  {
  }

  /** Each of the three verdicts the prompt asks for gets its own style; 'Laggard' is red. */
  lemma VerdictWords()
    ensures VerdictStyle("Leader") == LeaderStyle
    ensures VerdictStyle("Challenger") == ChallengerStyle
    ensures VerdictStyle("Laggard") == LaggardStyle
  {
    assert OccursAt("Leader", "Leader", 0);
    assert OccursAt("Challenger", "Challenger", 0);
    NotIncludesMissingChar("Challenger", "Leader", 0);
    NotIncludesMissingChar("Laggard", "Leader", 1);
    NotIncludesMissingChar("Laggard", "Challenger", 0);
  }

  /** The match is case-sensitive, and an empty verdict is red. */
  lemma VerdictCaseSensitive()
    ensures VerdictStyle("leader") == LaggardStyle
    ensures VerdictStyle("") == LaggardStyle
  {
    NotIncludesMissingChar("leader", "Leader", 0);
    NotIncludesMissingChar("leader", "Challenger", 0);
  }

  // ---------------------------------------------------------------------------------------
  // radarData

  datatype Metrics = Metrics(quality: real, authority: real, technical: real, structure: real, velocity: real)

  /** One spoke of the radar chart; `A` is the value plotted. */
  datatype RadarPoint = RadarPoint(subject: string, A: real, fullMark: real)

  const Subjects: seq<string> := ["Quality", "Authority", "Technical", "Structure", "Velocity"]

  /** `radarData`: the five metrics in a fixed order, each out of 100, or nothing without metrics. */
  function RadarData(metrics: Option<Metrics>): (r: seq<RadarPoint>)
    ensures metrics.None? <==> r == []
    ensures metrics.Some? ==> |r| == |Subjects| && forall i :: 0 <= i < |r| ==> r[i].subject == Subjects[i] && r[i].fullMark == 100.0
  {
    match metrics
    case None => []
    case Some(m) =>
      [RadarPoint("Quality", m.quality, 100.0), RadarPoint("Authority", m.authority, 100.0),
       RadarPoint("Technical", m.technical, 100.0), RadarPoint("Structure", m.structure, 100.0),
       RadarPoint("Velocity", m.velocity, 100.0)]
  }

  /** Reads the metrics back from a radar series. */
  function MetricsOf(points: seq<RadarPoint>): Option<Metrics>
  {
    if |points| < 5 then None
    else Some(Metrics(points[0].A, points[1].A, points[2].A, points[3].A, points[4].A))
  }

  /** The radar series loses nothing: the metrics can be read back from it, in order. */
  lemma RadarRoundTrip(metrics: Option<Metrics>)
    ensures MetricsOf(RadarData(metrics)) == metrics
  {
  }

  // ---------------------------------------------------------------------------------------
  // The authority pie

  datatype Slice = Slice(value: real, fill: string)

  const TrackFill := "#1e293b"

  /** The pie of the authority score: the score in its band's colour, and the rest of 100 in the track colour. */
  function ScorePie(score: real): (r: seq<Slice>)
    ensures |r| == 2 && r[0].value == score && r[0].value + r[1].value == 100.0
    ensures r[0].fill == ScoreColor(score) && r[1].fill == TrackFill
  {
    [Slice(score, ScoreColor(score)), Slice(100.0 - score, TrackFill)]
  }

  /** For a score from 0 to 100 neither slice is negative. */
  lemma ScorePieInRange(score: real)
    requires 0.0 <= score <= 100.0
    ensures forall i :: 0 <= i < |ScorePie(score)| ==> 0.0 <= ScorePie(score)[i].value <= 100.0
  {
  }

  // ---------------------------------------------------------------------------------------
  // The impact badge

  const HighBadge := "bg-red-500/20 text-red-400"
  const MedBadge := "bg-amber-500/20 text-amber-400"
  const LowBadge := "bg-emerald-500/20 text-emerald-400"

  /** The class of a roadmap step's impact badge: red for 'High', amber for 'Med', emerald for anything else. */
  function ImpactBadge(impact: string): (r: string)
    ensures r == HighBadge <==> impact == "High"
    ensures r == MedBadge <==> impact == "Med"
    ensures r == LowBadge <==> impact != "High" && impact != "Med"
  {
    assert HighBadge[3] == 'r' && MedBadge[3] == 'a' && LowBadge[3] == 'e';
    if impact == "High" then HighBadge else if impact == "Med" then MedBadge else LowBadge
  }

  /** The three impacts of the roadmap get three different badges. */
  lemma ImpactBadgesDistinct()
    ensures ImpactBadge("High") != ImpactBadge("Med")
    ensures ImpactBadge("Med") != ImpactBadge("Low")
    ensures ImpactBadge("High") != ImpactBadge("Low")
  {
  }
}
