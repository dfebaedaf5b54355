/** The score classification of the popup (popup/popup.js): the table of
    polarization levels, the level lookup and the score display. Scores are
    JavaScript numbers, so they may be fractional, infinite or NaN. */
module Popup {
  import opened Wrappers
  import opened ResponseParser

  /** A JavaScript number as far as the comparisons here can tell. */
  datatype JsNumber = Num(value: real) | PosInfinity | NegInfinity | NaN

  /** `x <= bound`; false for NaN. */
  predicate AtMost(x: JsNumber, bound: int) {
    match x
    case Num(v) => v <= bound as real
    case PosInfinity => false
    case NegInfinity => true
    case NaN => false
  }

  /** `x >= bound`; false for NaN. */
  predicate AtLeast(x: JsNumber, bound: int) {
    match x
    case Num(v) => v >= bound as real
    case PosInfinity => true
    case NegInfinity => false
    case NaN => false
  }

  datatype LevelName = Balanced | Slight | Moderate | Extreme

  /** One entry of `POLARIZATION_LEVELS`; `range` is `[low, high]`, both
      inclusive. */
  datatype LevelConfig = LevelConfig(low: int, high: int, title: string, message: string, color: string, icon: string)

  datatype Level = Level(name: LevelName, config: LevelConfig)

  const Green: string := "#4CAF50"
  const Yellow: string := "#FFC107"
  const Orange: string := "#FF9800"
  const Red: string := "#F44336"

  const BalancedLevel: Level := Level(Balanced, LevelConfig(0, 30,
    "Fairly Balanced Views", "This content presents a balanced perspective.", Green, "\U{2713}"))
  const SlightLevel: Level := Level(Slight, LevelConfig(31, 60,
    "Potential Bias Detected", "Consider exploring other perspectives for a fuller understanding.", Yellow, "\U{1F4A1}"))
  const ModerateLevel: Level := Level(Moderate, LevelConfig(61, 80,
    "Notably Biased Views", "This content shows notable bias. Here are some alternative viewpoints:", Orange, "\U{26A1}"))
  const ExtremeLevel: Level := Level(Extreme, LevelConfig(81, 100,
    "Extremely Skewed Views Detected", "Strong bias detected. Consider these opposing perspectives:", Red, "\U{26A0}\U{FE0F}"))

  /** `POLARIZATION_LEVELS` in declaration order, the order
      `Object.entries` gives. */
  const Levels: seq<Level> := [BalancedLevel, SlightLevel, ModerateLevel, ExtremeLevel]

  /** `score >= config.range[0] && score <= config.range[1]`. */
  predicate InRange(score: JsNumber, config: LevelConfig) {
    AtLeast(score, config.low) && AtMost(score, config.high)
  }

  /** The first level of `levels` whose range holds `score`. */
  function FirstLevel(levels: seq<Level>, score: JsNumber): (r: Option<Level>)
    ensures r.None? <==> forall i :: 0 <= i < |levels| ==> !InRange(score, levels[i].config)
    ensures r.Some? ==> r.value in levels && InRange(score, r.value.config)
  {
    if levels == [] then None
    else if InRange(score, levels[0].config) then Some(levels[0])
    else FirstLevel(levels[1..], score)
  }

  /** `getPolarizationLevel(score)`: the first level whose range holds the
      score, `balanced` when none does. */
  function GetPolarizationLevel(score: JsNumber): (r: Level)
    ensures r in Levels
    ensures (forall i :: 0 <= i < |Levels| ==> !InRange(score, Levels[i].config)) ==> r == BalancedLevel
    ensures (exists i :: 0 <= i < |Levels| && InRange(score, Levels[i].config)) ==> InRange(score, r.config)
  {
    match FirstLevel(Levels, score)
    case Some(level) => level
    case None => BalancedLevel
  }

  /** Levels are tried in declaration order: a level is chosen when its range
      holds the score and no earlier range does. */
  lemma {:induction false} FirstLevelWins(levels: seq<Level>, score: JsNumber, i: nat)
    requires i < |levels| && InRange(score, levels[i].config)
    requires forall j :: 0 <= j < i ==> !InRange(score, levels[j].config)
    ensures FirstLevel(levels, score) == Some(levels[i])
  {
    if i > 0 {
      FirstLevelWins(levels[1..], score, i - 1);
    }
  }

  /** The ranges of the table are pairwise disjoint: no number lies in two
      of them. */
  lemma RangesDisjoint(score: JsNumber, i: nat, j: nat)
    requires i < j < |Levels|
    ensures !(InRange(score, Levels[i].config) && InRange(score, Levels[j].config))
  {
    assert Levels[i].config.high < Levels[j].config.low;
  }

  /** Every integer from 0 to 100 lies in exactly one range, and that is the
      level the lookup returns. */
  lemma LevelOfInteger(n: int)
    requires 0 <= n <= 100
    ensures InRange(Num(n as real), GetPolarizationLevel(Num(n as real)).config)
    ensures forall i :: 0 <= i < |Levels| && InRange(Num(n as real), Levels[i].config) ==>
              Levels[i] == GetPolarizationLevel(Num(n as real))
  {
    var score := Num(n as real);
    var i := if n <= 30 then 0 else if n <= 60 then 1 else if n <= 80 then 2 else 3;
    assert InRange(score, Levels[i].config);
    forall j | 0 <= j < |Levels| && j != i
      ensures !InRange(score, Levels[j].config)
    {
      if j < i {
        RangesDisjoint(score, j, i);
      } else {
        RangesDisjoint(score, i, j);
      }
    }
    FirstLevelWins(Levels, score, i);
  }

  /** Scores that no range of `Levels` holds: NaN, the infinities, negative
      scores, scores above 100 and the fractions between two ranges. */
  predicate OutsideLevels(score: JsNumber) {
    match score
    case Num(v) => v < 0.0 || 100.0 < v || 30.0 < v < 31.0 || 60.0 < v < 61.0 || 80.0 < v < 81.0
    case _ => true
  }

  /** Exactly the scores of `OutsideLevels` fall through every range, and
      they fall back to `balanced`. */
  lemma LevelFallback(score: JsNumber)
    ensures (forall i :: 0 <= i < |Levels| ==> !InRange(score, Levels[i].config)) <==> OutsideLevels(score)
    ensures OutsideLevels(score) ==> GetPolarizationLevel(score) == BalancedLevel
  {
    var none := forall i :: 0 <= i < |Levels| ==> !InRange(score, Levels[i].config);
    assert none <==> !InRange(score, Levels[0].config) && !InRange(score, Levels[1].config) &&
                     !InRange(score, Levels[2].config) && !InRange(score, Levels[3].config);
  }

  /** What `getScoreDisplay` returns. */
  datatype Display = Display(color: string, caption: string)

  const BalancedDisplay: Display := Display(Green, "Balanced")
  const SlightDisplay: Display := Display(Yellow, "Potentially Biased")
  const ModerateDisplay: Display := Display(Orange, "Notably Biased")
  const ExtremeDisplay: Display := Display(Red, "Extremely Biased")

  /** `getScoreDisplay(score)`. */
  function GetScoreDisplay(score: JsNumber): (d: Display)
    ensures d in {BalancedDisplay, SlightDisplay, ModerateDisplay, ExtremeDisplay}
  {
    if AtMost(score, 30) then BalancedDisplay
    else if AtMost(score, 60) then SlightDisplay
    else if AtMost(score, 80) then ModerateDisplay
    else ExtremeDisplay
  }

  /** The rank of a display label, from the least to the most severe. */
  function Severity(d: Display): (n: nat)
    ensures n <= 3
  {
    if d == BalancedDisplay then 0
    else if d == SlightDisplay then 1
    else if d == ModerateDisplay then 2
    else 3
  }

  /** The display is chosen by thresholds 30, 60 and 80, each inclusive. */
  lemma DisplayThresholds(score: JsNumber)
    ensures Severity(GetScoreDisplay(score)) == 0 <==> AtMost(score, 30)
    ensures Severity(GetScoreDisplay(score)) == 1 <==> !AtMost(score, 30) && AtMost(score, 60)
    ensures Severity(GetScoreDisplay(score)) == 2 <==> !AtMost(score, 60) && AtMost(score, 80)
    ensures Severity(GetScoreDisplay(score)) == 3 <==> !AtMost(score, 80)
  {
    DisplaysDistinct();
  }

  lemma DisplaysDistinct()
    ensures Severity(BalancedDisplay) == 0 && Severity(SlightDisplay) == 1
    ensures Severity(ModerateDisplay) == 2 && Severity(ExtremeDisplay) == 3
  {
    assert BalancedDisplay.caption[0] != SlightDisplay.caption[0];
    assert BalancedDisplay.caption[0] != ModerateDisplay.caption[0];
    assert SlightDisplay.caption[0] != ModerateDisplay.caption[0];
  }

  /** A higher score never gets a less severe label. */
  lemma DisplayMonotone(x: real, y: real)
    requires x <= y
    ensures Severity(GetScoreDisplay(Num(x))) <= Severity(GetScoreDisplay(Num(y)))
  {
    DisplaysDistinct();
  }

  /** NaN fails every comparison, so it is shown as the most severe label
      while its level is `balanced`. */
  lemma DisplayOfNaN()
    ensures GetScoreDisplay(NaN) == ExtremeDisplay
    ensures GetPolarizationLevel(NaN).config.color != GetScoreDisplay(NaN).color
  {
  }

  /** For every integer score from 0 to 100 the display colour is the colour
      of the level the lookup returns. */
  lemma ColourAgreement(n: int)
    requires 0 <= n <= 100
    ensures GetScoreDisplay(Num(n as real)).color == GetPolarizationLevel(Num(n as real)).config.color
  {
    LevelOfInteger(n);
    var score := Num(n as real);
    var i := if n <= 30 then 0 else if n <= 60 then 1 else if n <= 80 then 2 else 3;
    assert InRange(score, Levels[i].config);
  }

  /** Between two ranges the two functions disagree: 30.5 is shown yellow
      but its level is the green `balanced`. */
  lemma FractionDisagrees()
    ensures GetScoreDisplay(Num(30.5)).color == Yellow
    ensures GetPolarizationLevel(Num(30.5)).config.color == Green
  {
  }

  /** Every report the parser produces is given a level whose range holds its
      score and a display of the same colour. */
  lemma ReportLevelAgrees(report: AnalysisReport)
    requires WellFormedReport(report)
    ensures InRange(Num(report.polarizationScore as real), GetPolarizationLevel(Num(report.polarizationScore as real)).config)
    ensures GetScoreDisplay(Num(report.polarizationScore as real)).color ==
              GetPolarizationLevel(Num(report.polarizationScore as real)).config.color
  {
    LevelOfInteger(report.polarizationScore);
    ColourAgreement(report.polarizationScore);
  }
}
