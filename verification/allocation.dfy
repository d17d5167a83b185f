/**
 * Asset allocation by risk profile: a fixed percentage split of the corpus
 * across six instruments, chosen by the name of the profile.
 */
module Allocation {

  /** One instrument and the percentage of the corpus placed in it. */
  datatype Holding = Holding(instrument: string, percent: int)

  /** The six instruments, in the order every table lists them. */
  const Instruments: seq<string> := ["Equity MFs", "Debt MFs", "PPF", "SCSS", "NPS", "EPF"]

  /** Sum of the percentages of a table. */
  function TotalPercent(t: seq<Holding>): (total: int)
  {
    if t == [] then 0 else t[0].percent + TotalPercent(t[1..])
  }

  /** A table over the six instruments with the given percentages. */
  function Table(equity: int, debt: int, ppf: int, scss: int, nps: int, epf: int): (t: seq<Holding>)
    ensures |t| == |Instruments|
    ensures forall i :: 0 <= i < |t| ==> t[i].instrument == Instruments[i]
    ensures TotalPercent(t) == equity + debt + ppf + scss + nps + epf
  {
    var t := [Holding("Equity MFs", equity), Holding("Debt MFs", debt), Holding("PPF", ppf),
              Holding("SCSS", scss), Holding("NPS", nps), Holding("EPF", epf)];
    assert TotalPercent(t[5..]) == epf by { assert t[5..][1..] == []; }
    assert TotalPercent(t[4..]) == nps + epf by { assert t[4..][1..] == t[5..]; }
    assert TotalPercent(t[3..]) == scss + nps + epf by { assert t[3..][1..] == t[4..]; }
    assert TotalPercent(t[2..]) == ppf + scss + nps + epf by { assert t[2..][1..] == t[3..]; }
    assert TotalPercent(t[1..]) == debt + ppf + scss + nps + epf by { assert t[1..][1..] == t[2..]; }
    t
  }

  const Conservative: seq<Holding> := Table(10, 30, 30, 15, 10, 5)
  const Balanced: seq<Holding> := Table(30, 25, 15, 10, 15, 5)
  const Aggressive: seq<Holding> := Table(50, 20, 10, 5, 10, 5)

  /** The allocation for a risk profile: "Conservative" and "Balanced" have
      their own tables and every other name gets the aggressive one. Each table
      lists the six instruments in order, with non-negative percentages that
      add up to exactly 100. */
  function AllocationFor(riskProfile: string): (t: seq<Holding>)
    ensures |t| == |Instruments|
    ensures forall i :: 0 <= i < |t| ==> t[i].instrument == Instruments[i] && t[i].percent >= 0
    ensures TotalPercent(t) == 100
  {
    if riskProfile == "Conservative" then Conservative
    else if riskProfile == "Balanced" then Balanced
    else Aggressive
  }

  /** A profile name other than the two recognised ones falls through to the
      aggressive table. */
  lemma UnrecognisedProfileIsAggressive(riskProfile: string)
    requires riskProfile != "Conservative" && riskProfile != "Balanced"
    ensures AllocationFor(riskProfile) == AllocationFor("Aggressive")
  {
  }

  /** The equity share grows with the appetite for risk: 10, 30 and 50 percent. */
  lemma EquityShareGrowsWithRisk()
    ensures AllocationFor("Conservative")[0].percent == 10
    ensures AllocationFor("Balanced")[0].percent == 30
    ensures AllocationFor("Aggressive")[0].percent == 50
    ensures AllocationFor("Conservative")[0].percent < AllocationFor("Balanced")[0].percent
            < AllocationFor("Aggressive")[0].percent
  {
  }
}
