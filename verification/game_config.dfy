/** The fixed configuration of the snake game: board geometry, timing,
    entry fee, reward threshold, and the reward tier table.

    JavaScript number constants with a fractional part (the tier multipliers)
    are written as Dafny `real`s, which are exact rationals. */
module GameConfig {

  const BoardWidth: int := 400
  const BoardHeight: int := 400
  /** Side of one cell, in pixels. */
  const GridSize: int := 20
  /** Tick interval, in milliseconds, before the tier's speed factor is applied. */
  const InitialSpeed: real := 200.0
  const EntryFee: real := 5.0
  /** Scores below this earn no reward. */
  const BaseThreshold: int := 500
  /** Points added for every food eaten, whatever the tier. */
  const FoodPoints: nat := 10

  /** Number of cells along the x axis and along the y axis. */
  const Cols: int := BoardWidth / GridSize
  const Rows: int := BoardHeight / GridSize

  /** An upper score bound; the last tier is unbounded (`Infinity`). */
  datatype Bound = Finite(n: int) | Infinite

  datatype Tier = Tier(
    name: string,
    minScore: int,       // inclusive
    maxScore: Bound,     // exclusive
    multiplier: real,    // scales the reward
    speedMultiplier: real // scales the tick interval
  )

  /** `minScore <= score < maxScore`, where every score is below `Infinity`. */
  predicate InTier(t: Tier, score: int) {
    t.minScore <= score && (t.maxScore.Infinite? || score < t.maxScore.n)
  }

  /** The tier table, ascending by `minScore`. It starts at 500, not at 0. */
  const Tiers: seq<Tier> := [
    Tier("Novice", 500, Finite(1000), 1.2, 0.9),
    Tier("Apprentice", 1000, Finite(2000), 1.5, 0.8),
    Tier("Expert", 2000, Finite(3500), 2.0, 0.7),
    Tier("Master", 3500, Finite(5000), 3.0, 0.6),
    Tier("Legendary", 5000, Infinite, 5.0, 0.5)
  ]

  /** Consecutive tiers meet without gap or overlap, and only the last is unbounded. */
  predicate Contiguous(table: seq<Tier>) {
    && |table| > 0
    && (forall i :: 0 <= i < |table| - 1 ==> table[i].maxScore == Finite(table[i + 1].minScore))
    && (forall i :: 0 <= i < |table| - 1 ==> table[i].minScore < table[i + 1].minScore)
    && table[|table| - 1].maxScore.Infinite?
  }

  /** Multipliers grow and speed factors shrink (ticks get faster) up the table. */
  predicate Escalating(table: seq<Tier>) {
    forall i, j :: 0 <= i <= j < |table| ==>
      table[i].multiplier <= table[j].multiplier && table[j].speedMultiplier <= table[i].speedMultiplier
  }

  lemma TiersWellFormed()
    ensures Contiguous(Tiers) && Escalating(Tiers)
    ensures Cols == 20 && Rows == 20
    ensures forall i :: 0 <= i < |Tiers| ==> 1.0 <= Tiers[i].multiplier && 0.5 <= Tiers[i].speedMultiplier <= 0.9
  {
  }

  /** Every reward multiplier is a whole number of tenths. */
  lemma MultipliersInTenths(i: nat)
    requires i < |Tiers|
    ensures (Tiers[i].multiplier * 10.0).Floor as real == Tiers[i].multiplier * 10.0
  {
  }
}
