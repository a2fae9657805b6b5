/**
 * The per-symbol statistics row that the text analyser produces and both
 * code builders consume, with the sums taken over a list of such rows.
 */
module Symbols {
  import opened Folds

  datatype Option<T> = None | Some(value: T)

  datatype Result<T, E> = Ok(value: T) | Err(error: E)

  /**
   * One row of the analyser's table: the symbol, how often it occurs in the
   * valid text, its probability and the "normalised" probability, which is
   * computed by the same formula a second time.
   */
  datatype SymbolStat = SymbolStat(symbol: char, count: nat, probability: real, normalizedProbability: real)

  function StatProbability(s: SymbolStat): real { s.probability }

  function StatCount(s: SymbolStat): nat { s.count }

  function StatSymbol(s: SymbolStat): char { s.symbol }

  /** Sum of the probabilities, added from the first row on (`reduce`). */
  function ProbabilitySum(stats: seq<SymbolStat>): real
  {
    Sum(stats, StatProbability)
  }

  /** Sum of the counts, added from the first row on (`reduce`). */
  function CountSum(stats: seq<SymbolStat>): nat
  {
    Total(stats, StatCount)
  }

  /** The symbols of the rows, in order. */
  function StatSymbols(stats: seq<SymbolStat>): seq<char>
  {
    Map(stats, StatSymbol)
  }
}
