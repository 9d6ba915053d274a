/**
 * `AbstractWriter`: what the concrete writers share, an optional formatter and
 * a minimum level below which records are dropped.
 */
module Writers {
  import opened Wrappers
  import opened Levels
  import opened LogContext
  import opened Placeholders
  import Formatting

  class AbstractWriter {
    /** The formatter used by `Format`; no formatter means plain placeholder filling. */
    var formatter: Option<Formatting.PatternFormatter>
    /** The rank below which records are not accepted. */
    var minLevel: int

    constructor ()
      ensures formatter == None && minLevel == 0
    {
      formatter := None;
      minLevel := 0;
    }

    method SetFormatter(f: Formatting.PatternFormatter) returns (self: AbstractWriter)
      modifies this`formatter
      ensures formatter == Some(f) && self == this
    {
      formatter := Some(f);
      self := this;
    }

    /** Stores the rank of `level`; a name outside the table counts as rank 0. */
    method SetLevel(level: string) returns (self: AbstractWriter)
      modifies this`minLevel
      ensures minLevel == LevelNumeric(level) && self == this
    {
      minLevel := LevelNumeric(level);
      self := this;
    }

    /**
     * Whether a record of `level` would be accepted. An explicit `levelNum`
     * is compared instead of the level's rank in the table.
     */
    function IsLevelEnabled(level: string, levelNum: Option<int>): bool
      reads this
    {
      (match levelNum case Some(n) => n case None => LevelNumeric(level)) >= minLevel
    }

    /**
     * The formatter's rendering of the record, or, with no formatter, the
     * message with its placeholders filled.
     */
    method Format(level: string, message: string, ctx: Context, date: string -> string) returns (r: string)
      requires Fillable(ctx)
      ensures formatter.None? ==> r == Filled(message, ctx)
      ensures formatter.Some? ==> r == Formatting.Format(formatter.value, level, message, ctx, date)
    {
      if formatter.Some? {
        r := Formatting.Format(formatter.value, level, message, ctx, date);
      } else {
        r := FillPlaceholders(message, ctx);
      }
    }
  }

  /** A writer with the default minimum level accepts every level and every rank from 0 up. */
  lemma FreshWriterEnablesAll(w: AbstractWriter, level: string, n: nat)
    requires w.minLevel == 0
    ensures w.IsLevelEnabled(level, None) && w.IsLevelEnabled(level, Some(n))
  {
  }

  /**
   * The truth table of the writer tests: after `SetLevel` with the `i`-th
   * level, the `j`-th level is accepted exactly when it is at least as severe.
   */
  lemma {:induction false} EnabledTable(w: AbstractWriter, i: int, j: int)
    requires 0 <= i < 8 && 0 <= j < 8 && w.minLevel == LevelNumeric(Severities[i])
    ensures w.IsLevelEnabled(Severities[j], None) <==> i <= j
  {
    LevelRanks();
  }

  /** A level name outside the table is ranked like `debug`: accepted only when every level is. */
  lemma UnknownLevelEnabled(w: AbstractWriter, level: string)
    requires !IsLevel(level)
    ensures w.IsLevelEnabled(level, None) <==> w.minLevel <= 0
  {
  }

  /** With an explicit rank the level's name plays no part, and a higher rank is accepted whenever a lower one is. */
  lemma EnabledMonotone(w: AbstractWriter, level: string, other: string, r: int, r': int)
    requires w.IsLevelEnabled(level, Some(r)) && r <= r'
    ensures w.IsLevelEnabled(other, Some(r'))
  {
  }

  /** The same rank gives the same answer whether it is passed explicitly or read from the table. */
  lemma ExplicitRankAgrees(w: AbstractWriter, level: string)
    ensures w.IsLevelEnabled(level, Some(LevelNumeric(level))) == w.IsLevelEnabled(level, None)
  {
  }
}
