/**
 * The severity table of the logger: the eight level names of PSR-3, each with
 * its numeric rank and its upper-case display name.
 */
module Levels {
  import opened Text

  datatype LevelInfo = LevelInfo(rank: nat, name: string)

  /** The level table, keyed by the PSR-3 level name. */
  const LevelTable: map<string, LevelInfo> := map[
    "debug" := LevelInfo(0, "DEBUG"),
    "info" := LevelInfo(1, "INFO"),
    "notice" := LevelInfo(2, "NOTICE"),
    "warning" := LevelInfo(3, "WARNING"),
    "error" := LevelInfo(4, "ERROR"),
    "critical" := LevelInfo(5, "CRITICAL"),
    "alert" := LevelInfo(6, "ALERT"),
    "emergency" := LevelInfo(7, "EMERGENCY")
  ]

  /** The level names from least to most severe. */
  const Severities: seq<string> := ["debug", "info", "notice", "warning", "error", "critical", "alert", "emergency"]

  const Debug: string := "debug"

  /** The name is a key of the level table. */
  predicate IsLevel(level: string)
  {
    level in LevelTable
  }

  /** `getLevelNumeric`: the rank of a known level, 0 for any other name. */
  function LevelNumeric(level: string): (r: nat)
    ensures r <= 7
    ensures !IsLevel(level) ==> r == 0
    ensures IsLevel(level) ==> r == LevelTable[level].rank
  {
    if level in LevelTable then LevelTable[level].rank else 0
  }

  /** The table ranks the levels 0 (debug) to 7 (emergency), in the order of `Severities`. */
  lemma LevelRanks()
    ensures |Severities| == 8
    ensures forall i :: 0 <= i < 8 ==> IsLevel(Severities[i]) && LevelNumeric(Severities[i]) == i
  {
  }

  /** The table holds exactly the eight PSR-3 names. */
  lemma KnownLevels(level: string)
    ensures IsLevel(level) <==> level in Severities
  {
    assert LevelTable.Keys == {"debug", "info", "notice", "warning", "error", "critical", "alert", "emergency"};
  }

  lemma UpperCaseOf(n: string, u: string)
    requires |u| == |n| && forall k :: 0 <= k < |n| ==> u[k] == UpperChar(n[k])
    ensures ToUpper(n) == u
  {
  }

  /** Each display name in the table is `strtoupper` of its key. */
  lemma DisplayNamesAreUpperCase(i: int)
    requires 0 <= i < 8
    ensures LevelTable[Severities[i]].name == ToUpper(Severities[i])
  {
    var n := Severities[i];
    UpperCaseOf(n, LevelTable[n].name);
  }

  /** Ranks are strictly increasing along the table, so distinct levels have distinct ranks. */
  lemma {:induction false} RanksStrictlyOrdered(i: int, j: int)
    requires 0 <= i < j < 8
    ensures LevelNumeric(Severities[i]) < LevelNumeric(Severities[j])
  {
    LevelRanks();
  }
}
