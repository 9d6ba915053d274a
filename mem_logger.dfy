/**
 * `MemLogger`: a writer that keeps every accepted record, formatted as one
 * line, in memory. The class-level `$instance` slot that `getInstance` reads
 * is an object of its own, `LastInstance`, passed to the constructor.
 */
module MemLog {
  import opened Wrappers
  import opened Text
  import opened Levels
  import opened LogContext
  import opened Placeholders

  /** The width of the level column: `sprintf("%10s: %s", ...)`. */
  const LevelWidth: nat := 10

  /** The stored line: the upper-cased level right-justified in its column, then ": ", then the message. */
  function Line(level: string, message: string): string
  {
    PadLeft(ToUpper(level), LevelWidth) + ": " + message
  }

  /** The static slot holding the last constructed `MemLogger`. */
  class LastInstance {
    var instance: Option<MemLogger>

    constructor ()
      ensures instance == None
    {
      instance := None;
    }
  }

  class MemLogger {
    /** The rank below which records are not stored. */
    var minLevel: nat
    /** The stored lines, oldest first. */
    var log: seq<string>

    /** Creates an empty log with the rank of `level` as its threshold and records it in `slot`. */
    constructor (level: string, slot: LastInstance)
      modifies slot
      ensures minLevel == LevelNumeric(level) && log == []
      ensures slot.instance == Some(this)
    {
      minLevel := LevelNumeric(level);
      log := [];
      new;
      slot.instance := Some(this);
    }

    /** Stores one line for a record whose level reaches the threshold, and nothing otherwise. */
    method Write(level: string, message: string, ctx: Context)
      requires Fillable(ctx)
      modifies this`log
      ensures LevelNumeric(level) < minLevel ==> log == old(log)
      ensures LevelNumeric(level) >= minLevel ==> log == old(log) + [Line(level, Filled(message, ctx))]
    {
      var levnum := LevelNumeric(level);
      if levnum < minLevel {
        return;
      }
      var filled := FillPlaceholders(message, ctx);
      log := log + [Line(level, filled)];
    }

    method GetLog() returns (r: seq<string>)
      ensures r == log
    {
      r := log;
    }
  }

  /** `MemLogger::getInstance`: the last constructed logger, if any. */
  method GetInstance(slot: LastInstance) returns (r: Option<MemLogger>)
    ensures r == slot.instance
  {
    r := slot.instance;
  }

  /** The index of the first character at or after `i` that is not a space. */
  function SpaceEnd(s: string, i: nat): (k: nat)
    requires i <= |s|
    ensures i <= k <= |s|
    decreases |s| - i
  {
    if i < |s| && s[i] == ' ' then SpaceEnd(s, i + 1) else i
  }

  /** Leading spaces removed: how a reader recovers the level from its column. */
  function StripSpaces(s: string): string
  {
    s[SpaceEnd(s, 0)..]
  }

  /** The level and the message of a stored line, read back from their columns. */
  function ParseLine(line: string): Option<(string, string)>
  {
    if |line| < LevelWidth + 2 || line[LevelWidth..LevelWidth + 2] != ": " then None
    else Some((StripSpaces(line[..LevelWidth]), line[LevelWidth + 2..]))
  }

  lemma {:induction false} SpaceEndPadding(n: nat, u: string, i: nat)
    requires i <= n && (u == [] || u[0] != ' ')
    ensures SpaceEnd(Spaces(n) + u, i) == n
    decreases n - i
  {
    var s := Spaces(n) + u;
    if i < n {
      assert s[i] == ' ';
      SpaceEndPadding(n, u, i + 1);
    } else if i < |s| {
      assert s[i] == u[0];
    }
  }

  lemma StripSpacesPadding(n: nat, u: string)
    requires u == [] || u[0] != ' '
    ensures StripSpaces(Spaces(n) + u) == u
  {
    SpaceEndPadding(n, u, 0);
    assert (Spaces(n) + u)[n..] == u;
  }

  /**
   * A level name of at most ten characters that does not start with a space
   * fills the column exactly, and the level column and the message can be
   * read back from the line.
   */
  lemma ParseLineRoundTrip(level: string, message: string)
    requires |level| <= LevelWidth && (level == [] || level[0] != ' ')
    ensures |Line(level, message)| == LevelWidth + 2 + |message|
    ensures ParseLine(Line(level, message)) == Some((ToUpper(level), message))
  {
    var u := ToUpper(level);
    var n: nat := LevelWidth - |u|;
    var pad := PadLeft(u, LevelWidth);
    assert pad == Spaces(n) + u;
    StripSpacesPadding(n, u);
    ParseColumns(pad, message);
  }

  /** A column of exactly the level width, then ": ", is read back as it was written. */
  lemma ParseColumns(pad: string, message: string)
    requires |pad| == LevelWidth
    ensures ParseLine(pad + ": " + message) == Some((StripSpaces(pad), message))
  {
    ConcatSlices(pad, ": ", message);
  }

  /** A level name longer than the column is never truncated. */
  lemma LongLevelKept(level: string, message: string)
    requires |level| > LevelWidth
    ensures Line(level, message) == ToUpper(level) + ": " + message
  {
  }

  /** Every PSR-3 level name fits the level column. */
  lemma LevelNamesFit(i: int)
    requires 0 <= i < 8
    ensures |Severities[i]| <= LevelWidth && Severities[i][0] != ' '
  {
  }

  /** An `info` record "Foo" is stored as "      INFO: Foo". */
  lemma InfoLine()
    ensures Line("info", "Foo") == "      INFO: Foo"
  {
    UpperCaseOf("info", "INFO");
    assert Spaces(6) == "      ";
  }
}
