/**
 * `Wedeto\Log\Logger`: one logger object per normalised module name, each with
 * a threshold level and a list of handlers, and the `log` operation that
 * bubbles a record from a logger up to the root logger.
 *
 * The static `$module_loggers` map becomes the `loggers` field of a `Registry`
 * object; the static methods that use it (`getLogger`, `logModule`) and the
 * instance methods that reach it (`getParentLogger`, `log`) are methods of the
 * registry. Handler invocations are recorded, in order, in `calls`.
 */
module Loggers {
  import opened Wrappers
  import opened Levels
  import opened LogContext
  import opened ModuleNames
  import opened Delivery

  /** The exceptions the logger throws. */
  datatype LogError =
    | DomainError(message: string)
    | RuntimeError(message: string)
    | InvalidArgument(message: string)

  class Logger {
    /** The normalised module name (`$module`). */
    const name: string
    /** The threshold (`$level`), one of the level names. */
    var level: string
    /** The attached handlers, in attachment order (`$handlers`). */
    var handlers: seq<HandlerValue>

    ghost predicate Valid()
      reads this
    {
      IsLevel(level) && forall i :: 0 <= i < |handlers| ==> IsHandler(handlers[i])
    }

    /** A new logger logs everything and has no handlers. */
    constructor (name: string)
      ensures this.name == name && level == Debug && handlers == [] && Valid()
    {
      this.name := name;
      level := Debug;
      handlers := [];
    }

    /** `setLevel`: an unknown name is refused and the threshold stays as it was. */
    method SetLevel(lvl: string) returns (r: Result<Logger, LogError>)
      requires Valid()
      modifies this`level
      ensures Valid()
      ensures IsLevel(lvl) ==> r == Success(this) && level == lvl
      ensures !IsLevel(lvl) ==> r == Failure(DomainError("Invalid log level: " + lvl)) && level == old(level)
    {
      if !IsLevel(lvl) {
        return Failure(DomainError("Invalid log level: " + lvl));
      }
      level := lvl;
      r := Success(this);
    }

    /** `getLogHandlers`. */
    function GetLogHandlers(): seq<HandlerValue>
      reads this
    {
      handlers
    }

    /** `addLogHandler`: a writer or a callable goes to the end of the list; anything else is refused. */
    method AddLogHandler(h: HandlerValue) returns (r: Result<Logger, LogError>)
      requires Valid()
      modifies this`handlers
      ensures Valid()
      ensures IsHandler(h) ==> r == Success(this) && GetLogHandlers() == old(GetLogHandlers()) + [h]
      ensures !IsHandler(h) ==>
                r == Failure(RuntimeError("Please provide a valid callback or object as LogHandler"))
                && GetLogHandlers() == old(GetLogHandlers())
    {
      if !IsHandler(h) {
        return Failure(RuntimeError("Please provide a valid callback or object as LogHandler"));
      }
      handlers := handlers + [h];
      r := Success(this);
    }

    /** `removeLogHandlers`. */
    method RemoveLogHandlers() returns (r: Logger)
      requires Valid()
      modifies this`handlers
      ensures Valid() && r == this && GetLogHandlers() == []
    {
      handlers := [];
      r := this;
    }
  }

  /** The level and handlers of every logger in `ls`. */
  ghost function ViewOf(ls: map<string, Logger>): View
    reads ls.Values
  {
    map m | m in ls :: NodeState(ls[m].level, ls[m].handlers)
  }

  /** `view` describes the loggers `ls`: registered names by their state, the rest as fresh nodes. */
  ghost predicate Mirrors(ls: map<string, Logger>, view: View)
    reads ls.Values
  {
    && (forall m :: m in ls ==> NodeAt(view, m) == NodeState(ls[m].level, ls[m].handlers))
    && (forall m :: m !in ls ==> NodeAt(view, m) == FreshNode)
  }

  /** The snapshot of the loggers describes them. */
  lemma MirrorsViewOf(ls: map<string, Logger>)
    ensures Mirrors(ls, ViewOf(ls))
  {
  }

  /**
   * `after` keeps every logger of `before` under its name, and every logger it
   * adds is a fresh one: level debug, no handlers.
   */
  ghost predicate AddsFresh(before: map<string, Logger>, after: map<string, Logger>)
    reads after.Values
  {
    && before.Keys <= after.Keys
    && (forall m :: m in before ==> after[m] == before[m])
    && (forall m :: m in after && m !in before ==> after[m].level == Debug && after[m].handlers == [])
  }

  /** Adding fresh loggers keeps a description of the tree accurate. */
  lemma AddsFreshMirrors(before: map<string, Logger>, after: map<string, Logger>, view: View)
    requires AddsFresh(before, after) && Mirrors(before, view)
    ensures Mirrors(after, view)
  {
  }

  /** Adding fresh loggers twice adds fresh loggers. */
  lemma AddsFreshTrans(a: map<string, Logger>, b: map<string, Logger>, c: map<string, Logger>)
    requires AddsFresh(a, b) && AddsFresh(b, c)
    ensures AddsFresh(a, c)
  {
  }

  /** Two descriptions of the same loggers agree on every node. */
  lemma SameNodesOfMirrors(v1: View, v2: View, ls: map<string, Logger>)
    requires Mirrors(ls, v1) && Mirrors(ls, v2)
    ensures SameNodes(v1, v2)
  {
    forall m ensures NodeAt(v1, m) == NodeAt(v2, m) {
      if m in ls { } else { }
    }
  }

  /** Adding fresh loggers does not change what a record delivers. */
  lemma DeliveredAfterGrowth(before: map<string, Logger>, after: map<string, Logger>, view: View,
                             m: string, level: string, message: string, ctx: Context)
    requires Mirrors(before, view) && AddsFresh(before, after)
    ensures Delivered(view, m, level, message, ctx) == Delivered(ViewOf(after), m, level, message, ctx)
  {
    AddsFreshMirrors(before, after, view);
    MirrorsViewOf(after);
    SameNodesOfMirrors(view, ViewOf(after), after);
    DeliveredFrame(view, ViewOf(after), m, level, message, ctx);
  }

  /** `implode('.', $tree)` after `array_pop($tree)` on `explode('.', m)`: the text before the last dot. */
  method PopSegment(m: string) returns (p: string)
    ensures p == m[..CutPoint(m, |m|)]
  {
    var tree := Explode(m);
    ImplodeBeforeCut(m);
    p := Implode(tree[..|tree| - 1]);
  }

  class Registry {
    /** `Logger::$module_loggers`. */
    var loggers: map<string, Logger>
    /** Every handler invocation so far, oldest first. */
    var calls: seq<Call>

    /** Each logger is filed under its own name, which is normalised. */
    ghost predicate Valid()
      reads this`loggers
    {
      forall m :: m in loggers ==> loggers[m].name == m && IsNormal(m)
    }

    ghost predicate Registered(l: Logger)
      reads this`loggers
    {
      l.name in loggers && loggers[l.name] == l
    }

    /** The level and handlers of every registered logger. */
    ghost function View(): View
      reads this`loggers, loggers.Values
    {
      ViewOf(loggers)
    }

    constructor ()
      ensures loggers == map[] && calls == [] && Valid()
    {
      loggers := map[];
      calls := [];
    }

    /**
     * `getLogger`: the logger filed under the normalised name, created with
     * level debug and no handlers the first time the name is asked for.
     */
    method GetLogger(moduleName: string) returns (l: Logger)
      requires Valid()
      modifies this`loggers
      ensures Valid() && Registered(l) && l.name == Normalize(moduleName) && AddsFresh(old(loggers), loggers)
      ensures Normalize(moduleName) in old(loggers) ==> loggers == old(loggers) && l == old(loggers)[Normalize(moduleName)]
      ensures Normalize(moduleName) !in old(loggers) ==> fresh(l) && loggers == old(loggers)[Normalize(moduleName) := l]
    {
      var key := Normalize(moduleName);
      NormalizeIsNormal(moduleName);
      if key !in loggers {
        var created := new Logger(key);
        loggers := loggers[key := created];
      }
      l := loggers[key];
    }

    /**
     * `getParentLogger`: nothing for the root; otherwise the logger of the name
     * without its last segment, created if need be.
     */
    method GetParentLogger(l: Logger) returns (p: Option<Logger>)
      requires Valid() && Registered(l)
      modifies this`loggers
      ensures Valid() && AddsFresh(old(loggers), loggers)
      ensures l.name == "" ==> p == None && loggers == old(loggers)
      ensures l.name != "" ==> p.Some? && Registered(p.value) && p.value.name == ParentName(l.name)
      ensures loggers.Keys <= old(loggers).Keys + {ParentName(l.name)}
    {
      if l.name == "" {
        return None;
      }
      var name := PopSegment(l.name);
      var parent := GetLogger(name);
      p := Some(parent);
    }

    /**
     * `log`: an unknown level is refused before any handler is called. Otherwise
     * the calls made are `Delivered` over the tree as it was, described by any
     * `view` that mirrors the registered loggers; the only loggers added are
     * fresh ancestors the record created on its way up.
     */
    method Log(l: Logger, level: string, message: string, context: Context, ghost view: View) returns (r: Outcome<LogError>)
      requires Valid() && Registered(l) && Mirrors(loggers, view)
      modifies this`loggers, this`calls
      ensures Valid() && AddsFresh(old(loggers), loggers)
      ensures !IsLevel(level) ==>
                r == Fail(InvalidArgument("Invalid log level: " + level)) && calls == old(calls) && loggers == old(loggers)
      ensures IsLevel(level) ==> r == Pass && calls == old(calls) + Delivered(view, l.name, level, message, context)
    {
      if !IsLevel(level) {
        return Fail(InvalidArgument("Invalid log level: " + level));
      }
      Bubble(l, level, message, context, view);
      r := Pass;
    }

    /**
     * The body of `log` once the level is known: the threshold test, the
     * stamps, the handlers, then the same on the parent. `view` is the tree
     * the record travels through.
     */
    method Bubble(l: Logger, level: string, message: string, context: Context, ghost view: View)
      requires Valid() && Registered(l) && Mirrors(loggers, view)
      modifies this`loggers, this`calls
      ensures Valid() && AddsFresh(old(loggers), loggers) && Mirrors(loggers, view)
      ensures calls == old(calls) + Delivered(view, l.name, level, message, context)
      decreases |l.name|
    {
      ghost var before := loggers;
      ghost var c0 := calls;
      ghost var hs := l.handlers;
      assert NodeAt(view, l.name) == NodeState(l.level, hs);
      if LevelNumeric(level) < LevelNumeric(l.level) {
        DeliveredRejected(view, l.name, level, message, context);
        assert calls == c0 + [];
        return;
      }
      assert Passes(view, l.name, level);
      var ctx := Stamp(context, l.name, level);
      Notify(l.handlers, level, message, ctx);
      ghost var c1 := calls;
      assert c1 == c0 + CallsTo(hs, level, message, ctx);
      var parent := GetParentLogger(l);
      AddsFreshMirrors(before, loggers, view);
      ghost var rest: seq<Call> := [];
      if parent.Some? {
        ghost var mid := loggers;
        Bubble(parent.value, level, message, ctx, view);
        AddsFreshTrans(before, mid, loggers);
        rest := Delivered(view, parent.value.name, level, message, ctx);
      }
      assert calls == c1 + rest;
      DeliveredAfter(view, l.name, hs, level, message, context, c0, c1, rest, calls);
    }

    /** The `foreach` over the handlers: each one is called once, in attachment order. */
    method Notify(hs: seq<HandlerValue>, level: string, message: string, ctx: Context)
      modifies this`calls
      ensures calls == old(calls) + CallsTo(hs, level, message, ctx)
    {
      for i := 0 to |hs|
        invariant calls == old(calls) + CallsTo(hs[..i], level, message, ctx)
      {
        assert hs[..i + 1][..i] == hs[..i];
        calls := calls + [Call(hs[i], level, message, ctx)];
      }
      assert hs[..|hs|] == hs;
    }

    /** `logModule`: the logger of the module (created if need be) logs the record. */
    method LogModule(level: string, moduleName: string, message: string, context: Context, ghost view: View)
      returns (r: Outcome<LogError>)
      requires Valid() && Mirrors(loggers, view)
      modifies this`loggers, this`calls
      ensures Valid() && AddsFresh(old(loggers), loggers)
      ensures !IsLevel(level) ==> r == Fail(InvalidArgument("Invalid log level: " + level)) && calls == old(calls)
      ensures IsLevel(level) ==>
                r == Pass && calls == old(calls) + Delivered(view, Normalize(moduleName), level, message, context)
    {
      ghost var before := loggers;
      var l := GetLogger(moduleName);
      AddsFreshMirrors(before, loggers, view);
      ghost var mid := loggers;
      r := Log(l, level, message, context, view);
      AddsFreshTrans(before, mid, loggers);
    }
  }
}
