/**
 * What `Logger::log` delivers, stated over a snapshot of the logger tree: each
 * module name is mapped to its threshold and its handler list. A record travels
 * from the origin towards the root; every node that admits its level calls its
 * handlers in attachment order and passes the record on, and the first node that
 * rejects the level stops it.
 */
module Delivery {
  import opened Wrappers
  import opened Levels
  import opened LogContext
  import opened ModuleNames

  /**
   * A value offered as a log handler: a writer object, a callable, or anything
   * else (which `addLogHandler` refuses). Handlers are told apart by an identity.
   */
  datatype HandlerValue = Writer(id: nat) | Callback(id: nat) | NotAHandler

  predicate IsHandler(h: HandlerValue)
  {
    h.Writer? || h.Callback?
  }

  /** One invocation of a handler: `write($level, $message, $context)` or the callback with those arguments. */
  datatype Call = Call(handler: HandlerValue, level: string, message: string, context: Context)

  /** The threshold and the handlers of one logger. */
  datatype NodeState = NodeState(level: string, handlers: seq<HandlerValue>)

  /** The logger tree: registered module names and their state. */
  type View = map<string, NodeState>

  /** A logger that has not been created yet behaves as a fresh one: level debug, no handlers. */
  const FreshNode: NodeState := NodeState(Debug, [])

  function NodeAt(view: View, m: string): NodeState
  {
    if m in view then view[m] else FreshNode
  }

  /** Two snapshots agree on the level and the handlers of every module. */
  ghost predicate SameNodes(v1: View, v2: View)
  {
    forall m :: NodeAt(v1, m) == NodeAt(v2, m)
  }

  /** The node `m` lets a record of `level` through (src/Logger.php:126). */
  predicate Passes(view: View, m: string, level: string)
  {
    LevelNumeric(level) >= LevelNumeric(NodeAt(view, m).level)
  }

  /** One call per handler, in attachment order, all with the same arguments. */
  function CallsTo(hs: seq<HandlerValue>, level: string, message: string, ctx: Context): (r: seq<Call>)
    ensures |r| == |hs|
    ensures forall i :: 0 <= i < |hs| ==> r[i] == Call(hs[i], level, message, ctx)
  {
    if hs == [] then [] else CallsTo(hs[..|hs| - 1], level, message, ctx) + [Call(hs[|hs| - 1], level, message, ctx)]
  }

  /** The calls `log($level, $message, $ctx)` makes on the logger of module `m` and, in turn, its ancestors. */
  function Delivered(view: View, m: string, level: string, message: string, ctx: Context): seq<Call>
    decreases |m|
  {
    if !Passes(view, m, level) then []
    else
      var stamped := Stamp(ctx, m, level);
      CallsTo(NodeAt(view, m).handlers, level, message, stamped)
        + (if m == "" then [] else Delivered(view, ParentName(m), level, message, stamped))
  }

  /** A node that admits the level calls its own handlers, then hands the stamped record to its parent. */
  lemma DeliveredAccepted(view: View, m: string, level: string, message: string, ctx: Context)
    requires Passes(view, m, level)
    ensures Delivered(view, m, level, message, ctx)
         == CallsTo(NodeAt(view, m).handlers, level, message, Stamp(ctx, m, level))
            + (if m == "" then [] else Delivered(view, ParentName(m), level, message, Stamp(ctx, m, level)))
  {
  }

  /** A node that rejects the level delivers nothing, not even to its ancestors. */
  lemma DeliveredRejected(view: View, m: string, level: string, message: string, ctx: Context)
    requires !Passes(view, m, level)
    ensures Delivered(view, m, level, message, ctx) == []
  {
  }

  /**
   * A trace extended first by the calls of an admitting node's handlers and
   * then by what its parent delivers has been extended by the node's delivery.
   */
  lemma DeliveredAfter(view: View, m: string, hs: seq<HandlerValue>, level: string, message: string, ctx: Context,
                       c0: seq<Call>, c1: seq<Call>, rest: seq<Call>, c2: seq<Call>)
    requires Passes(view, m, level) && NodeAt(view, m).handlers == hs
    requires c1 == c0 + CallsTo(hs, level, message, Stamp(ctx, m, level)) && c2 == c1 + rest
    requires m == "" ==> rest == []
    requires m != "" ==> rest == Delivered(view, ParentName(m), level, message, Stamp(ctx, m, level))
    ensures c2 == c0 + Delivered(view, m, level, message, ctx)
  {
    DeliveredAccepted(view, m, level, message, ctx);
    AppendAssoc(c0, CallsTo(hs, level, message, Stamp(ctx, m, level)), rest);
  }

  /** Delivery depends only on the levels and handlers of the nodes. */
  lemma {:induction false} DeliveredFrame(v1: View, v2: View, m: string, level: string, message: string, ctx: Context)
    requires SameNodes(v1, v2)
    ensures Delivered(v1, m, level, message, ctx) == Delivered(v2, m, level, message, ctx)
    decreases |m|
  {
    assert NodeAt(v1, m) == NodeAt(v2, m);
    if Passes(v1, m, level) && m != "" {
      DeliveredFrame(v1, v2, ParentName(m), level, message, Stamp(ctx, m, level));
    }
  }

  /** How many leading nodes of `chain` admit `level`. */
  function AcceptedPrefix(view: View, chain: seq<string>, level: string): (k: nat)
    ensures k <= |chain|
    ensures forall j :: 0 <= j < k ==> Passes(view, chain[j], level)
    ensures k < |chain| ==> !Passes(view, chain[k], level)
  {
    if chain == [] || !Passes(view, chain[0], level) then 0
    else
      var rest := AcceptedPrefix(view, chain[1..], level);
      assert forall j :: 1 <= j < rest + 1 ==> chain[j] == chain[1..][j - 1];
      1 + rest
  }

  /** Node `i` of the chain is reached exactly when it and every node before it admit the level. */
  lemma AcceptedPrefixIff(view: View, chain: seq<string>, level: string, i: nat)
    requires i < |chain|
    ensures i < AcceptedPrefix(view, chain, level) <==> forall j :: 0 <= j <= i ==> Passes(view, chain[j], level)
  {
  }

  /** A more severe level travels at least as far. */
  lemma {:induction false} AcceptedPrefixMonotone(view: View, chain: seq<string>, level: string, level': string)
    requires LevelNumeric(level) <= LevelNumeric(level')
    ensures AcceptedPrefix(view, chain, level) <= AcceptedPrefix(view, chain, level')
  {
    if chain != [] && Passes(view, chain[0], level) {
      AcceptedPrefixMonotone(view, chain[1..], level, level');
    }
  }

  /** The calls made by the handlers of the nodes `names`, visited in order. */
  function CallsAlong(view: View, names: seq<string>, level: string, message: string, ctx: Context): seq<Call>
  {
    if names == [] then []
    else CallsTo(NodeAt(view, names[0]).handlers, level, message, ctx) + CallsAlong(view, names[1..], level, message, ctx)
  }

  /** When the first node admits the level, the accepted prefix is that node and the prefix accepted after it. */
  lemma PrefixStep(view: View, chain: seq<string>, level: string)
    requires chain != [] && Passes(view, chain[0], level)
    ensures var k := AcceptedPrefix(view, chain, level);
      k == 1 + AcceptedPrefix(view, chain[1..], level) && chain[..k] == [chain[0]] + chain[1..][..k - 1]
  {
  }

  /**
   * Delivery is the handlers of the accepting prefix of the module's chain,
   * nearest node first, every call carrying the context stamped at the origin.
   */
  lemma {:induction false} DeliveredAlongChain(view: View, m: string, level: string, message: string, ctx: Context)
    ensures Delivered(view, m, level, message, ctx)
         == CallsAlong(view, Chain(m)[..AcceptedPrefix(view, Chain(m), level)], level, message, Stamp(ctx, m, level))
    decreases |m|
  {
    var chain := Chain(m);
    var k := AcceptedPrefix(view, chain, level);
    var stamped := Stamp(ctx, m, level);
    if !Passes(view, m, level) {
      assert chain[..k] == [];
    } else if m == "" {
      assert chain[..k] == [""];
    } else {
      var parent := ParentName(m);
      DeliveredAlongChain(view, parent, level, message, stamped);
      StampOnce(ctx, m, level, parent, level);
      assert chain[1..] == Chain(parent);
      PrefixStep(view, chain, level);
      var names := chain[..k];
      assert names[1..] == Chain(parent)[..k - 1];
    }
  }

  /** A call is among those made for the nodes `names` exactly when its handler belongs to one of them. */
  lemma {:induction false} CallsAlongMembership(view: View, names: seq<string>, level: string, message: string, ctx: Context, c: Call)
    ensures c in CallsAlong(view, names, level, message, ctx)
        <==> c.level == level && c.message == message && c.context == ctx
             && exists i :: 0 <= i < |names| && c.handler in NodeAt(view, names[i]).handlers
  {
    if names != [] {
      CallsAlongMembership(view, names[1..], level, message, ctx, c);
      var here := CallsTo(NodeAt(view, names[0]).handlers, level, message, ctx);
      assert c in here <==> c.level == level && c.message == message && c.context == ctx
                            && c.handler in NodeAt(view, names[0]).handlers by {
        if c in here {
          var j :| 0 <= j < |here| && here[j] == c;
          assert c.handler == NodeAt(view, names[0]).handlers[j];
        }
        if c.level == level && c.message == message && c.context == ctx && c.handler in NodeAt(view, names[0]).handlers {
          var j :| 0 <= j < |NodeAt(view, names[0]).handlers| && NodeAt(view, names[0]).handlers[j] == c.handler;
          assert here[j] == c;
        }
      }
      if exists i :: 0 <= i < |names| && c.handler in NodeAt(view, names[i]).handlers {
        var i :| 0 <= i < |names| && c.handler in NodeAt(view, names[i]).handlers;
        if i > 0 { assert names[1..][i - 1] == names[i]; }
      }
      if exists i :: 0 <= i < |names[1..]| && c.handler in NodeAt(view, names[1..][i]).handlers {
        var i :| 0 <= i < |names[1..]| && c.handler in NodeAt(view, names[1..][i]).handlers;
        assert names[i + 1] == names[1..][i];
      }
    }
  }

  /** A call is made for the accepted prefix of `chain` exactly when its handler sits on a node reached along it. */
  lemma AcceptedMembership(view: View, chain: seq<string>, level: string, message: string, ctx: Context, c: Call)
    ensures c in CallsAlong(view, chain[..AcceptedPrefix(view, chain, level)], level, message, ctx)
        <==> c.level == level && c.message == message && c.context == ctx
             && exists i :: 0 <= i < |chain| && c.handler in NodeAt(view, chain[i]).handlers
                         && forall j :: 0 <= j <= i ==> Passes(view, chain[j], level)
  {
    var k := AcceptedPrefix(view, chain, level);
    CallsAlongMembership(view, chain[..k], level, message, ctx, c);
    if exists i :: 0 <= i < k && c.handler in NodeAt(view, chain[..k][i]).handlers {
      var i :| 0 <= i < k && c.handler in NodeAt(view, chain[..k][i]).handlers;
      assert chain[..k][i] == chain[i];
      AcceptedPrefixIff(view, chain, level, i);
    }
    if exists i :: 0 <= i < |chain| && c.handler in NodeAt(view, chain[i]).handlers
                   && forall j :: 0 <= j <= i ==> Passes(view, chain[j], level) {
      var i :| 0 <= i < |chain| && c.handler in NodeAt(view, chain[i]).handlers
               && forall j :: 0 <= j <= i ==> Passes(view, chain[j], level);
      AcceptedPrefixIff(view, chain, level, i);
      assert chain[..k][i] == chain[i];
    }
  }

  /**
   * A handler receives the record exactly when it is attached to a node of the
   * module's chain which, with every node before it, admits the level; the call
   * then carries the level, the message and the origin's stamped context.
   */
  lemma DeliveryIff(view: View, m: string, level: string, message: string, ctx: Context, c: Call)
    ensures c in Delivered(view, m, level, message, ctx)
        <==> c.level == level && c.message == message && c.context == Stamp(ctx, m, level)
             && exists i :: 0 <= i < |Chain(m)| && c.handler in NodeAt(view, Chain(m)[i]).handlers
                         && forall j :: 0 <= j <= i ==> Passes(view, Chain(m)[j], level)
  {
    DeliveredAlongChain(view, m, level, message, ctx);
    AcceptedMembership(view, Chain(m), level, message, Stamp(ctx, m, level), c);
  }

  /** Every call, at every node, carries the origin module and level (unless the caller supplied them). */
  lemma DeliveredContexts(view: View, m: string, level: string, message: string, ctx: Context, i: nat)
    requires i < |Delivered(view, m, level, message, ctx)|
    ensures var c := Delivered(view, m, level, message, ctx)[i];
      c.level == level && c.message == message
      && Get(c.context, ModuleKey) == (if HasKey(ctx, ModuleKey) then Get(ctx, ModuleKey) else Some(m))
      && Get(c.context, LevelKey) == (if HasKey(ctx, LevelKey) then Get(ctx, LevelKey) else Some(level))
  {
    var c := Delivered(view, m, level, message, ctx)[i];
    DeliveryIff(view, m, level, message, ctx, c);
    StampOnce(ctx, m, level, m, level);
  }
}
