/**
 * The `$context` array that accompanies a log record. A PHP array keeps its
 * keys in insertion order and that order matters to placeholder filling, so the
 * context is an ordered list of key/value pairs; assigning a new key appends it.
 * Values are already rendered as strings.
 */
module LogContext {
  import opened Wrappers

  datatype Entry = Entry(key: string, value: string)

  type Context = seq<Entry>

  /** The key under which the originating module is stamped. */
  const ModuleKey: string := "_module"

  /** The key under which the originating level is stamped. */
  const LevelKey: string := "_level"

  /** `isset($context[key])` (values are never null here). */
  predicate HasKey(ctx: Context, key: string)
  {
    exists i :: 0 <= i < |ctx| && ctx[i].key == key
  }

  /** `$context[key]`: the value stored under `key`, or `None` when it is absent. */
  function Get(ctx: Context, key: string): (r: Option<string>)
    ensures r.Some? <==> HasKey(ctx, key)
    ensures r.Some? ==> exists i :: 0 <= i < |ctx| && ctx[i] == Entry(key, r.value)
  {
    GetFrom(ctx, key, 0)
  }

  /** The value under `key` in the entries from index `i` on, the earliest first. */
  function GetFrom(ctx: Context, key: string, i: nat): (r: Option<string>)
    requires i <= |ctx|
    ensures r.Some? <==> exists j :: i <= j < |ctx| && ctx[j].key == key
    ensures r.Some? ==> exists j :: i <= j < |ctx| && ctx[j] == Entry(key, r.value)
    decreases |ctx| - i
  {
    if i == |ctx| then None
    else if ctx[i].key == key then Some(ctx[i].value)
    else GetFrom(ctx, key, i + 1)
  }

  /** Entries appended after the scan position that finds `key` do not change what is found. */
  lemma {:induction false} GetFromPrefix(ctx: Context, more: Context, key: string, i: nat)
    requires i <= |ctx| && exists j :: i <= j < |ctx| && ctx[j].key == key
    ensures GetFrom(ctx + more, key, i) == GetFrom(ctx, key, i)
    decreases |ctx| - i
  {
    if ctx[i].key != key {
      var j :| i <= j < |ctx| && ctx[j].key == key;
      GetFromPrefix(ctx, more, key, i + 1);
    }
  }

  /** Once the scan has passed every entry of `ctx`, only `more` is searched. */
  lemma {:induction false} GetFromSuffix(ctx: Context, more: Context, key: string, i: nat)
    requires i <= |ctx| && forall j :: i <= j < |ctx| ==> ctx[j].key != key
    ensures GetFrom(ctx + more, key, i) == GetFrom(more, key, 0)
    decreases |ctx| - i
  {
    if i < |ctx| {
      GetFromSuffix(ctx, more, key, i + 1);
    } else {
      GetFromShift(ctx, more, key, 0);
    }
  }

  /** Scanning `ctx + more` from `|ctx| + k` is scanning `more` from `k`. */
  lemma {:induction false} GetFromShift(ctx: Context, more: Context, key: string, k: nat)
    requires k <= |more|
    ensures GetFrom(ctx + more, key, |ctx| + k) == GetFrom(more, key, k)
    decreases |more| - k
  {
    if k < |more| {
      GetFromShift(ctx, more, key, k + 1);
    }
  }

  lemma GetAppendAbsent(ctx: Context, key: string, value: string)
    requires !HasKey(ctx, key)
    ensures Get(ctx + [Entry(key, value)], key) == Some(value)
  {
    GetFromSuffix(ctx, [Entry(key, value)], key, 0);
  }

  /**
   * `if (!isset($context[key])) $context[key] = value;`: a present key keeps its
   * value; an absent one is appended at the end. Earlier entries never change.
   */
  function WithDefault(ctx: Context, key: string, value: string): (r: Context)
    ensures ctx <= r && HasKey(r, key)
    ensures Get(r, key) == if HasKey(ctx, key) then Get(ctx, key) else Some(value)
    ensures forall k :: k != key ==> (HasKey(r, k) <==> HasKey(ctx, k))
    ensures HasKey(ctx, key) ==> r == ctx
    ensures !HasKey(ctx, key) ==> r == ctx + [Entry(key, value)]
  {
    if HasKey(ctx, key) then ctx
    else
      GetAppendAbsent(ctx, key, value);
      assert (ctx + [Entry(key, value)])[|ctx|].key == key;
      ctx + [Entry(key, value)]
  }

  /** The stamps `log` adds: the originating module, then the originating level. */
  function Stamp(ctx: Context, origin: string, level: string): Context
  {
    WithDefault(WithDefault(ctx, ModuleKey, origin), LevelKey, level)
  }

  /**
   * The stamps are written once: a stamped context carries both keys, their
   * values are the caller's if the caller supplied them and the origin's
   * otherwise, and stamping it again (with any module and level) changes nothing.
   */
  lemma StampOnce(ctx: Context, origin: string, level: string, origin': string, level': string)
    ensures HasKey(Stamp(ctx, origin, level), ModuleKey) && HasKey(Stamp(ctx, origin, level), LevelKey)
    ensures Get(Stamp(ctx, origin, level), ModuleKey) == if HasKey(ctx, ModuleKey) then Get(ctx, ModuleKey) else Some(origin)
    ensures Get(Stamp(ctx, origin, level), LevelKey) == if HasKey(ctx, LevelKey) then Get(ctx, LevelKey) else Some(level)
    ensures ctx <= Stamp(ctx, origin, level)
    ensures Stamp(Stamp(ctx, origin, level), origin', level') == Stamp(ctx, origin, level)
  {
    assert ModuleKey != LevelKey by { assert ModuleKey[1] != LevelKey[1]; }
    var m := WithDefault(ctx, ModuleKey, origin);
    assert HasKey(m, ModuleKey);
    if HasKey(ctx, LevelKey) && !HasKey(ctx, ModuleKey) {
      GetPrefix(ctx, [Entry(ModuleKey, origin)], LevelKey);
    }
    var s := WithDefault(m, LevelKey, level);
    assert m <= s;
    assert HasKey(s, ModuleKey) by {
      var i :| 0 <= i < |m| && m[i].key == ModuleKey;
      assert s[i] == m[i];
    }
    assert Get(s, ModuleKey) == Get(m, ModuleKey) by {
      assert !HasKey(m, LevelKey) ==> s == m + [Entry(LevelKey, level)];
      if !HasKey(m, LevelKey) { GetPrefix(m, [Entry(LevelKey, level)], ModuleKey); }
    }
  }

  /** Looking a key up in an extended context finds the same entry as before. */
  lemma GetPrefix(ctx: Context, more: Context, key: string)
    requires HasKey(ctx, key)
    ensures Get(ctx + more, key) == Get(ctx, key)
  {
    GetFromPrefix(ctx, more, key, 0);
  }
}
