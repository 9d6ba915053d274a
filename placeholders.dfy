/**
 * `Logger::fillPlaceholders`: for each context key in order, every `{key}` in
 * the message is replaced by the key's value. The source restarts `strpos` at
 * offset 0 after each replacement, so text produced by one replacement is
 * scanned again.
 */
module Placeholders {
  import opened Wrappers
  import opened Text
  import opened LogContext
  import PlaceholderLiterals

  /** `'{' . $key . '}'`. */
  function Placeholder(key: string): string
  {
    "{" + key + "}"
  }

  /**
   * The rewriting of one key is guaranteed to stop: the value is shorter than
   * the search text, or holds fewer `{` than it. (The source loops for ever
   * when the value contains the search text itself.)
   */
  predicate Shrinking(search: string, value: string)
  {
    |value| < |search| || CountChar(value, '{') < CountChar(search, '{')
  }

  /** Every value of the context can be filled in without looping. */
  predicate Fillable(ctx: Context)
  {
    forall i :: 0 <= i < |ctx| ==> Shrinking(Placeholder(ctx[i].key), ctx[i].value)
  }

  /** What one replacement decreases. */
  function Measure(s: string, search: string, value: string): nat
  {
    if |value| < |search| then |s| else CountChar(s, '{')
  }

  /** Replacing the occurrence at `pos` decreases the measure. */
  lemma MeasureDrops(s: string, search: string, value: string, pos: nat)
    requires Shrinking(search, value) && OccursAt(s, search, pos)
    ensures Measure(s[..pos] + value + s[pos + |search|..], search, value) < Measure(s, search, value)
  {
    var pre, post := s[..pos], s[pos + |search|..];
    assert s == pre + search + post;
    CountCharConcat(pre, search, '{');
    CountCharConcat(pre + search, post, '{');
    CountCharConcat(pre, value, '{');
    CountCharConcat(pre + value, post, '{');
  }

  /**
   * The inner `while` loop of the source, for one search text: replace the
   * first occurrence and search again from the start, until none is left.
   */
  function ReplaceAll(s: string, search: string, value: string): (r: string)
    requires Shrinking(search, value)
    ensures !Contains(r, search)
    decreases Measure(s, search, value)
  {
    match IndexOf(s, search)
    case None => s
    case Some(pos) =>
      MeasureDrops(s, search, value, pos);
      ReplaceAll(s[..pos] + value + s[pos + |search|..], search, value)
  }

  /** The message after the first `n` keys of `context` have been filled in, in order. */
  function FilledUpTo(message: string, context: Context, n: nat): string
    requires Fillable(context) && n <= |context|
    decreases n
  {
    if n == 0 then message
    else ReplaceAll(FilledUpTo(message, context, n - 1), Placeholder(context[n - 1].key), context[n - 1].value)
  }

  /** The result of filling the placeholders of `context`, key by key, in order. */
  function Filled(message: string, context: Context): string
    requires Fillable(context)
  {
    FilledUpTo(message, context, |context|)
  }

  /** `Logger::fillPlaceholders`: its `foreach` over the keys; the `while` for one key is `ReplaceEach`. */
  method FillPlaceholders(message: string, context: Context) returns (result: string)
    requires Fillable(context)
    ensures result == Filled(message, context)
  {
    result := message;
    for j := 0 to |context|
      invariant result == FilledUpTo(message, context, j)
    {
      result := ReplaceEach(result, Placeholder(context[j].key), context[j].value);
    }
  }

  /** The `while` loop of one key: replace the first occurrence until none is left. */
  method ReplaceEach(s: string, placeholder: string, value: string) returns (result: string)
    requires Shrinking(placeholder, value)
    ensures result == ReplaceAll(s, placeholder, value)
  {
    result := s;
    var pos := IndexOf(result, placeholder);
    while pos.Some?
      invariant pos == IndexOf(result, placeholder)
      invariant ReplaceAll(result, placeholder, value) == ReplaceAll(s, placeholder, value)
      decreases Measure(result, placeholder, value)
    {
      result := ReplaceAt(result, placeholder, value, pos.value);
      pos := IndexOf(result, placeholder);
    }
  }

  /**
   * One turn of the `while` loop: the text before `pos`, the value, then the text after
   * the placeholder.  The measure drops, and what is left to do is unchanged.
   */
  function ReplaceAt(s: string, search: string, value: string, pos: nat): (next: string)
    requires Shrinking(search, value) && IndexOf(s, search) == Some(pos)
    ensures Measure(next, search, value) < Measure(s, search, value)
    ensures ReplaceAll(next, search, value) == ReplaceAll(s, search, value)
  {
    MeasureDrops(s, search, value, pos);
    s[..pos] + value + s[pos + |search|..]
  }

  /** One key leaves the text unchanged exactly when its search text does not occur in it. */
  lemma ReplaceAllIdentity(s: string, search: string, value: string)
    requires Shrinking(search, value)
    ensures ReplaceAll(s, search, value) == s <==> !Contains(s, search)
  {
  }

  /**
   * A message in which no placeholder of the context occurs comes back as it is:
   * unmatched `{...}` text stays verbatim.
   */
  lemma FilledWithoutPlaceholders(message: string, context: Context)
    requires Fillable(context)
    requires forall i :: 0 <= i < |context| ==> !Contains(message, Placeholder(context[i].key))
    ensures Filled(message, context) == message
  {
    FilledUpToWithoutPlaceholders(message, context, |context|);
  }

  lemma {:induction false} FilledUpToWithoutPlaceholders(message: string, context: Context, n: nat)
    requires Fillable(context) && n <= |context|
    requires forall i :: 0 <= i < |context| ==> !Contains(message, Placeholder(context[i].key))
    ensures FilledUpTo(message, context, n) == message
    decreases n
  {
    if n > 0 {
      FilledUpToWithoutPlaceholders(message, context, n - 1);
      ReplaceAllIdentity(message, Placeholder(context[n - 1].key), context[n - 1].value);
    }
  }

  /** With no context, the message is returned unchanged. */
  lemma FilledEmptyContext(message: string)
    ensures Filled(message, []) == message
  {
  }

  /** A message with no `{` is returned unchanged, whatever the context. */
  lemma FilledWithoutBrace(message: string, context: Context)
    requires Fillable(context) && '{' !in message
    ensures Filled(message, context) == message
  {
    forall i | 0 <= i < |context| ensures !Contains(message, Placeholder(context[i].key)) {
      NoOccurrenceOf(message, Placeholder(context[i].key), 0);
    }
    FilledWithoutPlaceholders(message, context);
  }

  /** After filling, the placeholder of the last key processed no longer occurs. */
  lemma FilledLastKeyGone(message: string, context: Context)
    requires Fillable(context) && context != []
    ensures !Contains(Filled(message, context), Placeholder(context[|context| - 1].key))
  {
  }

  /**
   * A value that contains its own placeholder makes the source loop for ever:
   * the message `{key}` is rewritten to itself and still contains `{key}`.
   */
  lemma SelfContainingValueLoops(key: string)
    ensures var p := Placeholder(key);
      IndexOf(p, p) == Some(0) && p[..0] + p + p[|p|..] == p
  {
  }

  /** `n` copies of `c`. */
  function Repeat(c: char, n: nat): (r: string)
    ensures |r| == n && forall i :: 0 <= i < n ==> r[i] == c
  {
    seq(n, _ => c)
  }

  /**
   * A value need not contain its placeholder to make the source loop for ever.
   * With key "" (placeholder `{}`) and value `}}{{`, which holds no `{}`, two
   * turns of the `while` loop take `}`^k `{{}` `{`^m to `}`^(k+2) `{{}` `{`^(m+2),
   * which again contains `{}`; the message "{{}" (k = m = 0) never finishes.
   * The value is not `Shrinking`.
   */
  lemma {:induction false} GrowingValueLoops(k: nat, m: nat)
    ensures !Contains("}}{{", Placeholder("")) && !Shrinking(Placeholder(""), "}}{{")
    ensures var p, v, s := Placeholder(""), "}}{{", Repeat('}', k) + "{{}" + Repeat('{', m);
      && IndexOf(s, p) == Some(k + 1)
      && var s1 := s[..k + 1] + v + s[k + 3..];
         && IndexOf(s1, p) == Some(k)
         && s1[..k] + v + s1[k + 2..] == Repeat('}', k + 2) + "{{}" + Repeat('{', m + 2)
  {
    assert Placeholder("") == "{}";
    GrowingValue();
    FirstTurn(k, m);
    SecondTurn(k, m);
  }

  /** `}}{{` holds no `{}`, yet is longer than it and holds more `{`. */
  lemma GrowingValue()
    ensures !Contains("}}{{", "{}") && !Shrinking("{}", "}}{{")
  {
    var p, v := "{}", "}}{{";
    forall j ensures !OccursAt(v, p, j) {
      if 0 <= j && j + 2 <= |v| {
        var w := v[j..j + 2];
        assert v[0] == '}' && v[1] == '}' && v[2] == '{' && v[3] == '{';
        if j < 2 { assert w[0] == v[j] == '}'; } else { assert w[1] == v[j + 1] == '{'; }
        assert w != p;
      }
    }
    assert CountChar(v, '{') == 2 && CountChar(p, '{') == 1;
  }

  /** The first turn finds `{}` right after the closing braces. */
  lemma FirstTurn(k: nat, m: nat)
    ensures var s := Repeat('}', k) + "{{}" + Repeat('{', m);
      IndexOf(s, "{}") == Some(k + 1) && s[..k + 1] + "}}{{" + s[k + 3..] == Repeat('}', k) + "{}}{{" + Repeat('{', m)
  {
    var p, closes, opens := "{}", Repeat('}', k), Repeat('{', m);
    var s := closes + "{{}" + opens;
    forall j | 0 <= j < k + 1 ensures !OccursAt(s, p, j) {
      if j + 2 <= |s| {
        var w := s[j..j + 2];
        if j < k { assert w[0] == s[j] == '}'; } else { assert w[1] == s[k + 1] == '{'; }
        assert w != p;
      }
    }
    assert s[k + 1..k + 3] == p;
    IndexOfAt(s, p, k + 1);
    assert s[..k + 1] == closes + "{" && s[k + 3..] == opens;
  }

  /** The second turn finds `{}` at the end of the closing braces and leaves two more of each. */
  lemma SecondTurn(k: nat, m: nat)
    ensures var s := Repeat('}', k) + "{}}{{" + Repeat('{', m);
      IndexOf(s, "{}") == Some(k) && s[..k] + "}}{{" + s[k + 2..] == Repeat('}', k + 2) + "{{}" + Repeat('{', m + 2)
  {
    var p, closes, opens := "{}", Repeat('}', k), Repeat('{', m);
    var s := closes + "{}}{{" + opens;
    forall j | 0 <= j < k ensures !OccursAt(s, p, j) {
      if j + 2 <= |s| {
        assert s[j..j + 2][0] == s[j] == '}';
      }
    }
    assert s[k..k + 2] == p;
    IndexOfAt(s, p, k);
    assert s[..k] == closes && s[k + 2..] == "}{{" + opens;
    var r := s[..k] + "}}{{" + s[k + 2..];
    assert r == closes + "}}{{}{{" + opens;
    var big := Repeat('}', k + 2) + "{{}" + Repeat('{', m + 2);
    assert |r| == |big|;
    forall i | 0 <= i < |r| ensures r[i] == big[i] {
      if i < k + 2 { assert r[i] == '}'; }
      else if i < k + 5 { }
      else { assert r[i] == '{'; }
    }
  }

  /**
   * A key whose placeholder first occurs at `pos`, and whose replacement there
   * leaves no occurrence: the result is the message with that occurrence replaced.
   */
  lemma ReplaceAllSingle(s: string, search: string, value: string, pos: nat)
    requires Shrinking(search, value) && OccursAt(s, search, pos)
    requires forall j :: 0 <= j < pos ==> !OccursAt(s, search, j)
    requires !Contains(s[..pos] + value + s[pos + |search|..], search)
    ensures ReplaceAll(s, search, value) == s[..pos] + value + s[pos + |search|..]
  {
    IndexOfAt(s, search, pos);
  }

  /**
   * A value that is not empty and shares no character with its search text: an
   * inserted copy can neither hold an occurrence nor complete one with the text
   * around it.
   */
  predicate Inert(search: string, value: string)
  {
    value != [] && forall c :: c in value ==> c !in search
  }

  /** Text before `pos` followed by an inert value holds no occurrence when `pos` is the first one. */
  lemma SpliceGuard(s: string, search: string, value: string, pos: nat)
    requires search != [] && Inert(search, value) && IndexOf(s, search) == Some(pos)
    ensures !Contains(s[..pos] + value, search)
  {
    var pre := s[..pos] + value;
    forall k | 0 <= k && k + |search| <= |pre| ensures !OccursAt(pre, search, k) {
      if k + |search| <= pos {
        assert !OccursAt(s, search, k);
        WindowBefore(s, value, search, pos, k);
      } else {
        WindowInValue(s[..pos], value, search, k);
      }
    }
  }

  /** A window that ends before `pos` sees the same text before and after the splice. */
  lemma WindowBefore(s: string, value: string, search: string, pos: nat, k: nat)
    requires k + |search| <= pos <= |s|
    ensures OccursAt(s[..pos] + value, search, k) <==> OccursAt(s, search, k)
  {
    var pre := s[..pos] + value;
    var w, x := pre[k..k + |search|], s[k..k + |search|];
    forall j | 0 <= j < |search| ensures w[j] == x[j] {
      assert pre[k + j] == s[k + j];
    }
    assert w == x;
  }

  /** A window that ends inside an inert value ends with a character the search text lacks. */
  lemma WindowInValue(a: string, value: string, search: string, k: nat)
    requires search != [] && |a| < k + |search| <= |a| + |value|
    requires forall c :: c in value ==> c !in search
    ensures !OccursAt(a + value, search, k)
  {
    var e := k + |search| - 1;
    var c := value[e - |a|];
    assert c in value && (a + value)[e] == c;
    assert (a + value)[k..k + |search|][|search| - 1] == c;
    assert search[|search| - 1] in search;
  }

  /**
   * The loop never looks back into a non-empty prefix that holds no occurrence
   * and ends with a character outside the search text.
   */
  lemma {:induction false} ReplaceAllAfter(pre: string, t: string, search: string, value: string)
    requires Shrinking(search, value)
    requires pre != [] && pre[|pre| - 1] !in search && !Contains(pre, search)
    ensures ReplaceAll(pre + t, search, value) == pre + ReplaceAll(t, search, value)
    decreases Measure(t, search, value)
  {
    match IndexOf(t, search)
    case None =>
      GuardedNone(pre, t, search);
      assert ReplaceAll(t, search, value) == t;
      assert ReplaceAll(pre + t, search, value) == pre + t;
    case Some(i) =>
      var next := t[..i] + value + t[i + |search|..];
      ReplaceAllTurn(t, search, value, i);
      ShiftTurn(pre, t, search, value, i);
      ReplaceAllAfter(pre, next, search, value);
  }

  /** One turn of the loop behind a guarded prefix is the same turn on the text after it. */
  lemma ShiftTurn(pre: string, t: string, search: string, value: string, i: nat)
    requires Shrinking(search, value) && IndexOf(t, search) == Some(i)
    requires pre != [] && pre[|pre| - 1] !in search && !Contains(pre, search)
    ensures ReplaceAll(pre + t, search, value) == ReplaceAll(pre + (t[..i] + value + t[i + |search|..]), search, value)
  {
    GuardedSome(pre, t, search, i);
    TurnBehind(pre, t, search, value, i);
  }

  /** A turn at `|pre| + i` replaces the occurrence at `i` of the text after `pre`. */
  lemma TurnBehind(pre: string, t: string, search: string, value: string, i: nat)
    requires Shrinking(search, value) && i + |search| <= |t|
    requires IndexOf(pre + t, search) == Some(|pre| + i)
    ensures ReplaceAll(pre + t, search, value) == ReplaceAll(pre + (t[..i] + value + t[i + |search|..]), search, value)
  {
    SpliceBehind(pre, t, value, i, |search|);
    ReplaceAllTurnTo(pre + t, pre + (t[..i] + value + t[i + |search|..]), search, value, |pre| + i);
  }

  /** One turn of the loop, for a text given as what the turn leaves. */
  lemma ReplaceAllTurnTo(s: string, next: string, search: string, value: string, pos: nat)
    requires Shrinking(search, value) && IndexOf(s, search) == Some(pos)
    requires s[..pos] + value + s[pos + |search|..] == next
    ensures ReplaceAll(s, search, value) == ReplaceAll(next, search, value)
  {
    ReplaceAllTurn(s, search, value, pos);
  }

  /** One turn of the loop, as a fact about the texts on either side of it. */
  lemma ReplaceAllTurn(s: string, search: string, value: string, pos: nat)
    requires Shrinking(search, value) && IndexOf(s, search) == Some(pos)
    ensures Measure(s[..pos] + value + s[pos + |search|..], search, value) < Measure(s, search, value)
    ensures ReplaceAll(s[..pos] + value + s[pos + |search|..], search, value) == ReplaceAll(s, search, value)
  {
    var next := ReplaceAt(s, search, value, pos);
  }

  /** Behind such a prefix, `strpos` finds nothing where it finds nothing in the rest… */
  lemma GuardedNone(pre: string, t: string, search: string)
    requires pre != [] && pre[|pre| - 1] !in search && !Contains(pre, search)
    requires IndexOf(t, search).None?
    ensures IndexOf(pre + t, search).None?
  {
    NoStraddle(pre, t, search);
    IndexShiftNone(pre, t, search);
  }

  /** … and otherwise what it finds in the rest, shifted. */
  lemma GuardedSome(pre: string, t: string, search: string, i: nat)
    requires pre != [] && pre[|pre| - 1] !in search && !Contains(pre, search)
    requires IndexOf(t, search) == Some(i)
    ensures IndexOf(pre + t, search) == Some(|pre| + i)
  {
    NoStraddle(pre, t, search);
    IndexShiftSome(pre, t, search, i);
  }

  /**
   * For an inert value the rescanning loop gives what one `str_replace` scan
   * gives: every occurrence becomes the value and all other text stays.
   */
  lemma {:induction false} ReplaceAllIsStrReplace(s: string, search: string, value: string)
    requires search != [] && Shrinking(search, value) && Inert(search, value)
    ensures ReplaceAll(s, search, value) == StrReplace(s, search, value)
    decreases |s|
  {
    match IndexOf(s, search)
    case None =>
      StrReplaceAbsent(s, search, value);
    case Some(pos) =>
      var pre, rest := s[..pos] + value, s[pos + |search|..];
      assert ReplaceAt(s, search, value, pos) == pre + rest;
      SpliceGuard(s, search, value, pos);
      assert pre[|pre| - 1] == value[|value| - 1] && value[|value| - 1] in value;
      ReplaceAllAfter(pre, rest, search, value);
      ReplaceAllIsStrReplace(rest, search, value);
      StrReplaceAtPos(s, search, value, pos);
  }

  /** `str_replace` copies the text before the first occurrence, inserts the value and scans on after it. */
  lemma StrReplaceAtPos(s: string, search: string, value: string, pos: nat)
    requires search != [] && IndexOf(s, search) == Some(pos)
    ensures StrReplace(s, search, value) == s[..pos] + value + StrReplace(s[pos + |search|..], search, value)
  {
    var pre, rest := s[..pos], s[pos + |search|..];
    var tail := search + rest;
    SplitAround(s, search, pos);
    forall j | 0 <= j < |pre| ensures !OccursAt(pre + tail, search, j) {
      assert !OccursAt(s, search, j);
    }
    StrReplaceSkip(pre, tail, search, value);
    StrReplaceAtFront(rest, search, value);
    AppendAssoc(pre, value, StrReplace(rest, search, value));
  }

  /** The single-scan reference: one `str_replace` per key, in context order. */
  function StrReplacedUpTo(message: string, context: Context, n: nat): string
    requires n <= |context|
    decreases n
  {
    if n == 0 then message
    else StrReplace(StrReplacedUpTo(message, context, n - 1), Placeholder(context[n - 1].key), context[n - 1].value)
  }

  /** Every value of the context is inert for its own placeholder. */
  predicate InertContext(context: Context)
  {
    forall i :: 0 <= i < |context| ==> Inert(Placeholder(context[i].key), context[i].value)
  }

  /** An inert value holds no `{`, so it is shorter in braces than its placeholder. */
  lemma InertShrinking(key: string, value: string)
    requires Inert(Placeholder(key), value)
    ensures Shrinking(Placeholder(key), value)
  {
    assert '{' in Placeholder(key) by { assert Placeholder(key)[0] == '{'; }
    CountCharZero(value, '{');
  }

  lemma InertFillable(context: Context)
    requires InertContext(context)
    ensures Fillable(context)
  {
    forall i | 0 <= i < |context| ensures Shrinking(Placeholder(context[i].key), context[i].value) {
      InertShrinking(context[i].key, context[i].value);
    }
  }

  /**
   * With inert values, filling the placeholders is one `str_replace` per key:
   * every `{key}` of the message becomes its value and all other text, an
   * unmatched placeholder included, stays as it is.
   */
  lemma FilledIsStrReplaced(message: string, context: Context)
    requires InertContext(context)
    ensures Fillable(context) && Filled(message, context) == StrReplacedUpTo(message, context, |context|)
  {
    InertFillable(context);
    FilledUpToIsStrReplaced(message, context, |context|);
  }

  lemma {:induction false} FilledUpToIsStrReplaced(message: string, context: Context, n: nat)
    requires InertContext(context) && Fillable(context) && n <= |context|
    ensures FilledUpTo(message, context, n) == StrReplacedUpTo(message, context, n)
    decreases n
  {
    if n > 0 {
      FilledUpToIsStrReplaced(message, context, n - 1);
      ReplaceAllIsStrReplace(FilledUpTo(message, context, n - 1), Placeholder(context[n - 1].key), context[n - 1].value);
    }
  }

  /**
   * Without `Inert` the rescanning loop and `str_replace` part: with key `ab`
   * and value `a`, the message `{{ab}b}` becomes `{ab}` after one replacement,
   * which the loop replaces again, while one `str_replace` pass stops there.
   */
  lemma RescanDiffersFromStrReplace()
    ensures Shrinking(Placeholder("ab"), "a") && !Inert(Placeholder("ab"), "a")
    ensures ReplaceAll("{{ab}b}", Placeholder("ab"), "a") == "a"
    ensures StrReplace("{{ab}b}", Placeholder("ab"), "a") == "{ab}"
  {
    assert Placeholder("ab") == "{ab}" && 'a' in "a";
    RescanTwice("{{ab}b}", "{ab}");
    ScanOnce("{{ab}b}", "{ab}");
  }

  lemma RescanTwice(s: string, p: string)
    requires s == "{{ab}b}" && p == "{ab}"
    ensures ReplaceAll(s, p, "a") == "a"
  {
    var s1 := "{ab}";
    assert s[1..5] == p && s[..2] == "{{" && s[..1] + "a" + s[5..] == s1;
    FirstOccurrence(s, p, 1);
    ReplaceAllTurn(s, p, "a", 1);
    assert s1[0..4] == p && s1[..0] + "a" + s1[4..] == "a";
    NoOccurrenceOf("a", p, 0);
    ReplaceAllSingle(s1, p, "a", 0);
  }

  lemma ScanOnce(s: string, p: string)
    requires s == "{{ab}b}" && p == "{ab}"
    ensures StrReplace(s, p, "a") == "{ab}"
  {
    var rest := s[1..];
    assert s[..4] != p && rest[..4] == p && rest[4..] == "b}";
    assert StrReplace(rest, p, "a") == "a" + StrReplace("b}", p, "a");
  }

  /**
   * The same, with the first occurrence recognised by the second character of
   * the search text, which appears nowhere before it.
   */
  lemma ReplaceAllSingleBySecond(s: string, search: string, value: string, pos: nat)
    requires Shrinking(search, value) && |search| >= 2 && OccursAt(s, search, pos)
    requires search[1] !in s[..pos + 1]
    requires !Contains(s[..pos] + value + s[pos + |search|..], search)
    ensures ReplaceAll(s, search, value) == s[..pos] + value + s[pos + |search|..]
  {
    FirstOccurrence(s, search, pos);
    ReplaceAllSingle(s, search, value, pos);
  }

  /** `format("Test {fmt} {bar}", ['fmt' => 3])` gives "Test 3 {bar}": the unmatched `{bar}` stays. */
  lemma FilledUnmatchedKeptVerbatim(message: string, context: Context)
    requires message == "Test {fmt} {bar}" && context == [Entry("fmt", "3")]
    ensures Filled(message, context) == "Test 3 {bar}"
  {
    var p := Placeholder("fmt");
    assert p == "{fmt}";
    PlaceholderLiterals.TestFmtFacts();
    NoOccurrence("Test 3 {bar}", p);
    ReplaceAllSingleBySecond(message, p, "3", 5);
  }

  /**
   * The context-replacement test: `{nothing}` has no key and stays, `{user}` and
   * `{foo.bar}` are filled, and the unbalanced outer braces are kept verbatim.
   */
  lemma FilledContextReplacement(message: string, context: Context)
    requires message == "{Message {nothing} {user} {foo.bar} a}"
    requires context == [Entry("user", "Bob"), Entry("foo.bar", "Bar")]
    ensures Filled(message, context) == "{Message {nothing} Bob Bar a}"
  {
    var first := FilledUpTo(message, context, 1);
    assert first == ReplaceAll(message, Placeholder("user"), "Bob");
    UserStep(message);
    FooBarStep(first);
  }

  lemma UserStep(s: string)
    requires s == "{Message {nothing} {user} {foo.bar} a}"
    ensures ReplaceAll(s, Placeholder("user"), "Bob") == "{Message {nothing} Bob {foo.bar} a}"
  {
    var p := Placeholder("user");
    assert p == "{user}";
    PlaceholderLiterals.UserFacts();
    NoOccurrence("{Message {nothing} Bob {foo.bar} a}", p);
    ReplaceAllSingleBySecond(s, p, "Bob", 19);
  }

  lemma FooBarStep(s: string)
    requires s == "{Message {nothing} Bob {foo.bar} a}"
    ensures ReplaceAll(s, Placeholder("foo.bar"), "Bar") == "{Message {nothing} Bob Bar a}"
  {
    var p := Placeholder("foo.bar");
    assert p == "{foo.bar}";
    PlaceholderLiterals.FooBarFacts();
    NoOccurrence("{Message {nothing} Bob Bar a}", p);
    ReplaceAllSingleBySecond(s, p, "Bar", 23);
  }

  /**
   * The formatter's placeholder test: `{bar}` is filled from the context, and
   * the `_module` entry after it has no placeholder in the message.
   */
  lemma FilledFormatterMessage(message: string, context: Context)
    requires message == "Foo {bar}" && context == [Entry("bar", "baz"), Entry(ModuleKey, "PFTest")]
    ensures Filled(message, context) == "Foo baz"
  {
    var first := FilledUpTo(message, context, 1);
    assert first == ReplaceAll(message, Placeholder("bar"), "baz");
    BarStep(message);
    ModuleStepAbsent("Foo baz");
  }

  lemma BarStep(s: string)
    requires s == "Foo {bar}"
    ensures ReplaceAll(s, Placeholder("bar"), "baz") == "Foo baz"
  {
    var p := Placeholder("bar");
    assert p == "{bar}";
    PlaceholderLiterals.BarFacts();
    NoOccurrenceOf("Foo baz", p, 0);
    ReplaceAllSingleBySecond(s, p, "baz", 4);
  }

  lemma ModuleStepAbsent(s: string)
    requires s == "Foo baz"
    ensures ReplaceAll(s, Placeholder(ModuleKey), "PFTest") == s
  {
    var q := Placeholder(ModuleKey);
    assert q[1] == '_';
    PlaceholderLiterals.BarFacts();
    NoOccurrence(s, q);
    ReplaceAllIdentity(s, q, "PFTest");
  }
}
