/**
 * `PatternFormatter`: a template in which `%MODULE%`, `%LEVEL%`, `%MESSAGE%`
 * and `%DATE%` stand for the fields of a log record. The source hands PHP's
 * `str_replace` arrays of search and replacement strings, which makes one full
 * pass per field, in the order of the array, each over the previous pass's
 * output.
 */
module Formatting {
  import opened Wrappers
  import opened Text
  import opened LogContext
  import opened Placeholders
  import Levels

  /** A formatter: its template and the `date()` format used for `%DATE%`. */
  datatype PatternFormatter = PatternFormatter(format: string, dateFormat: string)

  /** `DateTime::ATOM`, the default date format. */
  const Atom: string := "Y-m-d\\TH:i:sP"

  /** `new PatternFormatter($format, $dateformat = DateTime::ATOM)`. */
  function NewPatternFormatter(format: string, dateFormat: Option<string>): (f: PatternFormatter)
    ensures f.format == format
    ensures f.dateFormat == if dateFormat.Some? then dateFormat.value else Atom
  {
    PatternFormatter(format, match dateFormat case Some(d) => d case None => Atom)
  }

  datatype Field = ModuleField | LevelField | MessageField | DateField

  function Name(t: Field): string
  {
    match t
    case ModuleField => "MODULE"
    case LevelField => "LEVEL"
    case MessageField => "MESSAGE"
    case DateField => "DATE"
  }

  /** The text that stands for a field in a template. */
  function Token(t: Field): string
  {
    "%" + Name(t) + "%"
  }

  /** The order of the source's search array. */
  const Order: seq<Field> := [ModuleField, LevelField, MessageField, DateField]

  /** The replacement text of each field for one record. */
  datatype Fields = Fields(origin: string, level: string, message: string, date: string)

  function ValueOf(v: Fields, t: Field): string
  {
    match t
    case ModuleField => v.origin
    case LevelField => v.level
    case MessageField => v.message
    case DateField => v.date
  }

  /**
   * `str_replace` with arrays: for each field of `order` in turn, every
   * occurrence of its token in the current text is replaced.
   */
  function ReplaceFields(s: string, order: seq<Field>, v: Fields): string
    decreases |order|
  {
    if order == [] then s
    else ReplaceFields(StrReplace(s, Token(order[0]), ValueOf(v, order[0])), order[1..], v)
  }

  /** `$context['_module'] ?? ""`. */
  function ModuleOf(ctx: Context): (r: string)
    ensures HasKey(ctx, ModuleKey) ==> Get(ctx, ModuleKey) == Some(r)
    ensures !HasKey(ctx, ModuleKey) ==> r == ""
  {
    match Get(ctx, ModuleKey)
    case Some(m) => m
    case None => ""
  }

  /**
   * The fields of one record. `date` renders the current time in a `date()`
   * format; the clock is not part of the model.
   */
  function FieldsOf(f: PatternFormatter, level: string, message: string, ctx: Context, date: string -> string): Fields
    requires Fillable(ctx)
  {
    Fields(ModuleOf(ctx), ToUpper(level), Filled(message, ctx), date(f.dateFormat))
  }

  /** `PatternFormatter::format`. */
  function Format(f: PatternFormatter, level: string, message: string, ctx: Context, date: string -> string): string
    requires Fillable(ctx)
  {
    ReplaceFields(f.format, Order, FieldsOf(f, level, message, ctx, date))
  }

  /** A template without `%` is returned unchanged, whatever the fields. */
  lemma {:induction false} ReplaceFieldsWithoutPercent(s: string, order: seq<Field>, v: Fields)
    requires '%' !in s
    ensures ReplaceFields(s, order, v) == s
    decreases |order|
  {
    if order != [] {
      assert Token(order[0])[0] == '%';
      StrReplaceWithoutLead(s, Token(order[0]), ValueOf(v, order[0]));
      ReplaceFieldsWithoutPercent(s, order[1..], v);
    }
  }

  lemma FormatWithoutPercent(f: PatternFormatter, level: string, message: string, ctx: Context, date: string -> string)
    requires Fillable(ctx) && '%' !in f.format
    ensures Format(f, level, message, ctx, date) == f.format
  {
    ReplaceFieldsWithoutPercent(f.format, Order, FieldsOf(f, level, message, ctx, date));
  }

  // ---------------------------------------------------------------------------
  // Templates as literal text and fields

  /** A template given piece by piece: literal text, or the token of a field. */
  datatype Piece = Literal(text: string) | Slot(field: Field)

  function PieceText(p: Piece): string
  {
    match p
    case Literal(t) => t
    case Slot(t) => Token(t)
  }

  /** The template text written by the pieces. */
  function Render(ps: seq<Piece>): string
    decreases |ps|
  {
    if ps == [] then "" else PieceText(ps[0]) + Render(ps[1..])
  }

  /** The text the template means: each field's token replaced by its value. */
  function Expand(ps: seq<Piece>, v: Fields): string
    decreases |ps|
  {
    if ps == [] then ""
    else (match ps[0] case Literal(t) => t case Slot(t) => ValueOf(v, t)) + Expand(ps[1..], v)
  }

  predicate IsUpper(c: char)
  {
    'A' <= c <= 'Z'
  }

  /** A character after which no token can continue. */
  predicate Separator(c: char)
  {
    c != '%' && !IsUpper(c)
  }

  /**
   * A template the passes read as intended: literal text holds no `%`, and
   * every field except a final one is followed by literal text that opens with
   * a separator.
   */
  predicate WellFormed(ps: seq<Piece>)
  {
    (forall i :: 0 <= i < |ps| && ps[i].Literal? ==> '%' !in ps[i].text) &&
    (forall i :: 0 <= i < |ps| - 1 && ps[i].Slot? ==>
       ps[i + 1].Literal? && ps[i + 1].text != [] && Separator(ps[i + 1].text[0]))
  }

  /**
   * The fields inserted before the last pass hold no `%`. The date is inserted
   * by the last pass, and a pass never rescans what it inserts, so it may hold
   * anything.
   */
  predicate PlainFields(v: Fields)
  {
    '%' !in v.origin && '%' !in v.level && '%' !in v.message
  }

  /** A piece once the fields in `done` have been replaced. */
  function Resolve(p: Piece, done: set<Field>, v: Fields): Piece
  {
    if p.Slot? && p.field in done then Literal(ValueOf(v, p.field)) else p
  }

  /** The text after the passes for the fields in `done`. */
  function Show(ps: seq<Piece>, done: set<Field>, v: Fields): string
    decreases |ps|
  {
    if ps == [] then "" else PieceText(Resolve(ps[0], done, v)) + Show(ps[1..], done, v)
  }

  lemma {:induction false} ShowNone(ps: seq<Piece>, v: Fields)
    ensures Show(ps, {}, v) == Render(ps)
    decreases |ps|
  {
    if ps != [] { ShowNone(ps[1..], v); }
  }

  lemma {:induction false} ShowAll(ps: seq<Piece>, v: Fields)
    ensures Show(ps, {ModuleField, LevelField, MessageField, DateField}, v) == Expand(ps, v)
    decreases |ps|
  {
    if ps != [] { ShowAll(ps[1..], v); }
  }

  lemma NameFacts(t: Field)
    ensures 1 <= |Name(t)| && forall i :: 0 <= i < |Name(t)| ==> IsUpper(Name(t)[i])
    ensures forall u :: |Name(u)| == |Name(t)| ==> u == t
  {
  }

  lemma TokenFacts(t: Field)
    ensures |Token(t)| == |Name(t)| + 2 >= 3
    ensures Token(t)[0] == '%' && Token(t)[|Token(t)| - 1] == '%'
    ensures forall i :: 1 <= i < |Token(t)| - 1 ==> IsUpper(Token(t)[i])
  {
    NameFacts(t);
    forall i | 1 <= i < |Token(t)| - 1 ensures IsUpper(Token(t)[i]) {
      assert Token(t)[i] == Name(t)[i - 1];
    }
  }

  /**
   * No token of another field starts inside a token that is followed by a
   * separator (or by nothing).
   */
  lemma TokenNoOccurrence(f: Field, t: Field, rest: string)
    requires f != t && (rest == [] || Separator(rest[0]))
    ensures forall j :: 0 <= j < |Token(f)| ==> !OccursAt(Token(f) + rest, Token(t), j)
  {
    forall j | 0 <= j < |Token(f)| ensures !OccursAt(Token(f) + rest, Token(t), j) {
      TokenNotAt(f, t, rest, j);
    }
  }

  /** The same, for one starting index `j` inside the token of `f`. */
  lemma TokenNotAt(f: Field, t: Field, rest: string, j: nat)
    requires f != t && (rest == [] || Separator(rest[0])) && j < |Token(f)|
    ensures !OccursAt(Token(f) + rest, Token(t), j)
  {
    var s, tf, tt := Token(f) + rest, Token(f), Token(t);
    TokenFacts(f);
    TokenFacts(t);
    NameFacts(f);
    var n, m := |Name(f)|, |Name(t)|;
    assert m != n;
    if j + m + 2 <= |s| {
      var w := s[j..j + m + 2];
      if 1 <= j <= n {
        // the token of `t` opens with `%`, here an upper-case letter stands
        assert w[0] == s[j] == tf[j];
        assert IsUpper(tf[j]) && tt[0] == '%';
        assert w[0] != tt[0];
      } else if j == n + 1 {
        // its second character is a letter, here the separator after the token
        assert w[1] == s[n + 2] == rest[0];
        assert IsUpper(tt[1]);
        assert w[1] != tt[1];
      } else if m < n {
        // both start at the same `%`; the shorter name closes first
        assert j == 0 && w[m + 1] == s[m + 1] == tf[m + 1];
        assert IsUpper(tf[m + 1]) && tt[m + 1] == '%';
        assert w[m + 1] != tt[m + 1];
      } else {
        assert j == 0 && w[n + 1] == s[n + 1] == tf[n + 1] == '%';
        assert IsUpper(tt[n + 1]);
        assert w[n + 1] != tt[n + 1];
      }
    }
  }

  /** In a well-formed template the text after a field opens with a separator, or is empty. */
  lemma NextOpensWithSeparator(ps: seq<Piece>, done: set<Field>, v: Fields)
    requires WellFormed(ps) && ps != [] && ps[0].Slot?
    ensures var rest := Show(ps[1..], done, v); rest == [] || Separator(rest[0])
  {
    if |ps| > 1 {
      assert ps[1..][0] == ps[1];
      assert Resolve(ps[1], done, v) == ps[1];
    }
  }

  lemma WellFormedTail(ps: seq<Piece>)
    requires WellFormed(ps) && ps != []
    ensures WellFormed(ps[1..])
  {
    var t := ps[1..];
    forall i | 0 <= i < |t| - 1 && t[i].Slot?
      ensures t[i + 1].Literal? && t[i + 1].text != [] && Separator(t[i + 1].text[0])
    {
      assert t[i] == ps[i + 1] && t[i + 1] == ps[i + 2];
    }
  }

  /** One pass replaces exactly the slots of its field, in a well-formed template. */
  lemma {:induction false} PassStep(ps: seq<Piece>, done: set<Field>, t: Field, v: Fields)
    requires WellFormed(ps) && PlainFields(v) && DateField !in done
    ensures StrReplace(Show(ps, done, v), Token(t), ValueOf(v, t)) == Show(ps, done + {t}, v)
    decreases |ps|
  {
    var tok, value := Token(t), ValueOf(v, t);
    TokenFacts(t);
    if ps != [] {
      WellFormedTail(ps);
      PassStep(ps[1..], done, t, v);
      var rest := Show(ps[1..], done, v);
      var p := Resolve(ps[0], done, v);
      if p.Literal? {
        assert ps[0].Literal? ==> ps[0] == ps[|ps| - |ps|] && '%' !in ps[0].text;
        assert ps[0].Slot? ==> ps[0].field != DateField && '%' !in ValueOf(v, ps[0].field);
        assert Resolve(ps[0], done + {t}, v) == p;
        StrReplaceKeepsPrefix(p.text, rest, tok, value);
      } else if p.field == t {
        StrReplaceAtFront(rest, tok, value);
      } else {
        NextOpensWithSeparator(ps, done, v);
        TokenNoOccurrence(p.field, t, rest);
        StrReplaceSkip(Token(p.field), rest, tok, value);
      }
    }
  }

  /** The passes for `order`, the date pass last if at all, resolve exactly the fields of `order`. */
  lemma {:induction false} PassesResolve(ps: seq<Piece>, done: set<Field>, order: seq<Field>, v: Fields)
    requires WellFormed(ps) && PlainFields(v) && DateField !in done
    requires forall i :: 0 <= i < |order| - 1 ==> order[i] != DateField
    ensures ReplaceFields(Show(ps, done, v), order, v) == Show(ps, done + (set t | t in order), v)
    decreases |order|
  {
    if order == [] {
      assert (done + (set t | t in order)) == done;
    } else {
      PassStep(ps, done, order[0], v);
      var next := StrReplace(Show(ps, done, v), Token(order[0]), ValueOf(v, order[0]));
      if |order| == 1 {
        assert ReplaceFields(next, order[1..], v) == next;
        assert done + {order[0]} == done + (set t | t in order);
      } else {
        assert order[0] != DateField;
        forall i | 0 <= i < |order[1..]| - 1 ensures order[1..][i] != DateField {
          assert order[1..][i] == order[i + 1];
        }
        PassesResolve(ps, done + {order[0]}, order[1..], v);
        assert (done + {order[0]}) + (set t | t in order[1..]) == done + (set t | t in order);
      }
    }
  }

  /**
   * Every token of a well-formed template is replaced by its field, whatever
   * the fields are, as long as the module, the level and the filled message
   * hold no `%`; the date may hold anything.
   */
  lemma FormatWellFormed(ps: seq<Piece>, f: PatternFormatter, level: string, message: string, ctx: Context,
                         date: string -> string)
    requires Fillable(ctx) && f.format == Render(ps) && WellFormed(ps)
    requires PlainFields(FieldsOf(f, level, message, ctx, date))
    ensures Format(f, level, message, ctx, date) == Expand(ps, FieldsOf(f, level, message, ctx, date))
  {
    var v := FieldsOf(f, level, message, ctx, date);
    ShowNone(ps, v);
    assert forall i :: 0 <= i < |Order| - 1 ==> Order[i] != DateField;
    PassesResolve(ps, {}, Order, v);
    assert ({} + (set t | t in Order)) == {ModuleField, LevelField, MessageField, DateField};
    ShowAll(ps, v);
  }

  /**
   * The message is filled in before the date pass, so a `%DATE%` inside the
   * filled message is replaced by the date as well; the module and level
   * passes run before the message is inserted and never touch it.
   */
  lemma FormatMessageOnly(f: PatternFormatter, level: string, message: string, ctx: Context, date: string -> string)
    requires Fillable(ctx) && f.format == Token(MessageField)
    ensures Format(f, level, message, ctx, date)
         == StrReplace(Filled(message, ctx), Token(DateField), date(f.dateFormat))
  {
    var v := FieldsOf(f, level, message, ctx, date);
    var s := Token(MessageField);
    TokenFacts(MessageField);
    TokenNoOccurrence(MessageField, ModuleField, []);
    TokenNoOccurrence(MessageField, LevelField, []);
    assert s + [] == s;
    assert !Contains(s, Token(ModuleField));
    StrReplaceAbsent(s, Token(ModuleField), v.origin);
    assert !Contains(s, Token(LevelField));
    StrReplaceAbsent(s, Token(LevelField), v.level);
    StrReplaceAtFront([], s, v.message);
    assert s + [] == s;
    assert v.message + [] == v.message;
    var r := StrReplace(v.message, Token(DateField), v.date);
    assert ReplaceFields(r, [], v) == r;
  }

  /** A message that reads `%DATE%` comes out of a `%MESSAGE%` template as the date. */
  lemma DateInsideMessage(f: PatternFormatter, level: string, ctx: Context, date: string -> string)
    requires Fillable(ctx) && f.format == Token(MessageField)
    ensures Format(f, level, Token(DateField), ctx, date) == date(f.dateFormat)
  {
    FormatMessageOnly(f, level, Token(DateField), ctx, date);
    FilledWithoutBrace(Token(DateField), ctx);
    StrReplaceAtFront([], Token(DateField), date(f.dateFormat));
    assert Token(DateField) + [] == Token(DateField);
    assert date(f.dateFormat) + [] == date(f.dateFormat);
  }

  /** A text whose only `%` is its first character contains no token of length 3 or more. */
  lemma LeadingPercentOnly(s: string, tok: string)
    requires |s| >= 1 && '%' !in s[1..] && |tok| >= 3 && tok[0] == '%' && tok[|tok| - 1] == '%'
    ensures !Contains(s, tok)
  {
    forall k | 0 <= k && k + |tok| <= |s| ensures !OccursAt(s, tok, k) {
      var w := s[k..k + |tok|];
      if k == 0 {
        assert w[|tok| - 1] == s[1..][|tok| - 2];
      } else {
        assert w[0] == s[1..][k - 1];
      }
    }
  }

  /**
   * Why the separator matters: when the text right after `%LEVEL%` spells
   * `MODULE%`, the module pass takes the closing `%` of `%LEVEL%` as the
   * opening of `%MODULE%`, and the level never appears in the output.
   */
  lemma AdjacentNameSwallowsField(f: PatternFormatter, level: string, message: string, ctx: Context,
                                  date: string -> string)
    requires Fillable(ctx) && f.format == "%LEVEL" + Token(ModuleField) && '%' !in ModuleOf(ctx)
    ensures Format(f, level, message, ctx, date) == "%LEVEL" + ModuleOf(ctx)
  {
    var v := FieldsOf(f, level, message, ctx, date);
    ModulePassOpensLevel(v.origin);
    var s := "%LEVEL" + v.origin;
    assert s[1..] == "LEVEL" + v.origin;
    forall t ensures !Contains(s, Token(t)) {
      TokenFacts(t);
      LeadingPercentOnly(s, Token(t));
    }
    ReplaceFieldsWithoutTokens(s, Order[1..], v);
  }

  /** The module pass on `%LEVEL%MODULE%` consumes the closing `%` of `%LEVEL%`. */
  lemma ModulePassOpensLevel(value: string)
    ensures StrReplace("%LEVEL" + Token(ModuleField), Token(ModuleField), value) == "%LEVEL" + value
  {
    var pre, mt := "%LEVEL", Token(ModuleField);
    TokenFacts(ModuleField);
    forall j | 0 <= j < |pre| ensures !OccursAt(pre + mt, mt, j) {
      var w := (pre + mt)[j..j + |mt|];
      if j == 0 {
        assert w[1] == 'L';
      } else {
        assert w[0] == pre[j];
      }
    }
    StrReplaceSkip(pre, mt, mt, value);
    StrReplaceAtFront([], mt, value);
    assert mt + [] == mt && value + [] == value;
  }

  /** A text that holds no token is left alone by every pass. */
  lemma {:induction false} ReplaceFieldsWithoutTokens(s: string, order: seq<Field>, v: Fields)
    requires forall t :: !Contains(s, Token(t))
    ensures ReplaceFields(s, order, v) == s
    decreases |order|
  {
    if order != [] {
      StrReplaceAbsent(s, Token(order[0]), ValueOf(v, order[0]));
      ReplaceFieldsWithoutTokens(s, order[1..], v);
    }
  }

  /** The template of the formatter tests, `[%DATE%][%MODULE%][%LEVEL%] %MESSAGE%`. */
  function TestTemplate(): string
  {
    ("[" + Token(DateField)) + ("][" + Token(ModuleField)) + ("][" + Token(LevelField)) + ("] " + Token(MessageField))
  }

  lemma {:induction false} RenderConcat(a: seq<Piece>, b: seq<Piece>)
    ensures Render(a + b) == Render(a) + Render(b)
    decreases |a|
  {
    if a == [] {
      assert a + b == b;
    } else {
      assert (a + b)[1..] == a[1..] + b;
      RenderConcat(a[1..], b);
      AppendAssoc(PieceText(a[0]), Render(a[1..]), Render(b));
    }
  }

  lemma {:induction false} ExpandConcat(a: seq<Piece>, b: seq<Piece>, v: Fields)
    ensures Expand(a + b, v) == Expand(a, v) + Expand(b, v)
    decreases |a|
  {
    if a == [] {
      assert a + b == b;
    } else {
      assert (a + b)[1..] == a[1..] + b;
      ExpandConcat(a[1..], b, v);
      var h := match a[0] case Literal(t) => t case Slot(t) => ValueOf(v, t);
      AppendAssoc(h, Expand(a[1..], v), Expand(b, v));
    }
  }

  /** Literal text followed by a field. */
  lemma RenderPair(x: string, t: Field, v: Fields)
    ensures Render([Literal(x), Slot(t)]) == x + Token(t)
    ensures Expand([Literal(x), Slot(t)], v) == x + ValueOf(v, t)
  {
    var ps := [Literal(x), Slot(t)];
    assert ps[1..] == [Slot(t)] && ps[1..][1..] == [];
    assert Render(ps[1..]) == Token(t) + "" == Token(t);
    assert Expand(ps[1..], v) == ValueOf(v, t) + "" == ValueOf(v, t);
  }

  lemma WellFormedPair(x: string, t: Field)
    requires '%' !in x
    ensures WellFormed([Literal(x), Slot(t)])
  {
  }

  /** A well-formed template may be continued by separator text and a field. */
  lemma WellFormedAppendPair(ps: seq<Piece>, x: string, t: Field)
    requires WellFormed(ps) && '%' !in x && x != [] && Separator(x[0])
    ensures WellFormed(ps + [Literal(x), Slot(t)])
  {
    var r := ps + [Literal(x), Slot(t)];
    assert r[|ps|] == Literal(x) && r[|ps| + 1] == Slot(t);
    forall i | 0 <= i < |ps| ensures r[i] == ps[i] {
    }
  }

  /** The meaning of a template of four literal texts, each followed by a field. */
  lemma ExpandFourPairs(x0: string, t0: Field, x1: string, t1: Field, x2: string, t2: Field, x3: string, t3: Field,
                        v: Fields)
    ensures Expand([Literal(x0), Slot(t0)] + [Literal(x1), Slot(t1)] + [Literal(x2), Slot(t2)] + [Literal(x3), Slot(t3)], v)
         == (x0 + ValueOf(v, t0)) + (x1 + ValueOf(v, t1)) + (x2 + ValueOf(v, t2)) + (x3 + ValueOf(v, t3))
  {
    var p0, p1 := [Literal(x0), Slot(t0)], [Literal(x1), Slot(t1)];
    var p2, p3 := [Literal(x2), Slot(t2)], [Literal(x3), Slot(t3)];
    ExpandConcat(p0 + p1 + p2, p3, v);
    ExpandConcat(p0 + p1, p2, v);
    ExpandConcat(p0, p1, v);
    RenderPair(x0, t0, v);
    RenderPair(x1, t1, v);
    RenderPair(x2, t2, v);
    RenderPair(x3, t3, v);
  }

  /**
   * A template of four texts without `%`, each followed by a field, where the
   * second to fourth open with a separator: each token is replaced by its field.
   */
  lemma FormatFourPairs(f: PatternFormatter, level: string, message: string, ctx: Context, date: string -> string,
                        x0: string, t0: Field, x1: string, t1: Field, x2: string, t2: Field, x3: string, t3: Field)
    requires Fillable(ctx) && PlainFields(FieldsOf(f, level, message, ctx, date))
    requires '%' !in x0 && '%' !in x1 && '%' !in x2 && '%' !in x3
    requires x1 != [] && Separator(x1[0]) && x2 != [] && Separator(x2[0]) && x3 != [] && Separator(x3[0])
    requires f.format == (x0 + Token(t0)) + (x1 + Token(t1)) + (x2 + Token(t2)) + (x3 + Token(t3))
    ensures var v := FieldsOf(f, level, message, ctx, date);
      Format(f, level, message, ctx, date)
        == (x0 + ValueOf(v, t0)) + (x1 + ValueOf(v, t1)) + (x2 + ValueOf(v, t2)) + (x3 + ValueOf(v, t3))
  {
    var p0, p1 := [Literal(x0), Slot(t0)], [Literal(x1), Slot(t1)];
    var p2, p3 := [Literal(x2), Slot(t2)], [Literal(x3), Slot(t3)];
    var v := FieldsOf(f, level, message, ctx, date);
    RenderConcat(p0 + p1 + p2, p3);
    RenderConcat(p0 + p1, p2);
    RenderConcat(p0, p1);
    RenderPair(x0, t0, v);
    RenderPair(x1, t1, v);
    RenderPair(x2, t2, v);
    RenderPair(x3, t3, v);
    WellFormedPair(x0, t0);
    WellFormedAppendPair(p0, x1, t1);
    WellFormedAppendPair(p0 + p1, x2, t2);
    WellFormedAppendPair(p0 + p1 + p2, x3, t3);
    FormatWellFormed(p0 + p1 + p2 + p3, f, level, message, ctx, date);
    ExpandFourPairs(x0, t0, x1, t1, x2, t2, x3, t3, v);
  }

  /** The fields of the test record: module `PFTest`, level `error`, message "Foo". */
  lemma TestRecordFields(f: PatternFormatter, date: string -> string)
    ensures Fillable([Entry(ModuleKey, "PFTest")])
    ensures FieldsOf(f, "error", "Foo", [Entry(ModuleKey, "PFTest")], date) == Fields("PFTest", "ERROR", "Foo", date(f.dateFormat))
  {
    var ctx := [Entry(ModuleKey, "PFTest")];
    assert Fillable(ctx) by { assert |Placeholder(ModuleKey)| == 9; }
    assert HasKey(ctx, ModuleKey) by { assert ctx[0].key == ModuleKey; }
    Levels.UpperCaseOf("error", "ERROR");
    FilledWithoutBrace("Foo", ctx);
  }

  /**
   * The formatter test: an `error` record "Foo" from module `PFTest` is shown
   * as `[<date>][PFTest][ERROR] Foo`, for any date format and any rendering of
   * the date.
   */
  lemma FormatterTestRecord(f: PatternFormatter, date: string -> string)
    requires f.format == TestTemplate()
    ensures Format(f, "error", "Foo", [Entry(ModuleKey, "PFTest")], date)
         == ("[" + date(f.dateFormat)) + ("][" + "PFTest") + ("][" + "ERROR") + ("] " + "Foo")
  {
    TestRecordFields(f, date);
    FormatFourPairs(f, "error", "Foo", [Entry(ModuleKey, "PFTest")], date,
                    "[", DateField, "][", ModuleField, "][", LevelField, "] ", MessageField);
  }

  lemma PlaceholderRecordFields(f: PatternFormatter, date: string -> string)
    ensures Fillable([Entry("bar", "baz"), Entry(ModuleKey, "PFTest")])
    ensures FieldsOf(f, "error", "Foo {bar}", [Entry("bar", "baz"), Entry(ModuleKey, "PFTest")], date)
         == Fields("PFTest", "ERROR", "Foo baz", date(f.dateFormat))
  {
    var ctx := [Entry("bar", "baz"), Entry(ModuleKey, "PFTest")];
    assert Fillable(ctx) by {
      assert |Placeholder("bar")| == 5 && |Placeholder(ModuleKey)| == 9;
    }
    assert HasKey(ctx, ModuleKey) by { assert ctx[1].key == ModuleKey; }
    assert ctx[0].key != ModuleKey by { assert ctx[0].key[0] != ModuleKey[0]; }
    Levels.UpperCaseOf("error", "ERROR");
    FilledFormatterMessage("Foo {bar}", ctx);
  }

  /**
   * The formatter test with a placeholder: the message "Foo {bar}" is filled
   * from the context before it is put in the template.
   */
  lemma FormatterTestPlaceholders(f: PatternFormatter, date: string -> string)
    requires f.format == TestTemplate()
    ensures Format(f, "error", "Foo {bar}", [Entry("bar", "baz"), Entry(ModuleKey, "PFTest")], date)
         == ("[" + date(f.dateFormat)) + ("][" + "PFTest") + ("][" + "ERROR") + ("] " + "Foo baz")
  {
    PlaceholderRecordFields(f, date);
    FormatFourPairs(f, "error", "Foo {bar}", [Entry("bar", "baz"), Entry(ModuleKey, "PFTest")], date,
                    "[", DateField, "][", ModuleField, "][", LevelField, "] ", MessageField);
  }
}
