/**
 * Dotted module names: the normalisation `getLogger` applies
 * (`\` becomes `.`, then `.`, ` ` and `\` are trimmed from both ends), PHP's
 * `explode` / `implode` on `.`, and the parent name `getParentLogger` derives.
 */
module ModuleNames {
  /** The character list `". \\"` given to PHP's `trim`. */
  predicate IsTrimChar(c: char)
  {
    c == '.' || c == ' ' || c == '\\'
  }

  /** `str_replace('\\', '.', s)`. */
  function SlashesToDots(s: string): string
  {
    seq(|s|, i requires 0 <= i < |s| => if s[i] == '\\' then '.' else s[i])
  }

  /** The first index from `i` on that does not hold a trim character (`|s|` if none). */
  function LeadEnd(s: string, i: nat): (k: nat)
    requires i <= |s|
    ensures i <= k <= |s|
    decreases |s| - i
  {
    if i < |s| && IsTrimChar(s[i]) then LeadEnd(s, i + 1) else i
  }

  lemma {:induction false} LeadEndSpec(s: string, i: nat)
    requires i <= |s|
    ensures forall j :: i <= j < LeadEnd(s, i) ==> IsTrimChar(s[j])
    ensures LeadEnd(s, i) < |s| ==> !IsTrimChar(s[LeadEnd(s, i)])
    decreases |s| - i
  {
    if i < |s| && IsTrimChar(s[i]) {
      LeadEndSpec(s, i + 1);
    }
  }

  /** The end of `s[..j]` once the trim characters it ends with are cut off. */
  function TrailEnd(s: string, j: nat): (k: nat)
    requires j <= |s|
    ensures k <= j
    decreases j
  {
    if j > 0 && IsTrimChar(s[j - 1]) then TrailEnd(s, j - 1) else j
  }

  lemma {:induction false} TrailEndSpec(s: string, j: nat)
    requires j <= |s|
    ensures forall i :: TrailEnd(s, j) <= i < j ==> IsTrimChar(s[i])
    ensures TrailEnd(s, j) > 0 ==> !IsTrimChar(s[TrailEnd(s, j) - 1])
    decreases j
  {
    if j > 0 && IsTrimChar(s[j - 1]) {
      TrailEndSpec(s, j - 1);
    }
  }

  /** `ltrim(s, ". \\")`. */
  function TrimLeft(s: string): string
  {
    s[LeadEnd(s, 0)..]
  }

  /** `ltrim` keeps the longest suffix that does not start with a trim character. */
  lemma TrimLeftSpec(s: string)
    ensures var r := TrimLeft(s);
      && |r| <= |s| && r == s[|s| - |r|..]
      && (forall i :: 0 <= i < |s| - |r| ==> IsTrimChar(s[i]))
      && (r == [] || !IsTrimChar(r[0]))
  {
    LeadEndSpec(s, 0);
  }

  /** `rtrim(s, ". \\")`. */
  function TrimRight(s: string): string
  {
    s[..TrailEnd(s, |s|)]
  }

  /** `rtrim` keeps the longest prefix that does not end with a trim character. */
  lemma TrimRightSpec(s: string)
    ensures var r := TrimRight(s);
      && |r| <= |s| && r == s[..|r|]
      && (forall i :: |r| <= i < |s| ==> IsTrimChar(s[i]))
      && (r == [] || !IsTrimChar(r[|r| - 1]))
  {
    TrailEndSpec(s, |s|);
  }

  /** The key `getLogger` files a module name under. */
  function Normalize(s: string): string
  {
    TrimRight(TrimLeft(SlashesToDots(s)))
  }

  /** A name `getLogger` leaves as it is: no backslash, no trim character at either end. */
  predicate IsNormal(m: string)
  {
    '\\' !in m && (m == [] || (!IsTrimChar(m[0]) && !IsTrimChar(m[|m| - 1])))
  }

  /** Normalising yields a normal name that is no longer than the input. */
  lemma NormalizeIsNormal(s: string)
    ensures IsNormal(Normalize(s)) && |Normalize(s)| <= |s|
  {
    var d := SlashesToDots(s);
    var l := TrimLeft(d);
    var r := TrimRight(l);
    TrimLeftSpec(d);
    TrimRightSpec(l);
    assert '\\' !in d by {
      forall i | 0 <= i < |d| ensures d[i] != '\\' { }
    }
    assert '\\' !in r by {
      forall i | 0 <= i < |r| ensures r[i] != '\\' {
        assert r[i] == l[i] == d[|d| - |l| + i];
      }
    }
    if r != [] {
      assert r[0] == l[0];
    }
  }

  /** A normal name is exactly one that normalisation does not change. */
  lemma NormalFixpoint(m: string)
    ensures IsNormal(m) <==> Normalize(m) == m
  {
    if IsNormal(m) {
      assert SlashesToDots(m) == m by {
        forall i | 0 <= i < |m| ensures SlashesToDots(m)[i] == m[i] {
          assert m[i] in m;
        }
      }
    }
    NormalizeIsNormal(m);
  }

  /** Normalisation is idempotent, so two spellings of one module meet under one key. */
  lemma NormalizeIdempotent(s: string)
    ensures Normalize(Normalize(s)) == Normalize(s)
  {
    NormalizeIsNormal(s);
    NormalFixpoint(Normalize(s));
  }

  /** PHP's `explode(".", s)`: the dot-free pieces between the dots, always at least one. */
  function Explode(s: string): (parts: seq<string>)
    ensures |parts| >= 1
    ensures forall i :: 0 <= i < |parts| ==> '.' !in parts[i]
  {
    if s == [] then [[]]
    else if s[0] == '.' then [[]] + Explode(s[1..])
    else
      var rest := Explode(s[1..]);
      [[s[0]] + rest[0]] + rest[1..]
  }

  /** PHP's `implode(".", parts)`. */
  function Implode(parts: seq<string>): string
  {
    if |parts| == 0 then []
    else if |parts| == 1 then parts[0]
    else parts[0] + "." + Implode(parts[1..])
  }

  lemma {:induction false} ExplodeImplode(s: string)
    ensures Implode(Explode(s)) == s
  {
    if s != [] {
      var rest := Explode(s[1..]);
      ExplodeImplode(s[1..]);
      if s[0] == '.' {
        assert ([[]] + rest)[1..] == rest;
      } else {
        var parts := [[s[0]] + rest[0]] + rest[1..];
        assert parts[1..] == rest[1..];
        if |rest| > 1 {
          assert rest[1..][1..] == rest[2..];
          assert Implode(rest) == rest[0] + "." + Implode(rest[1..]);
        } else {
          assert Implode(rest) == rest[0];
        }
      }
    }
  }

  /** Exploding a join of dot-free pieces gives the pieces back. */
  lemma {:induction false} ImplodeExplode(parts: seq<string>)
    requires |parts| >= 1 && forall i :: 0 <= i < |parts| ==> '.' !in parts[i]
    ensures Explode(Implode(parts)) == parts
    decreases |parts|, |parts[0]|
  {
    var p := parts[0];
    if |parts| == 1 {
      ExplodePiece(p);
    } else {
      var tail := Implode(parts[1..]);
      ImplodeExplode(parts[1..]);
      ExplodeJoin(p, tail);
      assert [p] + parts[1..] == parts;
    }
  }

  /** A dot-free text explodes to itself. */
  lemma {:induction false} ExplodePiece(p: string)
    requires '.' !in p
    ensures Explode(p) == [p]
  {
    if p != [] {
      assert p[0] in p;
      assert '.' !in p[1..] by {
        forall i | 0 <= i < |p[1..]| ensures p[1..][i] != '.' { assert p[1..][i] == p[i + 1]; }
      }
      ExplodePiece(p[1..]);
      assert [p[0]] + p[1..] == p;
    }
  }

  /** A dot-free piece, a dot, then a rest: the piece comes first, the rest's pieces after it. */
  lemma {:induction false} ExplodeJoin(p: string, rest: string)
    requires '.' !in p
    ensures Explode(p + "." + rest) == [p] + Explode(rest)
  {
    if p == [] {
      assert p + "." + rest == "." + rest;
      assert ("." + rest)[1..] == rest;
    } else {
      assert p[0] in p;
      assert '.' !in p[1..] by {
        forall i | 0 <= i < |p[1..]| ensures p[1..][i] != '.' { assert p[1..][i] == p[i + 1]; }
      }
      assert (p + "." + rest)[1..] == p[1..] + "." + rest;
      ExplodeJoin(p[1..], rest);
      assert [p[0]] + p[1..] == p;
    }
  }

  /** Joining all but the last piece, then a dot and the last piece, is joining all of them. */
  lemma {:induction false} ImplodeSnoc(parts: seq<string>)
    requires |parts| >= 2
    ensures Implode(parts) == Implode(parts[..|parts| - 1]) + "." + parts[|parts| - 1]
    decreases |parts|
  {
    if |parts| > 2 {
      ImplodeSnoc(parts[1..]);
      assert parts[1..][..|parts| - 2] == parts[..|parts| - 1][1..];
    } else {
      assert parts[..1] == [parts[0]];
    }
  }

  /**
   * Where `array_pop` cuts the name: the index of the last dot before `j`, or 0
   * when there is none (either way the text before the cut is what `implode`
   * returns).
   */
  function CutPoint(m: string, j: nat): (k: nat)
    requires j <= |m|
    ensures k <= j && (j > 0 ==> k < j)
    ensures k > 0 ==> m[k] == '.'
    ensures forall i :: k < i < j ==> m[i] != '.'
    decreases j
  {
    if j == 0 then 0
    else if m[j - 1] == '.' then j - 1
    else CutPoint(m, j - 1)
  }

  /**
   * The name `getParentLogger` asks for: the text before the last dot (nothing
   * when there is no dot), normalised by the `getLogger` that follows.
   */
  function ParentName(m: string): (r: string)
    ensures IsNormal(r)
    ensures m != [] ==> |r| < |m|
  {
    var p := m[..CutPoint(m, |m|)];
    NormalizeIsNormal(p);
    Normalize(p)
  }

  /** Exploding a name whose last piece is dot-free puts that piece after the pieces before it. */
  lemma ExplodeLast(p: string, last: string)
    requires '.' !in last
    ensures Explode(p + "." + last) == Explode(p) + [last]
  {
    var left := Explode(p);
    ExplodeImplode(p);
    var parts := left + [last];
    assert forall i :: 0 <= i < |parts| ==> '.' !in parts[i];
    ImplodeSnoc(parts);
    assert parts[..|parts| - 1] == left;
    ImplodeExplode(parts);
  }

  /** `implode` of the exploded name without its last piece is the text before the cut. */
  lemma ImplodeBeforeCut(m: string)
    ensures var parts := Explode(m); Implode(parts[..|parts| - 1]) == m[..CutPoint(m, |m|)]
  {
    var k := CutPoint(m, |m|);
    if '.' in m {
      var i :| 0 <= i < |m| && m[i] == '.';
      assert m[k] == '.';
      var p, last := m[..k], m[k + 1..];
      assert m == p + "." + last;
      assert '.' !in last by {
        forall j | 0 <= j < |last| ensures last[j] != '.' { assert last[j] == m[k + 1 + j]; }
      }
      ExplodeLast(p, last);
      ExplodeImplode(p);
      assert (Explode(p) + [last])[..|Explode(p)|] == Explode(p);
    } else {
      ExplodePiece(m);
      assert Explode(m)[..0] == [];
    }
  }

  /** `ParentName` is `implode` of the exploded name without its last piece, normalised. */
  lemma ParentNameExplode(m: string)
    ensures var parts := Explode(m); ParentName(m) == Normalize(Implode(parts[..|parts| - 1]))
  {
    ImplodeBeforeCut(m);
  }

  /**
   * Dropping the last segment: the parent of `p.last` (with no dot in `last`)
   * is the normalised `p`, and a name without a dot has the root as parent.
   */
  lemma DropLastSegment(p: string, last: string)
    requires '.' !in last
    ensures ParentName(p + "." + last) == Normalize(p)
    ensures '.' !in p ==> ParentName(p) == ""
  {
    var m := p + "." + last;
    assert m[|p|] == '.';
    assert forall i :: |p| < i < |m| ==> m[i] != '.' by {
      forall i | |p| < i < |m| ensures m[i] != '.' {
        assert m[i] == last[i - |p| - 1];
        assert m[i] in last;
      }
    }
    assert CutPoint(m, |m|) == |p|;
    assert m[..|p|] == p;
    if '.' !in p {
      assert CutPoint(p, |p|) == 0;
      assert p[..0] == [];
    }
  }

  /** The parent of a normal name followed by one more segment is that name: `"a.b.c"` has parent `"a.b"`. */
  lemma ParentOfNested(p: string, last: string)
    requires IsNormal(p) && '.' !in last
    ensures ParentName(p + "." + last) == p
  {
    DropLastSegment(p, last);
    NormalFixpoint(p);
  }

  /** A trailing dot is trimmed off a normal name. */
  lemma NormalizeTrailingDot(p: string)
    requires IsNormal(p)
    ensures Normalize(p + ".") == p
  {
    var d := p + ".";
    assert SlashesToDots(d) == d by {
      forall i | 0 <= i < |d| ensures SlashesToDots(d)[i] == d[i] {
        if i < |p| { assert d[i] == p[i] && p[i] in p; }
      }
    }
    if p == [] {
      assert LeadEnd(d, 0) == 1;
    } else {
      assert LeadEnd(d, 0) == 0;
      assert d[0..] == d;
      assert TrailEnd(d, |d|) == |p|;
      assert d[..|p|] == p;
    }
  }


  /** An empty segment left behind by `array_pop` is trimmed away: `"a..b"` has parent `"a"`. */
  lemma ParentSkipsEmptySegment(p: string, last: string)
    requires IsNormal(p) && '.' !in last
    ensures ParentName(p + ".." + last) == p
  {
    var q := p + ".";
    assert q + "." + last == p + ".." + last;
    DropLastSegment(q, last);
    NormalizeTrailingDot(p);
  }

  /** The names visited from `m` up to the root: `m`, its parent, its grandparent, ..., `""`. */
  function Chain(m: string): (c: seq<string>)
    ensures c != [] && c[0] == m && |c| <= |m| + 1 && c[|c| - 1] == ""
    decreases |m|
  {
    if m == [] then [m] else [m] + Chain(ParentName(m))
  }

  /** Each name of the chain but the last is not the root, and the next one is its parent. */
  lemma {:induction false} ChainLinks(m: string, i: nat)
    requires i + 1 < |Chain(m)|
    ensures Chain(m)[i] != "" && Chain(m)[i + 1] == ParentName(Chain(m)[i])
    decreases |m|
  {
    if i > 0 {
      ChainLinks(ParentName(m), i - 1);
    }
  }

  /** The names of the chain are strictly shorter the further up they are, so the chain ends. */
  lemma {:induction false} ChainShrinks(m: string, i: nat)
    requires i < |Chain(m)|
    ensures |Chain(m)[i]| + i <= |m|
    decreases |m|
  {
    if i > 0 {
      ChainShrinks(ParentName(m), i - 1);
    }
  }

  /** `isRoot`, as written: PHP's `empty()` is also true for the string `"0"`. */
  predicate IsRootAsWritten(m: string)
  {
    m == "" || m == "0"
  }

  /** The module `"0"` counts as root for `isRoot`, yet its chain continues to `""`. */
  lemma ZeroIsRootAsWritten(m: string)
    requires m == "0"
    ensures IsRootAsWritten(m) && |Chain(m)| == 2
  {
    DropLastSegment(m, "");
  }

  /** The root test `getParentLogger` uses, `=== ""`. */
  predicate IsRoot(m: string)
  {
    m == ""
  }

  /** A module is the root exactly when its chain stops at itself. */
  lemma RootHasNoParent(m: string)
    ensures IsRoot(m) <==> |Chain(m)| == 1
  {
  }
}
