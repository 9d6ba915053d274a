/**
 * The PHP string built-ins the logging core relies on: `strpos`, `strtoupper`,
 * `sprintf("%10s")` padding and `str_replace` with one search string.
 */
module Text {
  import opened Wrappers

  /** `p` occurs in `s` starting at index `k`. */
  predicate OccursAt(s: string, p: string, k: int)
  {
    0 <= k && k + |p| <= |s| && s[k..k + |p|] == p
  }

  lemma OccursAtShift(s: string, p: string, k: int)
    requires 1 <= k && |s| >= 1
    ensures OccursAt(s, p, k) <==> OccursAt(s[1..], p, k - 1)
  {
    if k + |p| <= |s| {
      assert s[1..][k - 1..k - 1 + |p|] == s[k..k + |p|];
    }
  }

  /** `strpos(s, p)`: the first index at which `p` occurs in `s`, or `None` (PHP's `false`). */
  function IndexOf(s: string, p: string): (r: Option<nat>)
    ensures r.Some? ==> OccursAt(s, p, r.value)
    ensures r.Some? ==> forall k :: 0 <= k < r.value ==> !OccursAt(s, p, k)
    ensures r.None? ==> forall k :: !OccursAt(s, p, k)
    decreases |s|
  {
    if |s| < |p| then None
    else if s[..|p|] == p then Some(0)
    else
      var rest := IndexOf(s[1..], p);
      assert forall k :: 1 <= k ==> (OccursAt(s, p, k) <==> OccursAt(s[1..], p, k - 1)) by {
        forall k | 1 <= k { OccursAtShift(s, p, k); }
      }
      match rest
      case None => None
      case Some(i) => Some(i + 1)
  }

  /** An occurrence with none before it is the one `strpos` finds. */
  lemma IndexOfAt(s: string, p: string, i: nat)
    requires OccursAt(s, p, i) && forall j :: 0 <= j < i ==> !OccursAt(s, p, j)
    ensures IndexOf(s, p) == Some(i)
  {
  }

  /**
   * A non-empty text without `p` whose last character is not in `p`: no
   * occurrence of `p` starts inside it, whatever follows.
   */
  lemma NoStraddle(pre: string, t: string, p: string)
    requires pre != [] && pre[|pre| - 1] !in p && !Contains(pre, p)
    ensures forall j :: 0 <= j < |pre| ==> !OccursAt(pre + t, p, j)
  {
    forall j | 0 <= j < |pre| ensures !OccursAt(pre + t, p, j) {
      if j + |p| <= |pre| {
        assert (pre + t)[j..j + |p|] == pre[j..j + |p|];
        assert !OccursAt(pre, p, j);
      } else if j + |p| <= |pre + t| {
        // the window holds the last character of `pre`, which `p` does not
        assert (pre + t)[j..j + |p|][|pre| - 1 - j] == pre[|pre| - 1];
      }
    }
  }

  /** An occurrence in `t` is one in `pre + t`, `|pre|` further on. */
  lemma OccursAfter(pre: string, t: string, p: string, k: nat)
    ensures OccursAt(pre + t, p, |pre| + k) <==> OccursAt(t, p, k)
  {
    if k + |p| <= |t| {
      assert (pre + t)[|pre| + k..|pre| + k + |p|] == t[k..k + |p|];
    }
  }

  /** With no occurrence starting inside `pre`, `strpos` on `pre + t` fails where it fails on `t`… */
  lemma IndexShiftNone(pre: string, t: string, p: string)
    requires forall j :: 0 <= j < |pre| ==> !OccursAt(pre + t, p, j)
    requires IndexOf(t, p).None?
    ensures IndexOf(pre + t, p).None?
  {
    forall k | |pre| <= k ensures !OccursAt(pre + t, p, k) {
      OccursAfter(pre, t, p, k - |pre|);
    }
  }

  /** … and finds what it finds on `t`, `|pre|` further on. */
  lemma IndexShiftSome(pre: string, t: string, p: string, i: nat)
    requires forall j :: 0 <= j < |pre| ==> !OccursAt(pre + t, p, j)
    requires IndexOf(t, p) == Some(i)
    ensures IndexOf(pre + t, p) == Some(|pre| + i)
  {
    forall k | |pre| <= k < |pre| + i ensures !OccursAt(pre + t, p, k) {
      OccursAfter(pre, t, p, k - |pre|);
    }
    OccursAfter(pre, t, p, i);
    IndexOfAt(pre + t, p, |pre| + i);
  }

  /**
   * An occurrence before which the second character of `p` never appears
   * is the one `strpos` finds.
   */
  lemma FirstOccurrence(s: string, p: string, i: nat)
    requires |p| >= 2 && OccursAt(s, p, i) && p[1] !in s[..i + 1]
    ensures IndexOf(s, p) == Some(i)
  {
    forall k | 0 <= k < i ensures !OccursAt(s, p, k) {
      if k + |p| <= |s| {
        assert s[k..k + |p|][1] == s[k + 1] == s[..i + 1][k + 1];
      }
    }
  }

  /** A text without the second character of `p` does not contain `p`. */
  lemma NoOccurrence(s: string, p: string)
    requires |p| >= 2 && p[1] !in s
    ensures IndexOf(s, p).None?
  {
    forall k ensures !OccursAt(s, p, k) {
      if 0 <= k && k + |p| <= |s| {
        assert s[k..k + |p|][1] == s[k + 1];
      }
    }
  }

  /** A text that lacks some character of `p` does not contain `p`. */
  lemma NoOccurrenceOf(s: string, p: string, j: nat)
    requires j < |p| && p[j] !in s
    ensures IndexOf(s, p).None?
  {
    forall k ensures !OccursAt(s, p, k) {
      if 0 <= k && k + |p| <= |s| {
        assert s[k..k + |p|][j] == s[k + j];
      }
    }
  }

  /** `strpos(s, p) !== false`. */
  predicate Contains(s: string, p: string)
  {
    IndexOf(s, p).Some?
  }

  /** Number of occurrences of character `c` in `s`. */
  function CountChar(s: string, c: char): nat
  {
    if s == [] then 0 else (if s[0] == c then 1 else 0) + CountChar(s[1..], c)
  }

  lemma {:induction false} CountCharConcat(a: string, b: string, c: char)
    ensures CountChar(a + b, c) == CountChar(a, c) + CountChar(b, c)
  {
    if a != [] {
      assert (a + b)[1..] == a[1..] + b;
      CountCharConcat(a[1..], b, c);
    } else {
      assert a + b == b;
    }
  }

  lemma {:induction false} CountCharZero(s: string, c: char)
    ensures CountChar(s, c) == 0 <==> c !in s
  {
    if s != [] {
      CountCharZero(s[1..], c);
      assert s == [s[0]] + s[1..];
    }
  }

  /** PHP's `strtoupper` on one character: ASCII letters only. */
  function UpperChar(c: char): char
  {
    if 'a' <= c <= 'z' then (c as int - 32) as char else c
  }

  /** PHP's `strtoupper`, one character at a time: only the ASCII letters change. */
  function ToUpper(s: string): (r: string)
    ensures |r| == |s|
    ensures forall i :: 0 <= i < |s| ==> r[i] == UpperChar(s[i])
  {
    if s == [] then [] else [UpperChar(s[0])] + ToUpper(s[1..])
  }

  function Spaces(n: nat): (r: string)
    ensures |r| == n && forall i :: 0 <= i < n ==> r[i] == ' '
  {
    if n == 0 then [] else [' '] + Spaces(n - 1)
  }

  /** The three parts of a concatenation are read back by slicing at their lengths. */
  lemma ConcatSlices(a: string, b: string, c: string)
    ensures (a + b + c)[..|a|] == a
    ensures (a + b + c)[|a|..|a| + |b|] == b
    ensures (a + b + c)[|a| + |b|..] == c
  {
  }

  /** Splicing `v` into `t` behind a prefix is splicing it into `pre + t`, `|pre|` further on. */
  lemma SpliceBehind(pre: string, t: string, v: string, i: nat, n: nat)
    requires i + n <= |t|
    ensures (pre + t)[..|pre| + i] + v + (pre + t)[|pre| + i + n..] == pre + (t[..i] + v + t[i + n..])
  {
    var u, a, b := pre + t, t[..i], t[i + n..];
    assert u[..|pre| + i] == pre + a;
    assert u[|pre| + i + n..] == b;
    calc {
      (pre + a) + v + b;
      pre + (a + v) + b;
      pre + ((a + v) + b);
    }
  }

  /** A text is what comes before an occurrence, the occurrence, and what comes after it. */
  lemma SplitAround(s: string, p: string, pos: nat)
    requires OccursAt(s, p, pos)
    ensures s == s[..pos] + (p + s[pos + |p|..])
  {
    assert s[pos..] == s[pos..pos + |p|] + s[pos + |p|..];
    assert s == s[..pos] + s[pos..];
  }

  /** `sprintf("%<width>s", s)`: right-justified, space-padded, never truncated. */
  function PadLeft(s: string, width: nat): (r: string)
    ensures |r| == if |s| < width then width else |s|
    ensures r[|r| - |s|..] == s
    ensures forall i :: 0 <= i < |r| - |s| ==> r[i] == ' '
  {
    if |s| < width then Spaces(width - |s|) + s else s
  }

  /**
   * `str_replace(search, replace, subject)` for one search string: a single
   * left-to-right scan that replaces non-overlapping occurrences and never
   * rescans inserted text. An empty search string leaves the subject alone.
   */
  function StrReplace(subject: string, search: string, replace: string): string
    decreases |subject|
  {
    if search == [] || |subject| < |search| then subject
    else if subject[..|search|] == search then replace + StrReplace(subject[|search|..], search, replace)
    else [subject[0]] + StrReplace(subject[1..], search, replace)
  }

  /** A text with no occurrence of the search string comes back unchanged. */
  lemma {:induction false} StrReplaceAbsent(subject: string, search: string, replace: string)
    requires !Contains(subject, search)
    ensures StrReplace(subject, search, replace) == subject
    decreases |subject|
  {
    if search != [] && |subject| >= |search| {
      assert !OccursAt(subject, search, 0);
      assert !Contains(subject[1..], search) by {
        forall k ensures !OccursAt(subject[1..], search, k) {
          if k >= 0 { OccursAtShift(subject, search, k + 1); }
        }
      }
      StrReplaceAbsent(subject[1..], search, replace);
      assert subject == [subject[0]] + subject[1..];
    }
  }

  /** A text that lacks the first character of the search string comes back unchanged. */
  lemma {:induction false} StrReplaceWithoutLead(subject: string, search: string, replace: string)
    requires search != [] && search[0] !in subject
    ensures StrReplace(subject, search, replace) == subject
  {
    assert !Contains(subject, search) by {
      forall k ensures !OccursAt(subject, search, k) {
        if 0 <= k && k + |search| <= |subject| {
          assert subject[k..k + |search|][0] == subject[k];
          assert subject[k] in subject;
        }
      }
    }
    StrReplaceAbsent(subject, search, replace);
  }

  /** A prefix that lacks the search string's first character is copied verbatim. */
  lemma {:induction false} StrReplaceKeepsPrefix(prefix: string, rest: string, search: string, replace: string)
    requires search != [] && search[0] !in prefix
    ensures StrReplace(prefix + rest, search, replace) == prefix + StrReplace(rest, search, replace)
    decreases |prefix|
  {
    var s := prefix + rest;
    if prefix == [] {
      assert s == rest;
    } else if |s| < |search| {
      assert StrReplace(rest, search, replace) == rest;
    } else {
      assert s[..|search|][0] == prefix[0];
      assert prefix[0] in prefix;
      assert s[..|search|] != search;
      assert s[1..] == prefix[1..] + rest;
      StrReplaceKeepsPrefix(prefix[1..], rest, search, replace);
      calc {
        StrReplace(s, search, replace);
        [s[0]] + StrReplace(s[1..], search, replace);
        [prefix[0]] + (prefix[1..] + StrReplace(rest, search, replace));
        { assert [prefix[0]] + prefix[1..] == prefix; }
        prefix + StrReplace(rest, search, replace);
      }
    }
  }

  /** An occurrence at the front is replaced and the scan resumes after it. */
  lemma StrReplaceAtFront(rest: string, search: string, replace: string)
    requires search != []
    ensures StrReplace(search + rest, search, replace) == replace + StrReplace(rest, search, replace)
  {
    var s := search + rest;
    assert s[..|search|] == search;
    assert s[|search|..] == rest;
  }

  /** A prefix in which no occurrence of the search string starts is copied verbatim. */
  lemma {:induction false} StrReplaceSkip(prefix: string, rest: string, search: string, replace: string)
    requires search != []
    requires forall j :: 0 <= j < |prefix| ==> !OccursAt(prefix + rest, search, j)
    ensures StrReplace(prefix + rest, search, replace) == prefix + StrReplace(rest, search, replace)
    decreases |prefix|
  {
    var s := prefix + rest;
    if prefix == [] {
      assert s == rest;
    } else if |s| < |search| {
      assert StrReplace(rest, search, replace) == rest;
    } else {
      assert !OccursAt(s, search, 0);
      assert s[1..] == prefix[1..] + rest;
      forall j | 0 <= j < |prefix| - 1 ensures !OccursAt(prefix[1..] + rest, search, j) {
        OccursAtShift(s, search, j + 1);
      }
      StrReplaceSkip(prefix[1..], rest, search, replace);
      assert [prefix[0]] + prefix[1..] == prefix;
    }
  }
}
