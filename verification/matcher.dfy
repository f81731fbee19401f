/**
 * The four assignment patterns of the settings file and the two regular-expression
 * operations applied to them: leftmost search (`re.search`) and replace-all (`re.sub`).
 *
 * Every pattern has the form  NAME=<opening> (<class>+ or <class>*) <closing>:
 *   Quoted     NAME="([^"]*)"
 *   Bareword   NAME=(\w+)
 *   Integer    NAME=(\d+)
 *   Megabytes  NAME=\$\(\((\d+)\*1024\*1024\)\)
 * For each of them the regular expression has at most one match at a given position,
 * the one whose capture is the maximal run of class characters there: a shorter run
 * would be followed by a class character, which is neither the closing text's first
 * character nor (for the two open-ended shapes) what greedy matching stops at.
 */
module Matcher {
  import opened Chars

  datatype Option<T> = None | Some(value: T)

  datatype Shape = Quoted | Bareword | Integer | Megabytes

  /** One row of the settings table: the variable name, its pattern shape and its write default. */
  datatype Field = Field(name: string, shape: Shape, default: string)

  /** A match at the start of a text: the capture is `t[|Opening(f)|..capEnd]`, the match `t[..len]`. */
  datatype Hit = Hit(capEnd: nat, len: nat)

  /** Literal text between `NAME=` and the captured value. */
  function Prelude(sh: Shape): string
  {
    match sh
    case Quoted => "\""
    case Megabytes => "$(("
    case _ => ""
  }

  /** Literal text after the captured value. */
  function Closing(sh: Shape): string
  {
    match sh
    case Quoted => "\""
    case Megabytes => "*1024*1024))"
    case _ => ""
  }

  function Opening(f: Field): string
  {
    f.name + "=" + Prelude(f.shape)
  }

  /** The class of characters a captured value is made of. */
  predicate InClass(sh: Shape, c: char)
  {
    match sh
    case Quoted => c != '"'
    case Bareword => IsWordChar(c)
    case _ => IsDigit(c)
  }

  /** A value the pattern can capture: class characters only, at least one unless quoted. */
  predicate Fits(sh: Shape, v: string)
  {
    (sh == Quoted || |v| > 0) && forall i | 0 <= i < |v| :: InClass(sh, v[i])
  }

  predicate StartsWith(t: string, p: string)
  {
    |p| <= |t| && t[..|p|] == p
  }

  /** `w` occurs in `t` at position `p`. */
  predicate OccursAt(t: string, p: nat, w: string)
  {
    p + |w| <= |t| && t[p..p + |w|] == w
  }

  /** No match of the field's pattern starts before position `n` of `s`. */
  predicate NoMatchBefore(s: string, n: nat, f: Field)
  {
    forall q {:trigger MatchHere(s[q..], f)} | 0 <= q < n && q <= |s| :: MatchHere(s[q..], f).None?
  }

  /** Length of the maximal run of class characters at the start of `t` (greedy `+`/`*`). */
  function Run(sh: Shape, t: string): (n: nat)
    ensures n <= |t|
    ensures forall i | 0 <= i < n :: InClass(sh, t[i])
    ensures n < |t| ==> !InClass(sh, t[n])
    decreases |t|
  {
    if t != [] && InClass(sh, t[0]) then 1 + Run(sh, t[1..]) else 0
  }

  /** The match of the field's pattern that starts exactly at the beginning of `t`, if any. */
  function MatchHere(t: string, f: Field): (m: Option<Hit>)
    ensures m.Some? ==> 0 < m.value.len <= |t|
  {
    var o := |Opening(f)|;
    if !StartsWith(t, Opening(f)) then None
    else
      var n := Run(f.shape, t[o..]);
      if (f.shape == Quoted || n > 0) && StartsWith(t[o + n..], Closing(f.shape))
      then Some(Hit(o + n, o + n + |Closing(f.shape)|))
      else None
  }

  /**
   * Soundness of `MatchHere` with respect to the regular expression: a match consists of
   * the opening text, a value of the pattern's class and the closing text, and for the
   * open-ended shapes it is not followed by another class character (greedy matching).
   */
  lemma MatchHereSound(t: string, f: Field)
    requires MatchHere(t, f).Some?
    ensures StartsWith(t, Opening(f))
    ensures |Opening(f)| <= MatchHere(t, f).value.capEnd
    ensures MatchHere(t, f).value.len == MatchHere(t, f).value.capEnd + |Closing(f.shape)|
    ensures t[MatchHere(t, f).value.capEnd..MatchHere(t, f).value.len] == Closing(f.shape)
    ensures Fits(f.shape, t[|Opening(f)|..MatchHere(t, f).value.capEnd])
    ensures f.shape in {Bareword, Integer} && MatchHere(t, f).value.len < |t| ==> !InClass(f.shape, t[MatchHere(t, f).value.len])
  {
    var o := |Opening(f)|;
    var n := Run(f.shape, t[o..]);
    assert forall i | 0 <= i < n :: t[o..o + n][i] == t[o..][i];
    assert t[o + n..][..|Closing(f.shape)|] == t[o + n..o + n + |Closing(f.shape)|];
  }

  /** The value captured by a match at the beginning of `t`. */
  function Capture(t: string, f: Field): (v: string)
    requires MatchHere(t, f).Some?
    ensures Fits(f.shape, v)
  {
    MatchHereSound(t, f);
    t[|Opening(f)|..MatchHere(t, f).value.capEnd]
  }

  /** `re.search`: the leftmost position at which the field's pattern matches. */
  function Find(s: string, f: Field): (p: Option<nat>)
    ensures p.Some? ==> p.value < |s| && MatchHere(s[p.value..], f).Some?
    decreases |s|
  {
    if s == [] then None
    else if MatchHere(s, f).Some? then Some(0)
    else
      match Find(s[1..], f)
      case Some(q) =>
        assert s[1..][q..] == s[q + 1..];
        Some(q + 1)
      case None => None
  }

  /** `Find` reports the leftmost match: no match starts before the position it returns. */
  lemma {:induction false} FindLeftmost(s: string, f: Field)
    ensures NoMatchBefore(s, if Find(s, f).Some? then Find(s, f).value else |s|, f)
    decreases |s|
  {
    if s != [] && MatchHere(s, f).None? {
      FindLeftmost(s[1..], f);
      var n := if Find(s, f).Some? then Find(s, f).value else |s|;
      forall q | 0 <= q < n && q <= |s|
        ensures MatchHere(s[q..], f).None?
      {
        if q == 0 {
          assert s[q..] == s;
        } else {
          assert s[q..] == s[1..][q - 1..];
        }
      }
    }
  }

  /**
   * `match.group(1)` of `re.search`, or the empty string when there is no match: the scan
   * tries each position from the left and captures at the first one where the pattern matches.
   */
  function Extract(s: string, f: Field): (v: string)
    ensures v == "" || Fits(f.shape, v)
    decreases |s|
  {
    if s == [] then ""
    else if MatchHere(s, f).Some? then Capture(s, f)
    else Extract(s[1..], f)
  }

  /** `re.sub(pattern, r, s)`: scan left to right, replace each match and resume after it. */
  function Sub(s: string, f: Field, r: string): string
    decreases |s|
  {
    if s == [] then []
    else match MatchHere(s, f)
      case Some(h) => r + Sub(s[h.len..], f, r)
      case None => [s[0]] + Sub(s[1..], f, r)
  }

  /** The text the source substitutes for a match: the pattern's literal parts around `v`. */
  function Replacement(f: Field, v: string): string
  {
    Opening(f) + v + Closing(f.shape)
  }

  /** Run length is determined by its two defining properties. */
  lemma RunIs(sh: Shape, t: string, n: nat)
    requires n <= |t|
    requires forall i | 0 <= i < n :: InClass(sh, t[i])
    requires n < |t| ==> !InClass(sh, t[n])
    ensures Run(sh, t) == n
  {
  }

  /**
   * Completeness of `MatchHere` with respect to the regular expression: whenever `t`
   * begins with the pattern's opening text, a value of the pattern's class and its
   * closing text (and, for the open-ended shapes, the value cannot be extended
   * greedily), the match at the beginning of `t` captures exactly that value.
   */
  lemma MatchHereComplete(t: string, f: Field, v: string)
    requires Fits(f.shape, v)
    requires StartsWith(t, Opening(f) + v + Closing(f.shape))
    requires f.shape in {Bareword, Integer} && |Opening(f) + v| < |t| ==> !InClass(f.shape, t[|Opening(f) + v|])
    ensures MatchHere(t, f).Some?
    ensures MatchHere(t, f).value.len == |Opening(f)| + |v| + |Closing(f.shape)|
    ensures Capture(t, f) == v
  {
    var o := Opening(f);
    var c := Closing(f.shape);
    StartsWithConcat(t, o + v, c);
    StartsWithConcat(t, o, v);
    var u := t[|o|..];
    assert u[|v|..] == t[|o + v|..];
    if |v| < |u| && (f.shape == Quoted || f.shape == Megabytes) {
      assert u[|v|] == u[|v|..][0] == c[0];
    }
    RunOfValue(f.shape, u, v);
  }

  lemma StartsWithConcat(t: string, x: string, y: string)
    requires StartsWith(t, x + y)
    ensures StartsWith(t, x)
    ensures StartsWith(t[|x|..], y)
  {
    assert t[..|x|] == (x + y)[..|x|];
    assert t[|x|..][..|y|] == (x + y)[|x|..];
  }

  /** The greedy run at the start of `u` is a value that `u` starts with and that no class character follows. */
  lemma RunOfValue(sh: Shape, u: string, v: string)
    requires Fits(sh, v) && StartsWith(u, v)
    requires |v| < |u| ==> !InClass(sh, u[|v|])
    ensures Run(sh, u) == |v|
  {
    forall i | 0 <= i < |v|
      ensures InClass(sh, u[i])
    {
      assert u[i] == u[..|v|][i];
    }
    RunIs(sh, u, |v|);
  }

  /** A rendered assignment reads back as the value it was rendered with. */
  lemma ReplacementMatches(f: Field, v: string, rest: string)
    requires Fits(f.shape, v)
    requires f.shape in {Bareword, Integer} && rest != [] ==> !InClass(f.shape, rest[0])
    ensures MatchHere(Replacement(f, v) + rest, f).Some?
    ensures MatchHere(Replacement(f, v) + rest, f).value.len == |Replacement(f, v)|
    ensures Capture(Replacement(f, v) + rest, f) == v
  {
    var t := Replacement(f, v) + rest;
    assert t[..|Replacement(f, v)|] == Replacement(f, v);
    if f.shape in {Bareword, Integer} && |Opening(f) + v| < |t| {
      assert t[|Opening(f) + v|] == rest[0];
    }
    MatchHereComplete(t, f, v);
  }

  /** The leftmost match at position 0 is the one `Extract` reads. */
  lemma ExtractHere(t: string, f: Field)
    requires MatchHere(t, f).Some?
    ensures Extract(t, f) == Capture(t, f)
  {
  }

  /** Where no match starts in a non-empty `a`, none starts at `a + b` or inside `a[1..]`. */
  lemma NoMatchShift(a: string, b: string, f: Field)
    requires a != [] && NoMatchBefore(a + b, |a|, f)
    ensures MatchHere(a + b, f).None?
    ensures (a + b)[1..] == a[1..] + b
    ensures NoMatchBefore(a[1..] + b, |a| - 1, f)
  {
    var s := a + b;
    var s' := a[1..] + b;
    assert s[0..] == s;
    assert s[1..] == s';
    forall q | 0 <= q < |a| - 1
      ensures MatchHere(s'[q..], f).None?
    {
      assert s'[q..] == s[q + 1..];
    }
  }

  /** Text in which no match starts can be skipped by the search. */
  lemma {:induction false} ExtractSkip(a: string, b: string, f: Field)
    requires NoMatchBefore(a + b, |a|, f)
    ensures Extract(a + b, f) == Extract(b, f)
    decreases |a|
  {
    if a != [] {
      NoMatchShift(a, b, f);
      ExtractSkip(a[1..], b, f);
    } else {
      assert a + b == b;
    }
  }

  /**
   * `Extract` is the capture of the leftmost match: at the position `Find` reports, or
   * the empty string when the pattern occurs nowhere.
   */
  lemma {:induction false} ExtractLeftmost(s: string, f: Field)
    ensures Find(s, f).Some? ==> Extract(s, f) == Capture(s[Find(s, f).value..], f)
    ensures Find(s, f).None? ==> Extract(s, f) == ""
    decreases |s|
  {
    if s != [] {
      if MatchHere(s, f).Some? {
        assert s[0..] == s;
      } else {
        ExtractLeftmost(s[1..], f);
        if Find(s[1..], f).Some? {
          assert s[1..][Find(s[1..], f).value..] == s[Find(s[1..], f).value + 1..];
        }
      }
    }
  }

  /** `Find` is pinned down by its leftmost-match property. */
  lemma FindIs(s: string, f: Field, p: nat)
    requires p < |s| && MatchHere(s[p..], f).Some?
    requires NoMatchBefore(s, p, f)
    ensures Find(s, f).Some? && Find(s, f).value == p
  {
    FindLeftmost(s, f);
  }

  /** Replace-all copies every character at which no match starts. */
  lemma {:induction false} SubUnmatchedPrefix(a: string, b: string, f: Field, r: string)
    requires NoMatchBefore(a + b, |a|, f)
    ensures Sub(a + b, f, r) == a + Sub(b, f, r)
    decreases |a|
  {
    if a != [] {
      NoMatchShift(a, b, f);
      SubUnmatchedPrefix(a[1..], b, f, r);
      calc {
        Sub(a + b, f, r);
        [a[0]] + Sub(a[1..] + b, f, r);
        [a[0]] + (a[1..] + Sub(b, f, r));
        { assert a == [a[0]] + a[1..]; }
        a + Sub(b, f, r);
      }
    } else {
      assert a + b == b;
    }
  }

  /** Where the pattern does not occur, replace-all leaves the text unchanged and inserts nothing. */
  lemma SubAbsent(s: string, f: Field, r: string)
    requires Find(s, f).None?
    ensures Sub(s, f, r) == s
  {
    FindLeftmost(s, f);
    assert s + [] == s;
    SubUnmatchedPrefix(s, [], f, r);
  }

  /** At a match, replace-all emits the replacement and resumes after the match. */
  lemma SubAtMatch(b: string, f: Field, r: string, v: string)
    requires Fits(f.shape, v)
    requires f.shape in {Bareword, Integer} && b != [] ==> !InClass(f.shape, b[0])
    ensures Sub(Replacement(f, v) + b, f, r) == r + Sub(b, f, r)
  {
    ReplacementMatches(f, v, b);
    var t := Replacement(f, v) + b;
    assert t[|Replacement(f, v)|..] == b;
  }

  /** After text in which no match starts, replace-all rewrites the match that follows it. */
  lemma SubPrefixThenMatch(p: string, v: string, b: string, f: Field, r: string)
    requires NoMatchBefore(p + (Replacement(f, v) + b), |p|, f)
    requires Fits(f.shape, v)
    requires f.shape in {Bareword, Integer} && b != [] ==> !InClass(f.shape, b[0])
    ensures Sub(p + (Replacement(f, v) + b), f, r) == p + (r + Sub(b, f, r))
  {
    SubUnmatchedPrefix(p, Replacement(f, v) + b, f, r);
    SubAtMatch(b, f, r, v);
  }

  /** After text in which no match starts, the search reads the match that follows it. */
  lemma ExtractPrefixThenMatch(p: string, v: string, b: string, f: Field)
    requires NoMatchBefore(p + (Replacement(f, v) + b), |p|, f)
    requires Fits(f.shape, v)
    requires f.shape in {Bareword, Integer} && b != [] ==> !InClass(f.shape, b[0])
    ensures Extract(p + (Replacement(f, v) + b), f) == v
  {
    ExtractSkip(p, Replacement(f, v) + b, f);
    ReplacementMatches(f, v, b);
    ExtractHere(Replacement(f, v) + b, f);
  }

  /** Every match starts with the field's name and `=`. */
  lemma MatchStartsWithName(t: string, q: nat, f: Field)
    requires q <= |t|
    ensures MatchHere(t[q..], f).Some? ==> OccursAt(t, q, f.name + "=")
  {
    if MatchHere(t[q..], f).Some? {
      MatchHereSound(t[q..], f);
      var o := Opening(f);
      var a := f.name + "=";
      assert o == a + Prelude(f.shape);
      assert t[q..][..|o|] == o;
      assert t[q..q + |a|] == o[..|a|] == a;
    }
  }

  /** When `g`'s name is `p` followed by `f`'s name, `g`'s assignment text is `p` followed by `f`'s. */
  lemma SuffixReplacement(f: Field, g: Field, p: string, v: string)
    requires g.name == p + f.name && g.shape == f.shape
    ensures Replacement(g, v) == p + Replacement(f, v)
  {
    var e := "=" + Prelude(f.shape);
    var c := Closing(f.shape);
    assert Replacement(g, v) == (((p + f.name) + e) + v) + c;
    assert Replacement(f, v) == ((f.name + e) + v) + c;
    ConcatRegroup(p, f.name, e, v, c);
  }

  lemma ConcatRegroup(p: string, n: string, e: string, v: string, c: string)
    ensures (((p + n) + e) + v) + c == p + (((n + e) + v) + c)
  {
  }

  lemma AppendRegroup(p: string, b: string, y: string)
    ensures (p + b) + y == p + (b + y)
  {
  }

  /** The search for `f` reads the value of an assignment to `g` whose name ends with `f`'s. */
  lemma ExtractInside(f: Field, g: Field, p: string, w: string, y: string)
    requires g.name == p + f.name && g.shape == f.shape
    requires NoMatchBefore(Replacement(g, w) + y, |p|, f)
    requires Fits(f.shape, w)
    requires f.shape in {Bareword, Integer} && y != [] ==> !InClass(f.shape, y[0])
    ensures Extract(Replacement(g, w) + y, f) == w
  {
    var b := Replacement(f, w);
    SuffixReplacement(f, g, p, w);
    AppendRegroup(p, b, y);
    ExtractPrefixThenMatch(p, w, y, f);
  }

  /** Replace-all for `f` rewrites the value of an assignment to `g` whose name ends with `f`'s. */
  lemma SubInside(f: Field, g: Field, p: string, w: string, y: string, r: string)
    requires g.name == p + f.name && g.shape == f.shape
    requires NoMatchBefore(Replacement(g, w) + y, |p|, f)
    requires Fits(f.shape, w)
    requires f.shape in {Bareword, Integer} && y != [] ==> !InClass(f.shape, y[0])
    ensures Sub(Replacement(g, w) + y, f, r) == (p + r) + Sub(y, f, r)
  {
    var b := Replacement(f, w);
    SuffixReplacement(f, g, p, w);
    AppendRegroup(p, b, y);
    SubPrefixThenMatch(p, w, y, f, r);
    AppendRegroup(p, r, Sub(y, f, r));
  }
}
