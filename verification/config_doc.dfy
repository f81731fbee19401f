/**
 * What reading and writing do to a well-formed settings file. Such a file is a
 * sequence of recognised assignments (`NAME=value` in the row's own pattern) separated
 * by text in which no recognised `NAME=` occurs. On these files the search of every
 * row finds the first assignment that its pattern covers, each substitution rewrites
 * exactly the assignments its pattern covers, and writing is idempotent; reading after
 * writing returns the written values, except that `CHECK_INTERVAL` reads the value of a
 * preceding `NETWORK_READY_CHECK_INTERVAL` assignment.
 */
module ConfigDoc {
  import opened Chars
  import opened Matcher
  import opened ConfigSh

  /** A row of the settings table. */
  type Row = k: nat | k < 18

  /** An assignment the source recognises: row `field` of the table set to `value`. */
  datatype Site = Site(field: Row, value: string)

  /** A settings file: `gap` text, an assignment, and so on, ending in a `tail`. */
  datatype Doc = End(tail: string) | Piece(gap: string, site: Site, rest: Doc)

  /** The text of an assignment: exactly what the write substitutes for it. */
  function SiteText(st: Site): string
  {
    Replacement(Table[st.field], st.value)
  }

  function Render(d: Doc): string
  {
    match d
    case End(tail) => tail
    case Piece(gap, site, rest) => gap + SiteText(site) + Render(rest)
  }

  /** A character that ends a word and is not `=`: what separates an assignment from the next text. */
  predicate Boundary(c: char)
  {
    !IsWordChar(c) && c != '='
  }

  /** A value the row's pattern captures in full, which (when quoted) holds no recognised `NAME=`. */
  predicate ValueOK(k: Row, v: string)
  {
    Fits(Table[k].shape, v) && (Table[k].shape == Quoted ==> NoAssignment(v))
  }

  /**
   * Well-formedness: gaps and the tail hold no recognised `NAME=`; a non-empty gap does not
   * end in a word character; text that follows an assignment starts with a boundary character
   * (so between two assignments there is at least one); every value fits its row.
   */
  predicate WFFrom(d: Doc, afterSite: bool)
  {
    match d
    case End(tail) => NoAssignment(tail) && (afterSite && tail != [] ==> Boundary(tail[0]))
    case Piece(gap, site, rest) =>
      && NoAssignment(gap)
      && (gap != [] ==> !IsWordChar(gap[|gap| - 1]))
      && (afterSite ==> gap != [] && Boundary(gap[0]))
      && ValueOK(site.field, site.value)
      && WFFrom(rest, true)
  }

  predicate WF(d: Doc)
  {
    WFFrom(d, false)
  }

  /** A match of row `k`'s pattern covers the value of an assignment to row `j`. */
  predicate Covers(k: Row, j: Row)
  {
    j == k || (k == CheckInterval && j == NetworkReadyCheckInterval)
  }

  /** The assignment after row `k`'s substitution with value `v`. */
  function RetargetSite(st: Site, k: Row, v: string): Site
  {
    if Covers(k, st.field) then Site(st.field, v) else st
  }

  /** Every assignment row `k`'s pattern covers, set to `v`. */
  function Retarget(d: Doc, k: Row, v: string): Doc
  {
    match d
    case End(_) => d
    case Piece(gap, site, rest) => Piece(gap, RetargetSite(site, k, v), Retarget(rest, k, v))
  }

  /** The first assignment row `k`'s pattern covers. */
  function FirstCovered(d: Doc, k: Row): Option<Site>
  {
    match d
    case End(_) => None
    case Piece(_, site, rest) => if Covers(k, site.field) then Some(site) else FirstCovered(rest, k)
  }

  // ----- where no match can start -----

  /** The shape of an occurrence of `NAME=`: name characters, then `=`. */
  lemma AssignmentChars(t: string, q: nat, k: Row)
    ensures |Table[k].name| > 0
    ensures OccursAt(t, q, Assignment(k)) ==>
              && q + |Table[k].name| < |t|
              && t[q + |Table[k].name|] == '='
              && forall i | q <= i < q + |Table[k].name| :: IsNameChar(t[i])
  {
    var m := Table[k].name;
    NameCharAt(k, 0);
    if OccursAt(t, q, Assignment(k)) {
      assert t[q + |m|] == t[q..q + |m| + 1][|m|] == (m + "=")[|m|];
      forall i | q <= i < q + |m|
        ensures IsNameChar(t[i])
      {
        assert t[i] == t[q..q + |m| + 1][i - q] == m[i - q];
        NameCharAt(k, i - q);
      }
    }
  }

  /** Every match of row `k`'s pattern starts with `NAME=`. */
  lemma MatchIsAssignment(t: string, q: nat, k: Row)
    requires q <= |t|
    ensures MatchHere(t[q..], Table[k]).Some? ==> OccursAt(t, q, Assignment(k))
  {
    MatchStartsWithName(t, q, Table[k]);
  }

  /** Where `NAME=` does not occur, the pattern of row `k` does not match. */
  lemma NoMatchWhereNoAssignment(t: string, n: nat, k: Row)
    requires forall q: nat | q < n :: !OccursAt(t, q, Assignment(k))
    ensures NoMatchBefore(t, n, Table[k])
  {
    forall q | 0 <= q < n && q <= |t|
      ensures MatchHere(t[q..], Table[k]).None?
    {
      MatchIsAssignment(t, q, k);
    }
  }

  /** No recognised `NAME=` starts in a gap, whatever follows it. */
  lemma GapClean(g: string, x: string, k: Row, q: nat)
    requires NoAssignment(g) && (g != [] ==> !IsWordChar(g[|g| - 1]))
    requires q < |g|
    ensures !OccursAt(g + x, q, Assignment(k))
  {
    var t := g + x;
    var a := Assignment(k);
    if q + |a| <= |g| {
      assert !OccursAt(g, q, a);
      assert t[q..q + |a|] == g[q..q + |a|];
    } else {
      AssignmentChars(t, q, k);
      assert t[|g| - 1] == g[|g| - 1];
    }
  }

  /** `NAME=` cannot start at a character that is not a name character. */
  lemma NotAtNonName(t: string, q: nat, k: Row)
    requires q < |t| && !IsNameChar(t[q])
    ensures !OccursAt(t, q, Assignment(k))
  {
    AssignmentChars(t, q, k);
  }

  lemma NameChars(k: Row)
    ensures |Table[k].name| > 0
    ensures forall i | 0 <= i < |Table[k].name| :: IsNameChar(Table[k].name[i])
  {
    AssignmentChars([], 0, k);
    forall i | 0 <= i < |Table[k].name|
      ensures IsNameChar(Table[k].name[i])
    {
      NameCharAt(k, i);
    }
  }

  /**
   * Inside a name `n` that `=` follows, an occurrence of `m=` (`m` made of name characters)
   * can only start where the rest of `n` is `m`.
   */
  lemma NameAlign(t: string, n: string, m: string, q: nat)
    requires |n| < |t| && t[|n|] == '='
    requires forall i | 0 <= i < |n| :: t[i] == n[i] && IsNameChar(n[i])
    requires forall i | 0 <= i < |m| :: IsNameChar(m[i])
    requires q <= |n|
    ensures OccursAt(t, q, m + "=") ==> n[q..] == m
  {
    if OccursAt(t, q, m + "=") {
      assert t[q + |m|] == t[q..q + |m| + 1][|m|] == '=';
      assert q + |m| == |n|;
      forall i | 0 <= i < |m|
        ensures n[q..][i] == m[i]
      {
        assert t[q + i] == t[q..q + |m| + 1][i] == (m + "=")[i];
      }
    }
  }

  /** Inside the name of an assignment, only its own `NAME=` (or `CHECK_INTERVAL=` inside `NETWORK_READY_CHECK_INTERVAL=`) starts. */
  lemma NameRegionClean(t: string, j: Row, k: Row, q: nat)
    requires |Table[j].name| < |t| && t[|Table[j].name|] == '='
    requires forall i | 0 <= i < |Table[j].name| :: t[i] == Table[j].name[i]
    requires q <= |Table[j].name|
    requires !(q == 0 && j == k) && !(j == NetworkReadyCheckInterval && k == CheckInterval && q == 14)
    ensures !OccursAt(t, q, Assignment(k))
  {
    NameChars(j);
    NameChars(k);
    NameAlign(t, Table[j].name, Table[k].name, q);
    NameSuffix(j, k, q);
  }

  /** No recognised `NAME=` starts inside a value that a boundary character or the end of the text follows. */
  lemma ValueRegionClean(t: string, j: Row, v: string, o: nat, k: Row, q: nat)
    requires o + |v| <= |t|
    requires forall i | o <= i < o + |v| :: t[i] == v[i - o]
    requires ValueOK(j, v)
    requires o + |v| < |t| ==> Boundary(t[o + |v|])
    requires o <= q < o + |v|
    ensures !OccursAt(t, q, Assignment(k))
  {
    var a := Assignment(k);
    var e := o + |v|;
    AssignmentChars(t, q, k);
    if q + |a| <= e {
      assert t[q..q + |a|] == v[q - o..q - o + |a|];
      if Table[j].shape == Quoted {
        assert !OccursAt(v, q - o, a);
      } else {
        assert InClass(Table[j].shape, v[q + |a| - 1 - o]);
      }
    }
  }

  /** The literal parts around a value hold no name character; a closing text starts with a boundary character. */
  lemma LiteralChars(sh: Shape)
    ensures forall i | 0 <= i < |Prelude(sh)| :: !IsNameChar(Prelude(sh)[i])
    ensures forall i | 0 <= i < |Closing(sh)| :: !IsNameChar(Closing(sh)[i])
    ensures Closing(sh) != [] ==> Boundary(Closing(sh)[0])
  {
  }

  /** Positions in a concatenation `n + "=" + pre + v + cl + y`. */
  lemma Layout(n: string, pre: string, v: string, cl: string, y: string)
    ensures var t := n + "=" + pre + v + cl + y;
            var o := |n| + 1 + |pre|;
            var e := o + |v|;
            && |t| == e + |cl| + |y|
            && (forall i | 0 <= i < |n| :: t[i] == n[i])
            && t[|n|] == '='
            && (forall i | |n| < i < o :: t[i] == pre[i - |n| - 1])
            && (forall i | o <= i < e :: t[i] == v[i - o])
            && (forall i | e <= i < e + |cl| :: t[i] == cl[i - e])
            && (forall i | e + |cl| <= i < |t| :: t[i] == y[i - e - |cl|])
  {
  }

  /** Where the parts of an assignment's text sit in `SiteText(st) + y`. */
  lemma SiteLayout(st: Site, y: string)
    requires y == [] || Boundary(y[0])
    ensures var t := SiteText(st) + y;
            var n := Table[st.field].name;
            var o := |Opening(Table[st.field])|;
            && o == |n| + 1 + |Prelude(Table[st.field].shape)|
            && |SiteText(st)| == o + |st.value| + |Closing(Table[st.field].shape)|
            && |n| < |t| && t[|n|] == '='
            && (forall i | 0 <= i < |n| :: t[i] == n[i])
            && (forall i | |n| < i < o :: !IsNameChar(t[i]))
            && (forall i | o <= i < o + |st.value| :: t[i] == st.value[i - o])
            && (o + |st.value| < |t| ==> Boundary(t[o + |st.value|]))
            && (forall i | o + |st.value| <= i < |SiteText(st)| :: !IsNameChar(t[i]))
  {
    var f := Table[st.field];
    var pre := Prelude(f.shape);
    var cl := Closing(f.shape);
    assert SiteText(st) + y == f.name + "=" + pre + st.value + cl + y;
    Layout(f.name, pre, st.value, cl, y);
    LiteralChars(f.shape);
  }

  /**
   * No recognised `NAME=` starts inside an assignment's text except its own at the start,
   * and `CHECK_INTERVAL=` 14 characters into a `NETWORK_READY_CHECK_INTERVAL` assignment.
   */
  lemma SiteClean(st: Site, y: string, k: Row, q: nat)
    requires ValueOK(st.field, st.value)
    requires y == [] || Boundary(y[0])
    requires q < |SiteText(st)|
    requires !(q == 0 && st.field == k)
    requires !(st.field == NetworkReadyCheckInterval && k == CheckInterval && q == 14)
    ensures !OccursAt(SiteText(st) + y, q, Assignment(k))
  {
    var t := SiteText(st) + y;
    var j := st.field;
    var o := |Opening(Table[j])|;
    SiteLayout(st, y);
    if q <= |Table[j].name| {
      NameRegionClean(t, j, k, q);
    } else if q < o {
      NotAtNonName(t, q, k);
    } else if q < o + |st.value| {
      ValueRegionClean(t, j, st.value, o, k, q);
    } else {
      NotAtNonName(t, q, k);
    }
  }

  // ----- one assignment -----

  /** What may follow an assignment: nothing, or text that starts with a boundary character. */
  predicate Separated(y: string)
  {
    y == [] || Boundary(y[0])
  }

  /** `NETWORK_READY_CHECK_INTERVAL=v` is `NETWORK_READY_` followed by `CHECK_INTERVAL=v`. */
  lemma NetworkReadySplit(v: string)
    ensures SiteText(Site(NetworkReadyCheckInterval, v)) == "NETWORK_READY_" + SiteText(Site(CheckInterval, v))
  {
    NestedRows();
    var n := Table[CheckInterval].name;
    assert SiteText(Site(CheckInterval, v)) == n + "=" + v;
    assert SiteText(Site(NetworkReadyCheckInterval, v)) == ("NETWORK_READY_" + n) + "=" + v;
  }

  /** The two rows whose patterns overlap are both integer rows. */
  lemma NestedRows()
    ensures Table[CheckInterval].shape == Integer && Table[NetworkReadyCheckInterval].shape == Integer
    ensures Table[NetworkReadyCheckInterval].name == "NETWORK_READY_" + Table[CheckInterval].name
  {
  }

  /** No match of row `k`'s pattern starts in the first `n` characters of an assignment's text it does not begin there. */
  lemma SiteNoMatch(st: Site, y: string, k: Row, n: nat)
    requires ValueOK(st.field, st.value) && Separated(y)
    requires n <= |SiteText(st)|
    requires !Covers(k, st.field) || (st.field != k && n <= 14)
    ensures NoMatchBefore(SiteText(st) + y, n, Table[k])
  {
    forall q: nat | q < n
      ensures !OccursAt(SiteText(st) + y, q, Assignment(k))
    {
      SiteClean(st, y, k, q);
    }
    NoMatchWhereNoAssignment(SiteText(st) + y, n, k);
  }

  /** Row `k`'s substitution rewrites the assignment's value when its pattern covers it, and copies it otherwise. */
  lemma SiteSub(st: Site, y: string, k: Row, v: string)
    requires ValueOK(st.field, st.value) && Separated(y)
    ensures var f := Table[k];
            var r := Replacement(f, v);
            Sub(SiteText(st) + y, f, r) == SiteText(RetargetSite(st, k, v)) + Sub(y, f, r)
  {
    if st.field == k {
      SubAtMatch(y, Table[k], Replacement(Table[k], v), st.value);
    } else if Covers(k, st.field) {
      SiteSubNested(st.value, y, v);
    } else {
      SiteNoMatch(st, y, k, |SiteText(st)|);
      SubUnmatchedPrefix(SiteText(st), y, Table[k], Replacement(Table[k], v));
    }
  }

  /** The `CHECK_INTERVAL` substitution rewrites the value of a `NETWORK_READY_CHECK_INTERVAL` assignment. */
  lemma SiteSubNested(w: string, y: string, v: string)
    requires ValueOK(NetworkReadyCheckInterval, w) && Separated(y)
    ensures var f := Table[CheckInterval];
            var r := Replacement(f, v);
            Sub(SiteText(Site(NetworkReadyCheckInterval, w)) + y, f, r) == SiteText(Site(NetworkReadyCheckInterval, v)) + Sub(y, f, r)
  {
    NestedRows();
    SiteNoMatch(Site(NetworkReadyCheckInterval, w), y, CheckInterval, 14);
    var f := Table[CheckInterval];
    var g := Table[NetworkReadyCheckInterval];
    SubInside(f, g, "NETWORK_READY_", w, y, Replacement(f, v));
    SuffixReplacement(f, g, "NETWORK_READY_", v);
  }

  /** Row `k`'s search reads the assignment's value when its pattern covers it, and looks further otherwise. */
  lemma SiteExtract(st: Site, y: string, k: Row)
    requires ValueOK(st.field, st.value) && Separated(y)
    ensures Extract(SiteText(st) + y, Table[k]) == if Covers(k, st.field) then st.value else Extract(y, Table[k])
  {
    if st.field == k {
      ReplacementMatches(Table[k], st.value, y);
      ExtractHere(SiteText(st) + y, Table[k]);
    } else if Covers(k, st.field) {
      SiteExtractNested(st.value, y);
    } else {
      SiteNoMatch(st, y, k, |SiteText(st)|);
      ExtractSkip(SiteText(st), y, Table[k]);
    }
  }

  /** The `CHECK_INTERVAL` search reads the value of a `NETWORK_READY_CHECK_INTERVAL` assignment. */
  lemma SiteExtractNested(w: string, y: string)
    requires ValueOK(NetworkReadyCheckInterval, w) && Separated(y)
    ensures Extract(SiteText(Site(NetworkReadyCheckInterval, w)) + y, Table[CheckInterval]) == w
  {
    NestedRows();
    SiteNoMatch(Site(NetworkReadyCheckInterval, w), y, CheckInterval, 14);
    ExtractInside(Table[CheckInterval], Table[NetworkReadyCheckInterval], "NETWORK_READY_", w, y);
  }

  // ----- whole documents -----

  /** No match of any row starts in a gap. */
  lemma GapNoMatch(g: string, x: string, k: Row)
    requires NoAssignment(g) && (g != [] ==> !IsWordChar(g[|g| - 1]))
    ensures NoMatchBefore(g + x, |g|, Table[k])
  {
    forall q: nat | q < |g|
      ensures !OccursAt(g + x, q, Assignment(k))
    {
      GapClean(g, x, k, q);
    }
    NoMatchWhereNoAssignment(g + x, |g|, k);
  }

  /** No match of any row starts in the tail. */
  lemma TailNoMatch(t: string, k: Row)
    requires NoAssignment(t)
    ensures NoMatchBefore(t + [], |t|, Table[k])
  {
    assert t + [] == t;
    NoMatchWhereNoAssignment(t, |t|, k);
  }

  /** What follows an assignment in a well-formed file starts with a boundary character. */
  lemma RenderSeparated(d: Doc)
    requires WFFrom(d, true)
    ensures Separated(Render(d))
  {
    match d
    case End(_) =>
    case Piece(gap, site, rest) =>
      AppendRegroup(gap, SiteText(site), Render(rest));
      FirstOfAppend(gap, SiteText(site) + Render(rest));
  }

  lemma FirstOfAppend(a: string, b: string)
    requires a != []
    ensures (a + b)[0] == a[0]
  {
  }

  /** Row `k`'s substitution sets exactly the assignments its pattern covers to `v`. */
  lemma {:induction false} DocSub(d: Doc, b: bool, k: Row, v: string)
    requires WFFrom(d, b)
    ensures Sub(Render(d), Table[k], Replacement(Table[k], v)) == Render(Retarget(d, k, v))
  {
    var f := Table[k];
    var r := Replacement(f, v);
    match d
    case End(tail) =>
      TailNoMatch(tail, k);
      SubUnmatchedPrefix(tail, [], f, r);
      assert tail + [] == tail;
    case Piece(gap, site, rest) =>
      var y := Render(rest);
      var x := SiteText(site) + y;
      AppendRegroup(gap, SiteText(site), y);
      GapNoMatch(gap, x, k);
      SubUnmatchedPrefix(gap, x, f, r);
      RenderSeparated(rest);
      SiteSub(site, y, k, v);
      DocSub(rest, true, k, v);
      AppendRegroup(gap, SiteText(RetargetSite(site, k, v)), Render(Retarget(rest, k, v)));
  }

  /** Row `k`'s search reads the value of the first assignment its pattern covers, or `""`. */
  lemma {:induction false} DocExtract(d: Doc, b: bool, k: Row)
    requires WFFrom(d, b)
    ensures FirstCovered(d, k).Some? ==> Extract(Render(d), Table[k]) == FirstCovered(d, k).value.value
    ensures FirstCovered(d, k).None? ==> Extract(Render(d), Table[k]) == ""
  {
    var f := Table[k];
    match d
    case End(tail) =>
      TailNoMatch(tail, k);
      ExtractSkip(tail, [], f);
      assert tail + [] == tail;
    case Piece(gap, site, rest) =>
      var y := Render(rest);
      var x := SiteText(site) + y;
      AppendRegroup(gap, SiteText(site), y);
      GapNoMatch(gap, x, k);
      ExtractSkip(gap, x, f);
      RenderSeparated(rest);
      SiteExtract(site, y, k);
      DocExtract(rest, true, k);
  }
}
