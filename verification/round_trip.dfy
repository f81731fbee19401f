/**
 * Writing a well-formed settings file: after the first `n` substitutions every assignment
 * holds its staged value, so the whole write sets each assignment to the value of its own
 * key (or the default), writing twice equals writing once, and reading back returns what
 * was written.
 */
module RoundTrip {
  import opened Chars
  import opened Matcher
  import opened ConfigSh
  import opened ConfigDoc

  /** Every value the write would use fits its row. */
  predicate ValuesOK(config: map<string, string>)
  {
    forall k: Row :: ValueOK(k, ValueFor(config, k))
  }

  /**
   * The value an assignment to row `j` holds after the first `n` substitutions, when it held `w`:
   * its own key's value once row `j` has run, the `CHECK_INTERVAL` value on a
   * `NETWORK_READY_CHECK_INTERVAL` assignment between those two rows, `w` before.
   */
  function StagedValue(config: map<string, string>, n: nat, j: Row, w: string): string
  {
    if j < n then ValueFor(config, j)
    else if j == NetworkReadyCheckInterval && CheckInterval < n then ValueFor(config, CheckInterval)
    else w
  }

  function StageSite(st: Site, config: map<string, string>, n: nat): Site
  {
    Site(st.field, StagedValue(config, n, st.field, st.value))
  }

  /** The document after the first `n` substitutions. */
  function Stage(d: Doc, config: map<string, string>, n: nat): Doc
  {
    match d
    case End(_) => d
    case Piece(gap, site, rest) => Piece(gap, StageSite(site, config, n), Stage(rest, config, n))
  }

  /** A value without `=` holds no recognised `NAME=`. */
  lemma NoEqualsNoAssignment(v: string)
    requires forall i | 0 <= i < |v| :: v[i] != '='
    ensures NoAssignment(v)
  {
    forall k: nat, q: nat | k < |Table| && q <= |v|
      ensures !OccursAt(v, q, Assignment(k))
    {
      AssignmentChars(v, q, k);
    }
  }

  /** Every default fits its row. */
  lemma DefaultOK(k: Row)
    ensures ValueOK(k, Table[k].default)
  {
    DefaultFits(k);
    NoEqualsNoAssignment(Table[k].default);
  }

  /** The write's values fit when every submitted value of a recognised key fits its row. */
  lemma SubmittedValuesOK(config: map<string, string>)
    requires forall k: Row | Table[k].name in config :: ValueOK(k, config[Table[k].name])
    ensures ValuesOK(config)
  {
    forall k: Row
      ensures ValueOK(k, ValueFor(config, k))
    {
      if Table[k].name !in config {
        DefaultOK(k);
      }
    }
  }

  // ----- one substitution -----

  /** A rewritten assignment keeps a fitting value. */
  lemma RetargetSiteOK(st: Site, k: Row, v: string)
    requires ValueOK(st.field, st.value) && ValueOK(k, v)
    ensures ValueOK(RetargetSite(st, k, v).field, RetargetSite(st, k, v).value)
  {
    if Covers(k, st.field) && st.field != k {
      NestedRows();
    }
  }

  /** A substitution with a fitting value keeps the document well-formed. */
  lemma {:induction false} RetargetWF(d: Doc, b: bool, k: Row, v: string)
    requires WFFrom(d, b) && ValueOK(k, v)
    ensures WFFrom(Retarget(d, k, v), b)
  {
    match d
    case End(_) =>
    case Piece(gap, site, rest) =>
      RetargetSiteOK(site, k, v);
      RetargetWF(rest, true, k, v);
  }

  /** Row `n`'s substitution takes an assignment from stage `n` to stage `n + 1`. */
  lemma StageSiteStep(st: Site, config: map<string, string>, n: nat)
    requires n < |Table|
    ensures RetargetSite(StageSite(st, config, n), n, ValueFor(config, n)) == StageSite(st, config, n + 1)
  {
  }

  lemma {:induction false} StageStep(d: Doc, config: map<string, string>, n: nat)
    requires n < |Table|
    ensures Retarget(Stage(d, config, n), n, ValueFor(config, n)) == Stage(d, config, n + 1)
  {
    match d
    case End(_) =>
    case Piece(gap, site, rest) =>
      StageSiteStep(site, config, n);
      StageStep(rest, config, n);
  }

  /** Before any substitution the document is unchanged. */
  lemma {:induction false} StageZero(d: Doc, config: map<string, string>)
    ensures Stage(d, config, 0) == d
  {
    match d
    case End(_) =>
    case Piece(gap, site, rest) =>
      StageZero(rest, config);
  }

  // ----- the whole write -----

  /** The first `n` substitutions turn the rendered document into the rendered stage `n`. */
  lemma {:induction false} AppliedDoc(d: Doc, b: bool, config: map<string, string>, n: nat)
    requires WFFrom(d, b) && ValuesOK(config)
    requires n <= |Table|
    ensures Applied(Render(d), config, n) == Render(Stage(d, config, n))
    ensures WFFrom(Stage(d, config, n), b)
  {
    if n == 0 {
      StageZero(d, config);
    } else {
      var m := n - 1;
      AppliedDoc(d, b, config, m);
      var e := Stage(d, config, m);
      var v := ValueFor(config, m);
      DocSub(e, b, m, v);
      RetargetWF(e, b, m, v);
      StageStep(d, config, m);
    }
  }

  /** The write sets every assignment to its own key's value, or the default when the key is absent. */
  lemma WrittenDoc(d: Doc, config: map<string, string>)
    requires WF(d) && ValuesOK(config)
    ensures Written(Render(d), config) == Render(Stage(d, config, |Table|))
    ensures WF(Stage(d, config, |Table|))
  {
    AppliedDoc(d, false, config, |Table|);
  }

  /** Staging at the end forgets the old values. */
  lemma {:induction false} StageFinalTwice(d: Doc, config: map<string, string>)
    ensures Stage(Stage(d, config, |Table|), config, |Table|) == Stage(d, config, |Table|)
  {
    match d
    case End(_) =>
    case Piece(gap, site, rest) =>
      StageFinalTwice(rest, config);
  }

  /** Writing the same settings twice gives the same text as writing them once. */
  lemma WriteIdempotent(d: Doc, config: map<string, string>)
    requires WF(d) && ValuesOK(config)
    ensures Written(Written(Render(d), config), config) == Written(Render(d), config)
  {
    var e := Stage(d, config, |Table|);
    WrittenDoc(d, config);
    WrittenDoc(e, config);
    StageFinalTwice(d, config);
  }

  /** Staging keeps which assignment a row's pattern finds first and sets its value. */
  lemma {:induction false} FirstCoveredStaged(d: Doc, config: map<string, string>, k: Row)
    ensures FirstCovered(Stage(d, config, |Table|), k).Some? == FirstCovered(d, k).Some?
    ensures FirstCovered(d, k).Some? ==>
              FirstCovered(Stage(d, config, |Table|), k).value ==
              Site(FirstCovered(d, k).value.field, ValueFor(config, FirstCovered(d, k).value.field))
  {
    match d
    case End(_) =>
    case Piece(gap, site, rest) =>
      FirstCoveredStaged(rest, config, k);
  }

  /**
   * Reading after writing: row `k`'s search finds the value written to the first assignment
   * its pattern covers, and `""` when the file has none.
   */
  lemma ReadAfterWrite(d: Doc, config: map<string, string>, k: Row)
    requires WF(d) && ValuesOK(config)
    ensures FirstCovered(d, k).None? ==> Extract(Written(Render(d), config), Table[k]) == ""
    ensures FirstCovered(d, k).Some? ==>
              Extract(Written(Render(d), config), Table[k]) == ValueFor(config, FirstCovered(d, k).value.field)
  {
    var e := Stage(d, config, |Table|);
    WrittenDoc(d, config);
    DocExtract(e, false, k);
    FirstCoveredStaged(d, config, k);
  }

  /**
   * Reading after writing returns each row's own submitted value (or default) wherever the
   * row's assignment occurs, unless a `NETWORK_READY_CHECK_INTERVAL` assignment comes before
   * the first `CHECK_INTERVAL` one.
   */
  lemma ReadAfterWriteOwnValue(d: Doc, config: map<string, string>, k: Row)
    requires WF(d) && ValuesOK(config)
    requires FirstCovered(d, k).Some?
    requires k == CheckInterval ==> FirstCovered(d, k).value.field == CheckInterval
    ensures Extract(Written(Render(d), config), Table[k]) == ValueFor(config, k)
  {
    ReadAfterWrite(d, config, k);
    FirstCoveredCovers(d, k);
  }

  lemma {:induction false} FirstCoveredCovers(d: Doc, k: Row)
    ensures FirstCovered(d, k).Some? ==> Covers(k, FirstCovered(d, k).value.field)
  {
    match d
    case End(_) =>
    case Piece(_, _, rest) =>
      FirstCoveredCovers(rest, k);
  }
}
