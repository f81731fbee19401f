/**
 * The `config.sh` side of the settings store: the table of the 18 recognised
 * assignments, reading them (`read_config_sh`) and writing them back (`write_config_sh`).
 * File I/O is not modelled: the file's text is a parameter, an unreadable file is `None`.
 */
module ConfigSh {
  import opened Chars
  import opened Matcher

  /**
   * The recognised assignments in the order the source lists (and substitutes) them.
   * The read pattern of each row is the write pattern with the value captured, so one
   * row describes both; the last column is the value written when the key is absent.
   */
  const Table: seq<Field> := [
    Field("DEFAULT_URL", Quoted, ""),
    Field("STRICT_URL_VALIDATION", Bareword, "true"),
    Field("CHECK_INTERVAL", Integer, "10"),
    Field("REFRESH_INACTIVITY_THRESHOLD", Integer, "300"),
    Field("PAGE_REFRESH_INTERVAL", Integer, "600"),
    Field("DISABLE_PAGE_REFRESH", Bareword, "true"),
    Field("NETWORK_READY_TIMEOUT", Integer, "120"),
    Field("NETWORK_READY_CHECK_INTERVAL", Integer, "5"),
    Field("ENABLE_POWEROFF", Bareword, "false"),
    Field("POWEROFF_TIME", Quoted, "04:00"),
    Field("ENABLE_RESTART", Bareword, "true"),
    Field("RESTART_TIME", Quoted, "23:00"),
    Field("APPLY_POWER_SETTINGS", Bareword, "true"),
    Field("LOG_DEBUG", Integer, "0"),
    Field("LOG_FORMAT", Quoted, "text"),
    Field("LOG_TO_JOURNAL", Bareword, "true"),
    Field("MAX_LOG_SIZE", Megabytes, "10"),
    Field("LOG_MAX_BACKUPS", Integer, "5")
  ]

  /** Rows whose unanchored patterns overlap: `CHECK_INTERVAL=` is a suffix of `NETWORK_READY_CHECK_INTERVAL=`. */
  const CheckInterval: nat := 2
  const NetworkReadyCheckInterval: nat := 7

  /** The text `NAME=` that every pattern of row `k` starts with. */
  function Assignment(k: nat): string
    requires k < |Table|
  {
    Table[k].name + "="
  }

  /** No recognised `NAME=` occurs anywhere in `t`. */
  predicate NoAssignment(t: string)
  {
    forall k: nat, p: nat | k < |Table| && p <= |t| :: !OccursAt(t, p, Assignment(k))
  }

  /** `config.get(NAME, default)`: the submitted value when the key is present, even if empty. */
  function ValueFor(config: map<string, string>, k: nat): string
    requires k < |Table|
  {
    if Table[k].name in config then config[Table[k].name] else Table[k].default
  }

  // ----- facts about the table -----

  /** Field names are spelled with capital letters and underscores. */
  lemma NameCharAt(k: nat, i: nat)
    requires k < |Table| && i < |Table[k].name|
    ensures IsNameChar(Table[k].name[i])
  {
    if k <= 1 {
      NameCharAtRows0To1(k, i);
    } else if k <= 3 {
      NameCharAtRows2To3(k, i);
    } else if k <= 5 {
      NameCharAtRows4To5(k, i);
    } else if k <= 7 {
      NameCharAtRows6To7(k, i);
    } else if k <= 9 {
      NameCharAtRows8To9(k, i);
    } else if k <= 11 {
      NameCharAtRows10To11(k, i);
    } else if k <= 13 {
      NameCharAtRows12To13(k, i);
    } else if k <= 15 {
      NameCharAtRows14To15(k, i);
    } else {
      NameCharAtRows16To17(k, i);
    }
  }

  lemma NameCharAtRows0To1(k: nat, i: nat)
    requires 0 <= k <= 1 && i < |Table[k].name|
    ensures IsNameChar(Table[k].name[i])
  {
    if k == 0 {
    } else {
    }
  }

  lemma NameCharAtRows2To3(k: nat, i: nat)
    requires 2 <= k <= 3 && i < |Table[k].name|
    ensures IsNameChar(Table[k].name[i])
  {
    if k == 2 {
    } else {
    }
  }

  lemma NameCharAtRows4To5(k: nat, i: nat)
    requires 4 <= k <= 5 && i < |Table[k].name|
    ensures IsNameChar(Table[k].name[i])
  {
    if k == 4 {
    } else {
    }
  }

  lemma NameCharAtRows6To7(k: nat, i: nat)
    requires 6 <= k <= 7 && i < |Table[k].name|
    ensures IsNameChar(Table[k].name[i])
  {
    if k == 6 {
    } else {
    }
  }

  lemma NameCharAtRows8To9(k: nat, i: nat)
    requires 8 <= k <= 9 && i < |Table[k].name|
    ensures IsNameChar(Table[k].name[i])
  {
    if k == 8 {
    } else {
    }
  }

  lemma NameCharAtRows10To11(k: nat, i: nat)
    requires 10 <= k <= 11 && i < |Table[k].name|
    ensures IsNameChar(Table[k].name[i])
  {
    if k == 10 {
    } else {
    }
  }

  lemma NameCharAtRows12To13(k: nat, i: nat)
    requires 12 <= k <= 13 && i < |Table[k].name|
    ensures IsNameChar(Table[k].name[i])
  {
    if k == 12 {
    } else {
    }
  }

  lemma NameCharAtRows14To15(k: nat, i: nat)
    requires 14 <= k <= 15 && i < |Table[k].name|
    ensures IsNameChar(Table[k].name[i])
  {
    if k == 14 {
    } else {
    }
  }

  lemma NameCharAtRows16To17(k: nat, i: nat)
    requires 16 <= k <= 17 && i < |Table[k].name|
    ensures IsNameChar(Table[k].name[i])
  {
    if k == 16 {
    } else {
    }
  }

  lemma NamesDistinct(j: nat, k: nat)
    requires j < |Table| && k < |Table| && j != k
    ensures Table[j].name != Table[k].name
  {
  }

  /** The only name that ends another one: `CHECK_INTERVAL`, 14 characters into `NETWORK_READY_CHECK_INTERVAL`. */
  lemma NameSuffix(j: nat, k: nat, q: nat)
    requires j < |Table| && k < |Table| && q <= |Table[j].name|
    ensures Table[j].name[q..] == Table[k].name ==> (q == 0 && j == k) || (j == 7 && k == 2 && q == 14)
  {
    if q == 0 {
      assert Table[j].name[q..] == Table[j].name;
      if j != k {
        NamesDistinct(j, k);
      }
    } else if j < 2 {
      NameSuffixRows0To1(j, k, q);
    } else if j < 4 {
      NameSuffixRows2To3(j, k, q);
    } else if j < 6 {
      NameSuffixRows4To5(j, k, q);
    } else if j < 8 {
      NameSuffixRows6To7(j, k, q);
    } else if j < 10 {
      NameSuffixRows8To9(j, k, q);
    } else if j < 12 {
      NameSuffixRows10To11(j, k, q);
    } else if j < 14 {
      NameSuffixRows12To13(j, k, q);
    } else if j < 16 {
      NameSuffixRows14To15(j, k, q);
    } else {
      NameSuffixRows16To17(j, k, q);
    }
  }

  lemma NameSuffixRows0To1(j: nat, k: nat, q: nat)
    requires 0 <= j <= 1 && k < |Table| && 0 < q <= |Table[j].name|
    ensures Table[j].name[q..] == Table[k].name ==> j == 7 && k == 2 && q == 14
  {
    if j == 0 {
    } else {
    }
  }

  lemma NameSuffixRows2To3(j: nat, k: nat, q: nat)
    requires 2 <= j <= 3 && k < |Table| && 0 < q <= |Table[j].name|
    ensures Table[j].name[q..] == Table[k].name ==> j == 7 && k == 2 && q == 14
  {
    if j == 2 {
    } else {
    }
  }

  lemma NameSuffixRows4To5(j: nat, k: nat, q: nat)
    requires 4 <= j <= 5 && k < |Table| && 0 < q <= |Table[j].name|
    ensures Table[j].name[q..] == Table[k].name ==> j == 7 && k == 2 && q == 14
  {
    if j == 4 {
    } else {
    }
  }

  lemma NameSuffixRows6To7(j: nat, k: nat, q: nat)
    requires 6 <= j <= 7 && k < |Table| && 0 < q <= |Table[j].name|
    ensures Table[j].name[q..] == Table[k].name ==> j == 7 && k == 2 && q == 14
  {
    if j == 6 {
    } else {
    }
  }

  lemma NameSuffixRows8To9(j: nat, k: nat, q: nat)
    requires 8 <= j <= 9 && k < |Table| && 0 < q <= |Table[j].name|
    ensures Table[j].name[q..] == Table[k].name ==> j == 7 && k == 2 && q == 14
  {
    if j == 8 {
    } else {
    }
  }

  lemma NameSuffixRows10To11(j: nat, k: nat, q: nat)
    requires 10 <= j <= 11 && k < |Table| && 0 < q <= |Table[j].name|
    ensures Table[j].name[q..] == Table[k].name ==> j == 7 && k == 2 && q == 14
  {
    if j == 10 {
    } else {
    }
  }

  lemma NameSuffixRows12To13(j: nat, k: nat, q: nat)
    requires 12 <= j <= 13 && k < |Table| && 0 < q <= |Table[j].name|
    ensures Table[j].name[q..] == Table[k].name ==> j == 7 && k == 2 && q == 14
  {
    if j == 12 {
    } else {
    }
  }

  lemma NameSuffixRows14To15(j: nat, k: nat, q: nat)
    requires 14 <= j <= 15 && k < |Table| && 0 < q <= |Table[j].name|
    ensures Table[j].name[q..] == Table[k].name ==> j == 7 && k == 2 && q == 14
  {
    if j == 14 {
    } else {
    }
  }

  lemma NameSuffixRows16To17(j: nat, k: nat, q: nat)
    requires 16 <= j <= 17 && k < |Table| && 0 < q <= |Table[j].name|
    ensures Table[j].name[q..] == Table[k].name ==> j == 7 && k == 2 && q == 14
  {
    if j == 16 {
    } else {
    }
  }

  /** Every default fits its row's pattern and contains no recognised assignment. */
  lemma DefaultFits(k: nat)
    requires k < |Table|
    ensures Fits(Table[k].shape, Table[k].default)
    ensures forall c | c in Table[k].default :: c != '='
  {
  }

  // ----- read_config_sh -----

  /** The dictionary the extraction loop has built after visiting `rows` in order. */
  function ReadRows(rows: seq<Field>, text: string): map<string, string>
  {
    if rows == [] then map[]
    else
      var f := rows[|rows| - 1];
      ReadRows(rows[..|rows| - 1], text)[f.name := Extract(text, f)]
  }

  /** The keys of `rows`. */
  function Names(rows: seq<Field>): set<string>
  {
    if rows == [] then {} else Names(rows[..|rows| - 1]) + {rows[|rows| - 1].name}
  }

  predicate DistinctNames(rows: seq<Field>)
  {
    forall j: nat, k: nat | j < k < |rows| :: rows[j].name != rows[k].name
  }

  /** Each row's key holds what `re.search` captures for it in `text`, or "" without a match. */
  predicate ReadAllOf(config: map<string, string>, rows: seq<Field>, text: string)
  {
    forall k: nat | k < |rows| :: rows[k].name in config && config[rows[k].name] == Extract(text, rows[k])
  }

  lemma InitDistinct(rows: seq<Field>)
    requires rows != [] && DistinctNames(rows)
    ensures DistinctNames(rows[..|rows| - 1])
  {
    var init := rows[..|rows| - 1];
    forall j: nat, k: nat | j < k < |init|
      ensures init[j].name != init[k].name
    {
      assert init[j] == rows[j] && init[k] == rows[k];
    }
  }

  /** Every key of `rows` is the key of one of its rows. */
  lemma {:induction false} NamesOnly(rows: seq<Field>, x: string)
    requires forall k: nat | k < |rows| :: rows[k].name != x
    ensures x !in Names(rows)
  {
    if rows != [] {
      var init := rows[..|rows| - 1];
      forall k: nat | k < |init|
        ensures init[k].name != x
      {
        assert init[k] == rows[k];
      }
      NamesOnly(init, x);
    }
  }

  /** The loop stores exactly the rows' keys, one entry per row when the keys are distinct. */
  lemma {:induction false} ReadRowsKeys(rows: seq<Field>, text: string)
    requires DistinctNames(rows)
    ensures ReadRows(rows, text).Keys == Names(rows)
    ensures |ReadRows(rows, text)| == |rows|
  {
    if rows != [] {
      var n := |rows| - 1;
      var init := rows[..n];
      InitDistinct(rows);
      ReadRowsKeys(init, text);
      forall k: nat | k < |init|
        ensures init[k].name != rows[n].name
      {
        assert init[k] == rows[k];
      }
      NamesOnly(init, rows[n].name);
    }
  }

  /** With distinct keys, each row's key holds the search result for its own row. */
  lemma {:induction false} ReadRowsValues(rows: seq<Field>, text: string)
    requires DistinctNames(rows)
    ensures ReadAllOf(ReadRows(rows, text), rows, text)
  {
    if rows != [] {
      var n := |rows| - 1;
      var init := rows[..n];
      InitDistinct(rows);
      ReadRowsValues(init, text);
      forall k: nat | k < |rows|
        ensures rows[k].name in ReadRows(rows, text) && ReadRows(rows, text)[rows[k].name] == Extract(text, rows[k])
      {
        if k < n {
          assert init[k] == rows[k];
        }
      }
    }
  }

  /** The extraction loop of `read_config_sh`, over a table of patterns. */
  method SearchAll(rows: seq<Field>, text: string) returns (config: map<string, string>)
    ensures config == ReadRows(rows, text)
  {
    config := map[];
    var i := 0;
    while i < |rows|
      invariant i <= |rows|
      invariant config == ReadRows(rows[..i], text)
    {
      assert rows[..i + 1][..i] == rows[..i];
      config := config[rows[i].name := Extract(text, rows[i])];
      i := i + 1;
    }
    assert rows[..i] == rows;
  }

  /**
   * `read_config_sh`: exactly the 18 keys of the table, each mapped to the capture of the
   * leftmost match of its pattern, or to "" when the pattern does not occur. When the file
   * cannot be opened or read, the exception fires before the loop and the result is empty.
   */
  method ReadConfigSh(content: Option<string>) returns (config: map<string, string>)
    ensures content.None? ==> config == map[]
    ensures content.Some? ==> config.Keys == Names(Table) && |config| == |Table|
    ensures content.Some? ==> ReadAllOf(config, Table, content.value)
  {
    if content.None? {
      return map[];
    }
    config := SearchAll(Table, content.value);
    assert DistinctNames(Table) by {
      forall j: nat, k: nat | j < k < |Table|
        ensures Table[j].name != Table[k].name
      {
        NamesDistinct(j, k);
      }
    }
    ReadRowsKeys(Table, content.value);
    ReadRowsValues(Table, content.value);
  }

  // ----- write_config_sh -----

  /** The text after the first `n` substitutions of the table, in table order. */
  function Applied(s: string, config: map<string, string>, n: nat): string
    requires n <= |Table|
  {
    if n == 0 then s
    else Sub(Applied(s, config, n - 1), Table[n - 1], Replacement(Table[n - 1], ValueFor(config, n - 1)))
  }

  /** The new file text `write_config_sh` produces from `s`. */
  function Written(s: string, config: map<string, string>): string
  {
    Applied(s, config, |Table|)
  }

  /** No submitted value of a recognised key contains a backslash (`re.sub` would interpret it). */
  predicate NoBackslash(config: map<string, string>)
  {
    forall k: nat | k < |Table| && Table[k].name in config :: '\\' !in config[Table[k].name]
  }

  /**
   * `write_config_sh`: thread the file text through the 18 replace-all substitutions in
   * table order. `None` is the failed read, after which the source reports failure.
   */
  method WriteConfigSh(content: Option<string>, config: map<string, string>) returns (written: Option<string>)
    requires NoBackslash(config)
    ensures written.Some? == content.Some?
    ensures content.Some? ==> written.value == Written(content.value, config)
  {
    if content.None? {
      return None;
    }
    var text := content.value;
    var i := 0;
    while i < |Table|
      invariant i <= |Table|
      invariant text == Applied(content.value, config, i)
    {
      var f := Table[i];
      var value := if f.name in config then config[f.name] else f.default;
      text := Sub(text, f, Replacement(f, value));
      i := i + 1;
    }
    return Some(text);
  }
}
