/** Concrete settings files and what reading and writing do to them. */
module Scenarios {
  import opened Matcher
  import opened ConfigSh
  import opened ConfigDoc
  import opened RoundTrip

  /** A newline is no part of an assignment. */
  lemma NewlineClean()
    ensures NoAssignment("\n") && NoAssignment("") && Boundary('\n')
  {
    NoEqualsNoAssignment("\n");
    NoEqualsNoAssignment("");
  }

  /** A settings map with one recognised key whose value fits its row. */
  lemma OneKeyOK(k: Row, v: string)
    requires ValueOK(k, v)
    ensures ValuesOK(map[Table[k].name := v])
  {
    forall j: Row | Table[j].name in map[Table[k].name := v]
      ensures ValueOK(j, map[Table[k].name := v][Table[j].name])
    {
      if j != k {
        NamesDistinct(j, k);
      }
    }
    SubmittedValuesOK(map[Table[k].name := v]);
  }

  /** A settings map with two recognised keys whose values fit their rows. */
  lemma TwoKeysOK(k: Row, m: Row, v: string, w: string)
    requires k != m && ValueOK(k, v) && ValueOK(m, w)
    ensures ValuesOK(map[Table[k].name := v, Table[m].name := w])
  {
    var config := map[Table[k].name := v, Table[m].name := w];
    NamesDistinct(k, m);
    forall j: Row | Table[j].name in config
      ensures ValueOK(j, config[Table[j].name])
    {
      if j != k {
        NamesDistinct(j, k);
      }
      if j != m {
        NamesDistinct(j, m);
      }
    }
    SubmittedValuesOK(config);
  }

  /** `MAX_LOG_SIZE=$((v*1024*1024))` followed by a newline. */
  function LogSizeFile(v: string): Doc
  {
    Piece("", Site(16, v), End("\n"))
  }

  /** The `MAX_LOG_SIZE` assignment keeps the `$((…*1024*1024))` wrapper around its value. */
  lemma LogSizeText(v: string)
    ensures SiteText(Site(16, v)) == "MAX_LOG_SIZE=$((" + v + "*1024*1024))"
  {
  }

  /** `MAX_LOG_SIZE=$((10*1024*1024))` reads as `10`, and writing `25` rewrites only the number. */
  lemma LogSizeScenario()
    ensures Extract(Render(LogSizeFile("10")), Table[16]) == "10"
    ensures Written(Render(LogSizeFile("10")), map["MAX_LOG_SIZE" := "25"]) == Render(LogSizeFile("25"))
  {
    NewlineClean();
    assert WF(LogSizeFile("10"));
    DocExtract(LogSizeFile("10"), false, 16);
    OneKeyOK(16, "25");
    WrittenDoc(LogSizeFile("10"), map["MAX_LOG_SIZE" := "25"]);
  }

  /** `POWEROFF_TIME="v"` followed by a newline. */
  function PowerOffFile(v: string): Doc
  {
    Piece("", Site(9, v), End("\n"))
  }

  /** A key submitted with an empty value is written empty; its default `04:00` is not used. */
  lemma EmptyValueScenario()
    ensures Written(Render(PowerOffFile("04:00")), map["POWEROFF_TIME" := ""]) == Render(PowerOffFile(""))
  {
    NewlineClean();
    NoEqualsNoAssignment("04:00");
    assert WF(PowerOffFile("04:00"));
    OneKeyOK(9, "");
    WrittenDoc(PowerOffFile("04:00"), map["POWEROFF_TIME" := ""]);
  }

  /** `NETWORK_READY_CHECK_INTERVAL=a`, a newline, `CHECK_INTERVAL=b`, a newline. */
  function NetworkReadyFirstFile(a: string, b: string): Doc
  {
    Piece("", Site(7, a), Piece("\n", Site(2, b), End("\n")))
  }

  /**
   * When `NETWORK_READY_CHECK_INTERVAL` comes first, the write still stores both values, but
   * reading `CHECK_INTERVAL` afterwards returns the network-ready value.
   */
  lemma NetworkReadyFirstScenario()
    ensures var config := map["CHECK_INTERVAL" := "30", "NETWORK_READY_CHECK_INTERVAL" := "7"];
            && Written(Render(NetworkReadyFirstFile("5", "10")), config) == Render(NetworkReadyFirstFile("7", "30"))
            && Extract(Render(NetworkReadyFirstFile("7", "30")), Table[CheckInterval]) == "7"
  {
    var d := NetworkReadyFirstFile("5", "10");
    var config := map["CHECK_INTERVAL" := "30", "NETWORK_READY_CHECK_INTERVAL" := "7"];
    NewlineClean();
    assert WF(d);
    TwoKeysOK(CheckInterval, NetworkReadyCheckInterval, "30", "7");
    WrittenDoc(d, config);
    NamesDistinct(CheckInterval, NetworkReadyCheckInterval);
    assert Table[CheckInterval].name == "CHECK_INTERVAL";
    assert Table[NetworkReadyCheckInterval].name == "NETWORK_READY_CHECK_INTERVAL";
    assert ValueFor(config, CheckInterval) == "30";
    assert ValueFor(config, NetworkReadyCheckInterval) == "7";
    var tail := Piece("\n", Site(CheckInterval, "10"), End("\n"));
    assert Stage(tail, config, |Table|) == Piece("\n", Site(CheckInterval, "30"), End("\n"));
    assert Stage(d, config, |Table|) == NetworkReadyFirstFile("7", "30");
    DocExtract(NetworkReadyFirstFile("7", "30"), false, CheckInterval);
  }
}
