/**
 * The configuration of the unit test `setup_parser_correct` (as the file it
 * parses deserializes, before defaults) and what the test asserts about it.
 */
module TeamsTest {
  import opened Wrappers
  import opened Teams

  const AvengerLogins: seq<string> :=
    ["hulk", "thor", "thevision", "blackwidow", "spiderman", "captainamerica"]

  const JusticeLeagueLogins: seq<string> :=
    ["superman", "wonderwoman", "aquaman", "batman", "theflash"]

  function TestFile(): RawConfig {
    RawConfig(
      map[
        "rust-lang/alpha" := RawFcpBehavior(Some(true), Some(true)),
        "foobar/beta" := RawFcpBehavior(Some(false), None),
        "bazquux/gamma" := RawFcpBehavior(None, Some(false)),
        "wibble/epsilon" := RawFcpBehavior(None, None)],
      map[
        TeamLabel("T-avengers") := Team("The Avengers", "marvel/avengers", AvengerLogins),
        TeamLabel("justice-league") :=
          Team("Justice League of America", "dc-comics/justice-league", JusticeLeagueLogins)])
  }

  function TestSetup(): MscbotConfig {
    ApplyDefaults(TestFile())
  }

  /** The labels come out in ascending order. */
  lemma SetupLabels()
    ensures TestSetup().TeamLabels() == [TeamLabel("T-avengers"), TeamLabel("justice-league")]
  {
    var expected := [TeamLabel("T-avengers"), TeamLabel("justice-league")];
    assert LabelLess(expected[0], expected[1]);
    assert TestSetup().teams.Keys == {expected[0], expected[1]};
    AscendingUnique(TestSetup().TeamLabels(), expected);
  }

  /** The teams as written in the file. */
  lemma SetupTeamsConfigured()
    ensures TestSetup().teams == TestFile().teams
    ensures TeamLabel("T-avengers") in TestSetup().teams
    ensures TestSetup().teams[TeamLabel("T-avengers")].members == AvengerLogins
    ensures TeamLabel("justice-league") in TestSetup().teams
    ensures TestSetup().teams[TeamLabel("justice-league")].members == JusticeLeagueLogins
    ensures TeamLabel("random") !in TestSetup().teams
  {
  }

  /** Collected back into a map, each team keeps its members in order and no other label appears. */
  lemma SetupTeams()
    ensures TeamLabel("T-avengers") in Collect(TestSetup().Teams())
    ensures Collect(TestSetup().Teams())[TeamLabel("T-avengers")].MemberLogins() == AvengerLogins
    ensures TeamLabel("justice-league") in Collect(TestSetup().Teams())
    ensures Collect(TestSetup().Teams())[TeamLabel("justice-league")].MemberLogins() == JusticeLeagueLogins
    ensures TeamLabel("random") !in Collect(TestSetup().Teams())
  {
    CollectTeams(TestSetup());
    SetupTeamsConfigured();
  }

  /** The FCP flags read as configured; omitted flags and unknown repositories read `false`. */
  lemma SetupFlags()
    ensures TestSetup().ShouldFfcpAutoClose("rust-lang/alpha")
    ensures TestSetup().ShouldFfcpAutoPostpone("rust-lang/alpha")
    ensures !TestSetup().ShouldFfcpAutoClose("foobar/beta")
    ensures !TestSetup().ShouldFfcpAutoPostpone("foobar/beta")
    ensures !TestSetup().ShouldFfcpAutoClose("bazquux/gamma")
    ensures !TestSetup().ShouldFfcpAutoPostpone("bazquux/gamma")
    ensures !TestSetup().ShouldFfcpAutoClose("wibble/epsilon")
    ensures !TestSetup().ShouldFfcpAutoPostpone("wibble/epsilon")
    ensures !TestSetup().ShouldFfcpAutoClose("random")
    ensures !TestSetup().ShouldFfcpAutoPostpone("random")
  {
  }
}
