/**
 * The team and FCP-behaviour configuration of the bot: the parsed
 * configuration file, its accessors, and the startup check that every
 * configured team member is a known GitHub user.
 */
module Teams {
  import opened Wrappers
  import opened StringOrder

  //============================================================================
  // Data model
  //============================================================================

  /** A team's label, the tag used on proposals; ordered like its string. */
  datatype TeamLabel = TeamLabel(value: string)

  predicate LabelLess(a: TeamLabel, b: TeamLabel) {
    Less(a.value, b.value)
  }

  /** Per-repository FCP behaviour, after the omitted flags have been defaulted. */
  datatype FcpBehavior = FcpBehavior(close: bool, postpone: bool)

  /** A team: display name, the handle to ping, and its member logins in declaration order. */
  datatype Team = Team(name: string, ping: string, members: seq<string>) {

    /** The team's member logins, as declared: nothing added, dropped or reordered. */
    function MemberLogins(): (r: seq<string>)
      ensures |r| == |members|
      ensures forall i :: 0 <= i < |r| ==> r[i] == members[i]
    {
      members
    }

    /**
     * Checks that every member login is a known user. The pool connection is
     * taken first; the logins are then looked up in member order, and the
     * first one missing aborts the check without looking at the rest.
     * `queried` is the sequence of logins looked up.
     */
    method Validate(users: set<string>, poolAvailable: bool)
      returns (r: Outcome<DashError>, ghost queried: seq<string>)
      ensures r == TeamValidation(this, users, poolAvailable)
      ensures r.Pass? <==> poolAvailable && AllKnown(members, users)
      ensures r.Fail? && r.error.UserNotFound? ==>
                r.error.login in members && r.error.login !in users
      ensures !poolAvailable ==> queried == []
      ensures poolAvailable ==>
                queried == match FirstMissing(members, users)
                           case None => members
                           case Some(k) => members[..k + 1]
    {
      if !poolAvailable {
        return Fail(PoolError), [];
      }
      var logins := MemberLogins();
      queried := [];
      for i := 0 to |logins|
        invariant queried == logins[..i]
        invariant forall j :: 0 <= j < i ==> logins[j] in users
      {
        queried := queried + [logins[i]];
        if logins[i] !in users {
          return Fail(UserNotFound(logins[i])), queried;
        }
      }
      assert logins[..|logins|] == logins;
      return Pass, queried;
    }
  }

  /** The parsed configuration file. */
  datatype MscbotConfig = MscbotConfig(
    fcpBehaviors: map<string, FcpBehavior>,
    teams: map<TeamLabel, Team>)
  {
    /** `team_labels()`, i.e. `self.teams.keys()`: every configured label exactly once, in ascending order. */
    function TeamLabels(): (r: seq<TeamLabel>)
      ensures StrictlyAscending(r)
      ensures forall l :: l in r <==> l in teams
      ensures |r| == |teams|
      ensures forall i, j :: 0 <= i < j < |r| ==> r[i] != r[j]
    {
      var r := SortedLabels(teams.Keys);
      AscendingDistinct(r);
      r
    }

    /**
     * `MscbotConfig::teams()`, i.e. `self.teams.iter()`: the (label, team)
     * pairs, in the order of `TeamLabels`, each label with its own team.
     */
    function Teams(): (r: seq<(TeamLabel, Team)>)
      ensures |r| == |teams|
      ensures forall i :: 0 <= i < |r| ==> r[i].0 == TeamLabels()[i]
      ensures forall i :: 0 <= i < |r| ==> r[i].0 in teams && r[i].1 == teams[r[i].0]
      ensures forall l :: l in teams ==> exists i :: 0 <= i < |r| && r[i].0 == l
    {
      var ls := TeamLabels();
      seq(|ls|, i requires 0 <= i < |ls| => (ls[i], teams[ls[i]]))
    }

    /** May FCPs in `repo` be auto-closed? Only if its entry says so. */
    function ShouldFfcpAutoClose(repo: string): (r: bool)
      ensures r <==> repo in fcpBehaviors && fcpBehaviors[repo].close
      ensures repo !in fcpBehaviors ==> !r
    {
      Get(fcpBehaviors, repo).Map((b: FcpBehavior) => b.close).GetOr(false)
    }

    /** May FCPs in `repo` be auto-postponed? Only if its entry says so. */
    function ShouldFfcpAutoPostpone(repo: string): (r: bool)
      ensures r <==> repo in fcpBehaviors && fcpBehaviors[repo].postpone
      ensures repo !in fcpBehaviors ==> !r
    {
      Get(fcpBehaviors, repo).Map((b: FcpBehavior) => b.postpone).GetOr(false)
    }
  }

  function Get<K, V>(m: map<K, V>, k: K): Option<V> {
    if k in m then Some(m[k]) else None
  }

  //============================================================================
  // Omitted flags
  //============================================================================

  /** An FCP-behaviour table as written in the file: either flag may be omitted. */
  datatype RawFcpBehavior = RawFcpBehavior(close: Option<bool>, postpone: Option<bool>) {

    /** An omitted flag reads `false`; each flag is defaulted on its own. */
    function WithDefaults(): (b: FcpBehavior)
      ensures b.close <==> close == Some(true)
      ensures b.postpone <==> postpone == Some(true)
    {
      FcpBehavior(close.GetOr(false), postpone.GetOr(false))
    }
  }

  /** The configuration as written in the file, before defaults are filled in. */
  datatype RawConfig = RawConfig(
    fcpBehaviors: map<string, RawFcpBehavior>,
    teams: map<TeamLabel, Team>)

  /** The configuration with every omitted FCP flag set to `false`. */
  function ApplyDefaults(raw: RawConfig): (cfg: MscbotConfig)
    ensures cfg.teams == raw.teams
    ensures cfg.fcpBehaviors.Keys == raw.fcpBehaviors.Keys
    ensures forall repo :: repo in cfg.fcpBehaviors ==>
              (cfg.fcpBehaviors[repo].close <==> raw.fcpBehaviors[repo].close == Some(true)) &&
              (cfg.fcpBehaviors[repo].postpone <==> raw.fcpBehaviors[repo].postpone == Some(true))
  {
    MscbotConfig(
      map repo | repo in raw.fcpBehaviors :: raw.fcpBehaviors[repo].WithDefaults(),
      raw.teams)
  }

  /**
   * From the file to the queries: a repository auto-closes (auto-postpones)
   * exactly when its entry sets that flag to `true`; an omitted flag, an
   * explicit `false` or a missing entry all read `false`, whatever the other flag.
   */
  lemma FlagsFromFile(raw: RawConfig, repo: string)
    ensures ApplyDefaults(raw).ShouldFfcpAutoClose(repo) <==>
              repo in raw.fcpBehaviors && raw.fcpBehaviors[repo].close == Some(true)
    ensures ApplyDefaults(raw).ShouldFfcpAutoPostpone(repo) <==>
              repo in raw.fcpBehaviors && raw.fcpBehaviors[repo].postpone == Some(true)
  {
  }

  //============================================================================
  // Ordered enumeration of the team labels
  //============================================================================

  predicate StrictlyAscending(ls: seq<TeamLabel>) {
    forall i, j :: 0 <= i < j < |ls| ==> LabelLess(ls[i], ls[j])
  }

  /** `m` is below every other element of `s`. */
  predicate IsLeast(m: TeamLabel, s: set<TeamLabel>) {
    m in s && forall l :: l in s && l != m ==> LabelLess(m, l)
  }

  lemma LabelTotal(a: TeamLabel, b: TeamLabel)
    ensures a == b || LabelLess(a, b) || LabelLess(b, a)
  {
    LessTotal(a.value, b.value);
  }

  lemma LabelTransitive(a: TeamLabel, b: TeamLabel, c: TeamLabel)
    requires LabelLess(a, b) && LabelLess(b, c)
    ensures LabelLess(a, c)
  {
    LessTransitive(a.value, b.value, c.value);
  }

  lemma LabelAsymmetric(a: TeamLabel, b: TeamLabel)
    requires LabelLess(a, b)
    ensures !LabelLess(b, a)
  {
    LessAsymmetric(a.value, b.value);
  }

  /** Every finite non-empty set of labels has a least element. */
  lemma {:induction false} LeastExists(s: set<TeamLabel>)
    requires s != {}
    ensures exists m :: IsLeast(m, s)
    decreases |s|
  {
    var x :| x in s;
    if s == {x} {
      assert IsLeast(x, s);
    } else {
      var rest := s - {x};
      LeastExists(rest);
      var m :| IsLeast(m, rest);
      LabelTotal(x, m);
      if LabelLess(x, m) {
        forall l | l in s && l != x
          ensures LabelLess(x, l)
        {
          if l != m {
            LabelTransitive(x, m, l);
          }
        }
        assert IsLeast(x, s);
      } else {
        assert IsLeast(m, s);
      }
    }
  }

  /** The least label of a non-empty set. */
  function Least(s: set<TeamLabel>): (m: TeamLabel)
    requires s != {}
    ensures IsLeast(m, s)
  {
    LeastExists(s);
    forall a, b | IsLeast(a, s) && IsLeast(b, s)
      ensures a == b
    {
      if a != b {
        LabelAsymmetric(a, b);
      }
    }
    var m :| IsLeast(m, s);
    m
  }

  /** The elements of `s` in ascending order (how a `BTreeMap` yields its keys). */
  function SortedLabels(s: set<TeamLabel>): (r: seq<TeamLabel>)
    ensures StrictlyAscending(r)
    ensures forall l :: l in r <==> l in s
    ensures |r| == |s|
    decreases |s|
  {
    if s == {} then []
    else
      var m := Least(s);
      var rest := SortedLabels(s - {m});
      assert forall i :: 0 <= i < |rest| ==> rest[i] in s - {m};
      [m] + rest
  }

  lemma AscendingDistinct(ls: seq<TeamLabel>)
    requires StrictlyAscending(ls)
    ensures forall i, j :: 0 <= i < j < |ls| ==> ls[i] != ls[j]
  {
    forall i, j | 0 <= i < j < |ls|
      ensures ls[i] != ls[j]
    {
      LessIrreflexive(ls[i].value);
    }
  }

  /** No element of a strictly ascending sequence is below its head. */
  lemma NotBelowHead(ls: seq<TeamLabel>, l: TeamLabel)
    requires StrictlyAscending(ls) && l in ls
    ensures !LabelLess(l, ls[0])
  {
    var k :| 0 <= k < |ls| && ls[k] == l;
    if k == 0 {
      LessIrreflexive(l.value);
    } else {
      LabelAsymmetric(ls[0], l);
    }
  }

  /** With equal heads and the same elements, the tails of two sequences without repeats have the same elements. */
  lemma TailMembers(a: seq<TeamLabel>, b: seq<TeamLabel>)
    requires a != [] && b != [] && a[0] == b[0]
    requires forall l :: l in a ==> l in b
    requires forall i, j :: 0 <= i < j < |a| ==> a[i] != a[j]
    ensures forall l :: l in a[1..] ==> l in b[1..]
  {
    forall l | l in a[1..]
      ensures l in b[1..]
    {
      var k :| 0 <= k < |a| - 1 && a[1..][k] == l;
      assert a[k + 1] == l && l != a[0] && l in a;
      var m :| 0 <= m < |b| && b[m] == l;
      assert b[1..][m - 1] == l;
    }
  }

  /**
   * Ascending order fixes the enumeration: two strictly ascending sequences
   * with the same elements are equal. So `TeamLabels` is the only order the
   * labels can come out in.
   */
  lemma {:induction false} AscendingUnique(a: seq<TeamLabel>, b: seq<TeamLabel>)
    requires StrictlyAscending(a) && StrictlyAscending(b)
    requires forall l :: l in a <==> l in b
    ensures a == b
    decreases |a|
  {
    assert a != [] ==> a[0] in b;
    assert b != [] ==> b[0] in a;
    if a != [] {
      NotBelowHead(a, b[0]);
      NotBelowHead(b, a[0]);
      LabelTotal(a[0], b[0]);
      AscendingDistinct(a);
      AscendingDistinct(b);
      TailMembers(a, b);
      TailMembers(b, a);
      AscendingUnique(a[1..], b[1..]);
      assert a == [a[0]] + a[1..] && b == [b[0]] + b[1..];
    }
  }

  //============================================================================
  // Collecting the (label, team) pairs back into a map
  //============================================================================

  /** Inserts the pairs one after another into an empty map (`collect::<BTreeMap<_, _>>()`). */
  function Collect(pairs: seq<(TeamLabel, Team)>): map<TeamLabel, Team>
    decreases |pairs|
  {
    if pairs == [] then map[]
    else Collect(pairs[..|pairs| - 1])[pairs[|pairs| - 1].0 := pairs[|pairs| - 1].1]
  }

  /** With distinct labels, collecting keeps exactly the labels given, each with its own team. */
  lemma {:induction false} CollectDistinct(pairs: seq<(TeamLabel, Team)>)
    requires forall i, j :: 0 <= i < j < |pairs| ==> pairs[i].0 != pairs[j].0
    ensures forall l :: l in Collect(pairs) <==> exists i :: 0 <= i < |pairs| && pairs[i].0 == l
    ensures forall i :: 0 <= i < |pairs| ==> Collect(pairs)[pairs[i].0] == pairs[i].1
    decreases |pairs|
  {
    if pairs != [] {
      var init := pairs[..|pairs| - 1];
      var last := pairs[|pairs| - 1];
      CollectDistinct(init);
      var c, c0 := Collect(pairs), Collect(init);
      assert c == c0[last.0 := last.1];
      forall l | l in c
        ensures exists i :: 0 <= i < |pairs| && pairs[i].0 == l
      {
        if l != last.0 {
          assert l in c0;
          var i :| 0 <= i < |init| && init[i].0 == l;
          assert pairs[i].0 == l;
        } else {
          assert pairs[|pairs| - 1].0 == l;
        }
      }
      forall l | exists i :: 0 <= i < |pairs| && pairs[i].0 == l
        ensures l in c
      {
        var i :| 0 <= i < |pairs| && pairs[i].0 == l;
        if i < |pairs| - 1 {
          assert init[i] == pairs[i];
        }
      }
      forall i | 0 <= i < |pairs| - 1
        ensures c[pairs[i].0] == pairs[i].1
      {
        assert init[i] == pairs[i];
        assert pairs[i].0 != last.0;
      }
    }
  }

  /** Pairs that list each key of `teams` exactly once, with its own value, collect to `teams`. */
  lemma CollectListing(pairs: seq<(TeamLabel, Team)>, teams: map<TeamLabel, Team>)
    requires forall i, j :: 0 <= i < j < |pairs| ==> pairs[i].0 != pairs[j].0
    requires forall i :: 0 <= i < |pairs| ==> pairs[i].0 in teams && pairs[i].1 == teams[pairs[i].0]
    requires forall l :: l in teams ==> exists i :: 0 <= i < |pairs| && pairs[i].0 == l
    ensures Collect(pairs) == teams
  {
    CollectDistinct(pairs);
    var c := Collect(pairs);
    forall l | l in c
      ensures l in teams
    {
      var i :| 0 <= i < |pairs| && pairs[i].0 == l;
    }
    forall l | l in teams
      ensures l in c && c[l] == teams[l]
    {
      var i :| 0 <= i < |pairs| && pairs[i].0 == l;
    }
    assert c.Keys == teams.Keys;
  }

  /** Collecting `Teams()` gives back the configured teams: nothing missing, nothing extra. */
  lemma CollectTeams(cfg: MscbotConfig)
    ensures Collect(cfg.Teams()) == cfg.teams
  {
    var pairs := cfg.Teams();
    var ls := cfg.TeamLabels();
    assert forall i :: 0 <= i < |pairs| ==> pairs[i].0 == ls[i];
    CollectListing(pairs, cfg.teams);
  }

  //============================================================================
  // Validation against the user store
  //============================================================================

  /** The errors of the startup check. */
  datatype DashError =
    | PoolError                     // no database connection could be taken from the pool
    | UserNotFound(login: string)   // a member login has no GitHub user row

  predicate AllKnown(logins: seq<string>, users: set<string>) {
    forall i :: 0 <= i < |logins| ==> logins[i] in users
  }

  /** The position of the first login that is not a known user, if any. */
  function FirstMissing(logins: seq<string>, users: set<string>): (r: Option<nat>)
    ensures r.None? <==> AllKnown(logins, users)
    ensures r.Some? ==>
              r.value < |logins| && logins[r.value] !in users &&
              forall j :: 0 <= j < r.value ==> logins[j] in users
    decreases |logins|
  {
    if logins == [] then None
    else if logins[0] !in users then Some(0)
    else
      match FirstMissing(logins[1..], users)
      case None => None
      case Some(k) => Some(k + 1)
  }

  /** What `Validate` returns: the pool error, the first missing login, or success. */
  function TeamValidation(team: Team, users: set<string>, poolAvailable: bool): (r: Outcome<DashError>)
    ensures r.Pass? <==> poolAvailable && AllKnown(team.members, users)
    ensures r == Fail(PoolError) <==> !poolAvailable
    ensures r.Fail? && r.error.UserNotFound? ==>
              exists k :: 0 <= k < |team.members| && team.members[k] == r.error.login &&
                          team.members[k] !in users &&
                          forall j :: 0 <= j < k ==> team.members[j] in users
  {
    if !poolAvailable then Fail(PoolError)
    else
      match FirstMissing(team.members, users)
      case None => Pass
      case Some(k) => Fail(UserNotFound(team.members[k]))
  }

  /** The labels, in order, all configured. */
  predicate Configured(ls: seq<TeamLabel>, teams: map<TeamLabel, Team>) {
    forall i :: 0 <= i < |ls| ==> ls[i] in teams
  }

  /** Validates the teams of `ls` in order, stopping at the first failure. */
  function ValidateLabels(ls: seq<TeamLabel>, teams: map<TeamLabel, Team>,
                          users: set<string>, poolAvailable: bool): (r: Outcome<DashError>)
    requires Configured(ls, teams)
    ensures r.Pass? <==>
              forall i :: 0 <= i < |ls| ==> TeamValidation(teams[ls[i]], users, poolAvailable).Pass?
    decreases |ls|
  {
    if ls == [] then Pass
    else
      var first := TeamValidation(teams[ls[0]], users, poolAvailable);
      if first.Fail? then first
      else
        var rest := ValidateLabels(ls[1..], teams, users, poolAvailable);
        assert forall i :: 1 <= i < |ls| ==> ls[1..][i - 1] == ls[i];
        rest
  }

  /** The failure of the chain is the failure of its first failing team. */
  lemma {:induction false} ValidateLabelsFirstFailure(ls: seq<TeamLabel>, teams: map<TeamLabel, Team>,
                                                      users: set<string>, poolAvailable: bool, k: nat)
    requires Configured(ls, teams) && k < |ls|
    requires forall j :: 0 <= j < k ==> TeamValidation(teams[ls[j]], users, poolAvailable).Pass?
    requires TeamValidation(teams[ls[k]], users, poolAvailable).Fail?
    ensures ValidateLabels(ls, teams, users, poolAvailable) == TeamValidation(teams[ls[k]], users, poolAvailable)
    decreases k
  {
    if k > 0 {
      assert forall j :: 0 <= j < k - 1 ==> ls[1..][j] == ls[j + 1];
      ValidateLabelsFirstFailure(ls[1..], teams, users, poolAvailable, k - 1);
    }
  }

  /** Every configured team validates. */
  predicate ConfigValid(cfg: MscbotConfig, users: set<string>, poolAvailable: bool) {
    forall l :: l in cfg.teams ==> TeamValidation(cfg.teams[l], users, poolAvailable).Pass?
  }

  /**
   * The startup check: validates every team, in label order, and returns the
   * configuration unchanged when all pass; the first failure aborts startup
   * and is returned as the error.
   */
  method ReadMscbotCfgValidated(cfg: MscbotConfig, users: set<string>, poolAvailable: bool)
    returns (r: Result<MscbotConfig, DashError>)
    ensures r.Success? <==> ConfigValid(cfg, users, poolAvailable)
    ensures r.Success? ==> r.value == cfg
    ensures r.Failure? ==>
              Fail(r.error) == ValidateLabels(cfg.TeamLabels(), cfg.teams, users, poolAvailable)
    ensures r.Failure? && r.error.UserNotFound? ==>
              exists l :: l in cfg.teams && r.error.login in cfg.teams[l].members &&
                          r.error.login !in users
  {
    var labels := cfg.TeamLabels();
    for i := 0 to |labels|
      invariant forall j :: 0 <= j < i ==>
                  TeamValidation(cfg.teams[labels[j]], users, poolAvailable).Pass?
    {
      var team := cfg.teams[labels[i]];
      var outcome, _ := team.Validate(users, poolAvailable);
      if outcome.Fail? {
        ValidateLabelsFirstFailure(labels, cfg.teams, users, poolAvailable, i);
        return Failure(outcome.error);
      }
    }
    forall l | l in cfg.teams
      ensures TeamValidation(cfg.teams[l], users, poolAvailable).Pass?
    {
      var i :| 0 <= i < |labels| && labels[i] == l;
    }
    return Success(cfg);
  }
}
