# mscbot team configuration, in Dafny

mscbot runs the Final Comment Period (FCP) workflow for a project's
decision-making teams. This project models its team and FCP-behaviour
configuration component, `src/teams.rs`, and proves properties of it.

The component holds the parsed configuration file. It has two ordered maps:

- repository name → FCP behaviour (may FCPs be auto-closed or auto-postponed?);
- team label → team (display name, ping handle, member logins).

It answers the per-repository policy queries and enumerates labels, teams and
members in fixed orders. At startup it checks that every configured member
login exists in the GitHub-user table. The first login that is missing aborts
startup.

## Structure

- `wrappers.dfy` (`Wrappers`): `Option`, `Result` and `Outcome` (`Result<(), E>`).
- `string_order.dfy` (`StringOrder`): the lexicographic order that Rust derives
  for `String`, and hence for `TeamLabel`. It compares code points one by one,
  and a proper prefix sorts first. Comparing UTF-8 bytes gives the same order.
  The order is proved irreflexive, transitive and total.
- `teams.dfy` (`Teams`): the data model and the operations.
  - The config types are datatypes: `MscbotConfig`, `FcpBehavior`, `Team` and
    `TeamLabel`.
  - The accessors are functions on the datatypes.
  - A `BTreeMap` becomes a Dafny `map`. Its iteration order is
    `SortedLabels`: the keys in ascending order.
  - `#[serde(default)]` on the two flags becomes `RawFcpBehavior`. Each flag
    is an `Option<bool>` there, and `WithDefaults` / `ApplyDefaults` turn an
    omitted flag into `false`.
  - `Team::validate` and `read_mscbot_cfg_validated` become methods with
    loops. Each method is proved against a specification function
    (`TeamValidation`, `ValidateLabels`).
- `teams_test.dfy` (`TeamsTest`): the unit test `setup_parser_correct`. Its
  configuration is written as a deserialized value. Its assertions are lemmas.

The environment becomes parameters:

- The GitHub-user table is a `set<string>` of known logins.
- Taking a connection from the database pool is the parameter
  `poolAvailable: bool`. Failure gives `DashError.PoolError`.
- The `expect` that aborts startup becomes a `Failure` result.

Notes on the code as modelled:

- This code has only the fail-fast check. No mode that inserts missing
  users exists, so none is modelled.
- The test module names `RfcbotConfig` and `read_rfcbot_cfg_from`, which do not
  exist. Its assertions are used as a statement of intended behaviour,
  applied to `MscbotConfig`.
- In the test, `v.clone()` copies the `&Team` reference, since `Team` is not
  `Clone`. The collected map is keyed by the label's string and holds
  references. `Collect`, keyed by `TeamLabel` and holding `Team` values,
  gives the same answers to lookups.

## Model

| member | source | states |
|---|---|---|
| `StringOrder.LessIrreflexive` | src/teams.rs:73-75 | no label is below itself in the derived order |
| `StringOrder.LessTransitive` | src/teams.rs:73-75 | the derived order on labels is transitive |
| `StringOrder.LessTotal` | src/teams.rs:73-75 | any two labels are equal or ordered one way round, so the derived order is total |
| `Teams.SortedLabels` | src/teams.rs:23 | the `teams` map iterates its keys strictly ascending: each key exactly once, nothing else |
| `Teams.AscendingUnique` | src/teams.rs:28-30 | two strictly ascending sequences with the same elements are equal, so the label enumeration order is fully determined |
| `Teams.MscbotConfig.TeamLabels` | src/teams.rs:27-30 | yields every configured label exactly once (no repeats, same count as the map), in ascending order |
| `Teams.MscbotConfig.Teams` | src/teams.rs:32-35 | yields (label, team) pairs in the order of `TeamLabels`; each label is configured and paired with its own team; every configured label appears |
| `Teams.CollectDistinct` | src/teams.rs:184-185 | `Collect` inserts pairs in order into an empty map, as `collect::<BTreeMap<_, _>>()` does; for pairs with distinct labels it keeps exactly those labels, each paired with its own team |
| `Teams.CollectTeams` | src/teams.rs:184-185 | collecting the pairs of `teams()` into a map gives back exactly the configured teams: no label missing, none added, no team changed |
| `Teams.MscbotConfig.ShouldFfcpAutoClose` | src/teams.rs:37-40 | true exactly when the repository has an entry whose `close` flag is set; false for a repository with no entry |
| `Teams.MscbotConfig.ShouldFfcpAutoPostpone` | src/teams.rs:42-45 | true exactly when the repository has an entry whose `postpone` flag is set; false for a repository with no entry |
| `Teams.RawFcpBehavior.WithDefaults` | src/teams.rs:48-54 | each flag is true exactly when the file sets it to `true`; an omitted flag is false, whatever the other flag says |
| `Teams.ApplyDefaults` | src/teams.rs:20-24 | the defaulted configuration keeps the teams and the set of repositories; each repository's flags are true exactly when written `true` |
| `Teams.FlagsFromFile` | src/teams.rs:37-54 | from file to query: auto-close (auto-postpone) holds exactly when the repository's entry writes that flag as `true`; an omitted flag, `false`, or no entry all read false |
| `Teams.Team.MemberLogins` | src/teams.rs:68-70 | yields the declared members in declaration order, with nothing added, dropped or reordered |
| `Teams.FirstMissing` | src/teams.rs:110-116 | none exactly when every login is a known user; otherwise the index of a missing login with every earlier login known, i.e. the first missing one |
| `Teams.TeamValidation` | src/teams.rs:105-120 | passes exactly when the pool is available and every member is a known user; the pool error exactly when the pool is unavailable; otherwise it names the first missing login in member order |
| `Teams.Team.Validate` | src/teams.rs:105-120 | takes a connection first, then looks members up in order, stopping at the first missing login. Returns `TeamValidation`'s outcome. The logins looked up are exactly the members up to and including the first missing one, all members on success, and none if the pool is unavailable |
| `Teams.ValidateLabels` | src/teams.rs:85-89 | validating the teams of a label sequence passes exactly when every one of them passes |
| `Teams.ValidateLabelsFirstFailure` | src/teams.rs:85-89 | when teams before position k pass and the team at k fails, the whole validation fails with that team's error |
| `Teams.ReadMscbotCfgValidated` | src/teams.rs:82-92 | succeeds exactly when every configured team validates, and then returns the configuration unchanged; otherwise fails with the error of the first failing team in label order; a missing-login error names a member of some team that is not a known user |
| `TeamsTest.SetupLabels` | src/teams.rs:179-181 | the test configuration's labels come out as `T-avengers`, `justice-league` |
| `TeamsTest.SetupTeamsConfigured` | src/teams.rs:148-171 | the test configuration holds the two teams with their member lists, and no team `random` |
| `TeamsTest.SetupTeams` | src/teams.rs:183-201 | collected from `Teams`, `T-avengers` and `justice-league` have their members in declared order, and `random` is absent |
| `TeamsTest.SetupFlags` | src/teams.rs:203-213 | `rust-lang/alpha` auto-closes and auto-postpones; `foobar/beta` (only `close = false`), `bazquux/gamma` (only `postpone = false`), `wibble/epsilon` (empty entry) and the unknown `random` do neither |

## Left out

- TOML parsing (`read_mscbot_cfg`, `read_mscbot_cfg_from` and the `include_str!` of `mscbot.toml`) belongs to the `toml`/serde crates. The model starts from the deserialized value (`RawConfig`). A parse failure, which would panic, is not modelled.
- The `SETUP` global and the lazy `DB_POOL` global are not modelled. The configuration, the user table and the pool state are passed explicitly instead.
- Teams.Team.Validate: for a missing user the source throws diesel's "not found" error, which carries no login; the login appears only in the `error!` log line. The model's error `UserNotFound(login)` carries the login instead, so that "the first missing login" can be stated of the result.
- Teams.Team.Validate: the only query failure modelled is an absent user row. Other diesel errors are not modelled, such as a connection dropped halfway through the loop. They would also abort validation with that error.
- Teams.Team.Validate: the pool state is a single boolean, the same for every team. The source calls `DB_POOL.get()` again for each team, and these calls could fail independently.
- Logging (`error!` naming the missing login, `info!`) is not modelled; it has no effect on results.
- `Team::ping` is the `ping` field of the `Team` datatype. It has no separate member, and `name` and `ping` carry no logic.
- The tests `cfg_file_wellformed` and `team_members_exist` read the real configuration file and the database; they are not modelled.
- `src/main.rs` (process bootstrap) and `src/scraper.rs` (the background polling loop and its calls into the GitHub ingestion code) are not part of this model. They are concurrency, timing and calls into code that is not shown.
- The FCP consensus state machine and the ingestion pipeline live in the `nag` and `github` modules, which are not part of this model.
