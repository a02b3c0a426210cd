# floots retention sweeper, modelled in Dafny

floots logs in to a Mastodon account and deletes that account's statuses
("toots") once they are older than a configured maximum age. A status is
kept if an exclusion rule protects it. The rules come from the
colon-separated `FLOOTS_EXCLUDE` value. A rule protects a status when it
occurs in the status's content or when it equals the status's ID. With
`FLOOTS_DRY_RUN` set, the sweep only prints which statuses it would delete.

The model has two modules:

- `GoStrings` (`go_strings.dfy`) covers the two Go library functions the
  sweeper depends on. `Contains` is proved equivalent to "the rule occurs at
  some position". `Split` is proved to have `Join` as its inverse.
- `Floots` (`floots.dfy`) covers `main.go`:
  - the exclusion test `isExcluded`, as the loop method `IsExcluded`,
    specified by the predicate `Excluded`;
  - the reading of the exclusion list at line 80 (`ExcludeRules`);
  - the sweep `removeToots`, as the method `RemoveToots`, proved against
    the specification function `SweepEvents` and the lemmas about it.

The Mastodon client is not modelled. Its answers are passed in as a
`Client` value:
- the current account's ID, or an error;
- the status list for an account ID, or an error;
- the reply (nil or an error) to the k-th delete call.

What the sweep does is returned as a trace of events: `Notice` for a printed
notice and `Delete` for a delete request. `time.Since` is modelled with a
supplied clock. `clock(i)` is the time at which the i-th fetched status is
examined. Times and durations are integers counting nanoseconds.

The globals `excludeStr` and `dryRun` are passed in as a `Config` value.

## Model

| member | source | states |
|---|---|---|
| `GoStrings.Contains` | main.go:23 | `strings.Contains(content, rule)` is true exactly when the rule occurs at some position of the content |
| `GoStrings.ContainsEmpty` | main.go:23 | the empty string is contained in every content |
| `GoStrings.Split` | main.go:80 | splitting on `:` gives at least one piece (one empty piece for an empty value), no piece contains the separator, and joining the pieces gives back the value |
| `GoStrings.SplitJoin` | main.go:80 | splitting a join of separator-free pieces gives back the same pieces: `Split` and `Join` are inverse |
| `Floots.Matches` | main.go:23 | a rule protects a status when `strings.Contains(content, rule)` holds or the rule equals the status's ID |
| `Floots.Excluded` | main.go:22-25 | a status is excluded when at least one configured rule protects it; the order of the rules does not matter to the answer |
| `Floots.IsExcluded` | main.go:21-29 | the loop over the rules, which returns at the first match, answers true exactly when `Excluded` holds, i.e. some rule is in the content or equals the ID |
| `Floots.ExcludedIff` | main.go:21-29 | in both directions: a status is excluded exactly when some configured rule occurs at some position of its content or equals its ID |
| `Floots.NoRulesExcludeNothing` | main.go:22-28 | with an empty rule list no status is excluded |
| `Floots.EmptyRuleExcludesAll` | main.go:23 | if the empty string is one of the rules, every status is excluded |
| `Floots.ExcludeRules` | main.go:80-83 | the rule list read from `FLOOTS_EXCLUDE` is never empty, so the `len == 0` branch is unreachable; its pieces contain no `:` and join back to the value |
| `Floots.EmptyExcludeProtectsEverything` | main.go:80-83 | as written, an empty `FLOOTS_EXCLUDE` gives the rule list `[""]`, which excludes every status |
| `Floots.IntendedExcludeRules` | main.go:80-83 | corrected reading: an empty value gives no rules, no rule is empty, and the rules are exactly the non-empty pieces of the value |
| `Floots.IntendedExcludeRulesProtect` | main.go:80-83 | under the corrected reading, an empty value excludes nothing, and a status is excluded exactly when a non-empty piece of the value matches it |
| `Floots.Qualifies` | main.go:47 | a status is acted on when `now - createdAt > ageLimit`, strictly, and it is not excluded; the age test comes first, as Go's `&&` evaluates it |
| `Floots.EventsFor` | main.go:48-51 | handling a qualifying status prints a notice with its content and creation time, then, unless this is a dry run, sends one delete request for its ID |
| `Floots.SweepEvents` | main.go:46-53 | the events of the loop over the first `n` fetched statuses, examined in fetch order, the i-th at time `clock(i)`: a qualifying status contributes its `EventsFor`, any other status nothing |
| `Floots.SelectedIff` | main.go:46-47 | the positions of the qualifying statuses are below the number examined and strictly increasing (fetch order, each at most once), and a position is selected exactly when `now - createdAt > ageLimit` holds strictly and the status is not excluded; a status whose age equals the limit is not selected |
| `Floots.ChosenAt` | main.go:46-47 | the statuses the sweep acts on are, one by one and in order, the fetched statuses at the selected positions |
| `Floots.SweepIsHandled` | main.go:46-53 | the sweep's events are exactly those of handling each qualifying status in fetch order, and nothing else: skipped statuses leave no trace |
| `Floots.HandledAt` | main.go:48-51 | handling statuses gives one notice (content and creation time) per status in a dry run; otherwise a notice followed by a delete request for that status's ID, per status; the length is the number of statuses, or twice it |
| `Floots.HandledEvent` | main.go:49-51 | every delete request in the trace belongs to a handled status, and there are none in a dry run |
| `Floots.QualifyingDeleted` | main.go:46-51 | in a real run, every qualifying status is announced and immediately followed by a delete request for its ID, with no assumption about the other statuses' IDs |
| `Floots.DeletedIff` | main.go:47-51 | when IDs are distinct, a status's ID is requested for deletion exactly when this is not a dry run and the status qualifies; a status that is too young, whose age equals the limit, or that a rule protects, produces no request |
| `Floots.DeletedOnce` | main.go:46-51 | when IDs are distinct, no ID is requested for deletion twice |
| `Floots.DryRunOnlyAnnounces` | main.go:48-51 | a dry run emits only notices, and they are the notices of a real run over the same statuses and clock, in the same order; the real run has one delete request after each of them |
| `Floots.EmptyExcludeSweepsNothing` | main.go:80-83 | as written, with an empty `FLOOTS_EXCLUDE` the sweep emits no event at all, dry run or not: nothing is announced and nothing is deleted |
| `Floots.RemoveToots` | main.go:31-56 | a failed account lookup or fetch returns that error with an empty trace. Otherwise the result is nil, whatever the delete replies were, and the trace is the sweep of the fetched statuses in order. The trace does not depend on the delete replies, so a failed delete does not stop later statuses from being processed |

## Left out

- The `go-mastodon` client (`GetAccountCurrentUser`, `GetAccountStatuses`, `DeleteStatus`) is network I/O in an external library. Its results are parameters and its delete requests are trace events. Whatever pagination the client applies is inside the supplied status list.
- Loading the `.env` file and reading `os.Getenv`/`os.LookupEnv` (main.go:64-73) are left out. They are environment and file I/O.
- `strconv.ParseBool` and `time.ParseDuration` (main.go:75-88) are left out, along with the fatal exit on a bad value. They are foreign parsers. `dryRun` and `ageLimit` are taken as already parsed.
- `main`'s step-by-step assignment of the globals, client construction and `log.Fatal` (main.go:58-101) are left out. The globals are the `Config` parameter.
- The `fmt.Printf` format of a notice is left out. A notice is an event carrying the content and the creation time.
- Status content is treated as an opaque string. Any HTML in it is not interpreted.
- Floots.Qualifies: the age is the unbounded difference `now - createdAt`. `time.Duration` is a 64-bit count, and `time.Since` saturates at its bounds. That only matters for times about 292 years apart.
- GoStrings.Split: only a one-character separator is modelled, and strings are sequences of characters rather than UTF-8 bytes. This agrees with Go for the ASCII separator `:`.
- GoStrings.Contains: strings are sequences of characters, while Go's `strings.Contains` searches bytes. The two agree when content and rule are valid UTF-8. On malformed byte strings Go can match across a broken sequence, which is not modelled.
- Discarding the delete errors may well be unintended, but the code does it, so the model does too. Each reply is stored in `err` and then overwritten, and the result is nil. It is not listed as a finding because the intended result is not evident.

## Findings

| source | as written | input that shows it | evidently intended | confidence | as-written member | corrected member |
|---|---|---|---|---|---|---|
| main.go:80-83 | `strings.Split` of an empty `FLOOTS_EXCLUDE` gives `[""]`, never an empty list. The empty rule occurs in every content, so every status is excluded and nothing is deleted. The "no exclude tags defined" branch is dead. | `FLOOTS_EXCLUDE` unset or `""` | an empty value means no exclusion rules | high; not executed | `Floots.EmptyExcludeSweepsNothing` | `Floots.IntendedExcludeRulesProtect` |
