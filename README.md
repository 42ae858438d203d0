# Release bookkeeping, modelled in Dafny

This project models the deterministic core of two release scripts once their I/O is taken out.

`releaseJira.py`:
- **Deployment diff** (`create_release_list`). Two deployment manifests, each a sequence of `{name, version}` records, are compared pair by pair. Every service deployed in both at different versions gives the release identifier `<source name>-<version without ".RELEASE">`.
- **Release-log matching** (`release_ticket`). Every log line that starts with `REL-<digits>` is appended to the release ticket's description, once for every released identifier it contains. The identifiers named by no such line are the warnings.
- **Version marking** (`release_version`). Each identifier is renamed with `re.sub(r'(-)([0-9]+.[0-9]+.[0-9]+)', r'_\2', ·)`. An update is sent to every version record whose name equals a renamed identifier. A version is found when its update is answered with status 200; the renamed identifiers not found are the warnings. Every update body sets `released` to false, so no record is ever actually marked released.

`createReleaseNotes.py`:
- **Release label** (`releaseLabel`). A year, month or week number becomes a label `RY.<year>`, `RM.<current year>.<mm>` or `RW.<current year>.<ww>`, or a message and an exit with status 0.
- **Page title**. It is built from `"RE." + env` and the current date.

Files:
- `results.dfy`: `Option` and `Result`.
- `text.dfy`: the Python string built-ins the scripts use, namely `in`, `replace(pat, "")`, `str(n)` and `zfill`.
- `version_pattern.dfy`: the rename. It reproduces where the regular-expression engine ends each match, including backtracking, and proves that it finds a match exactly where the pattern can match.
- `release_jira.dfy`: the three operations of `releaseJira.py`. Each is an imperative method proved against specification functions, and lemmas state what the functions promise.
- `release_notes.dfy`: the pure label and title functions, with a label parser that inverts `ReleaseLabel`.
- `release_examples.dfy`: worked examples on concrete manifests, identifiers and log lines.

Inputs that come from outside are parameters:
- the manifests, already loaded;
- the service-to-source name map, which generalises the fixed map `SOURCE_NAMES` written inside `create_release_list`;
- the fetched ticket description;
- the release log, as the lines that iterating over the file yields (each keeps its line terminator);
- the project's version records;
- the status code of each version update, as a function of the update body;
- the user name, which goes into the version-update description;
- the current year and date.

Neither string rewrite is idempotent, although re-running the scripts on their own output might suggest so:
- `replace(".RELEASE", "")` removes occurrences in one pass. `..RELEASERELEASE` leaves `.RELEASE` behind, which a second pass removes (`ReleaseJira.ReleaseIdKeepsJoinedSuffix`, `Text.RemovalNotIdempotent`).
- The rename turns `-1-1.1.1` into `_1-1.1.1`, and a second rename gives `_1_1.1.1` (`ReleaseExamples.RenameTwiceExample`).

The rename replaces the first `-` that starts a match, not necessarily the one in front of the version. A source name that itself has a `-` before a digit, such as `svc-2`, is renamed at its own dash: `svc-2-1.0.0` becomes `svc_2-1.0.0`, not `svc-2_1.0.0` (`VersionPattern.RenameKeepsInnerDash` proves the same on `-x-y.z.w`). Both names in `SOURCE_NAMES` are free of this, and `ReleaseJira.VersionRecordName` assumes it of the name.

## Model

| member | source | states |
|---|---|---|
| ReleaseJira.ReleaseId | releaseJira.py:100-101 | a release identifier starts with the source name and a dash |
| ReleaseJira.ReleaseIdStripsSuffix | releaseJira.py:100-101 | a version that does not contain `.RELEASE` (such as `5.0.0.RC1`) loses a trailing `.RELEASE` and nothing else; without the suffix it is used unchanged |
| ReleaseJira.ReleaseIdKeepsJoinedSuffix | releaseJira.py:101 | suffix removal is a single pass: `..RELEASERELEASE` keeps a `.RELEASE` that a second pass would remove |
| ReleaseJira.VersionRecordName | releaseJira.py:100-101 | for a source name with no `-` before a digit (both names in `SOURCE_NAMES` qualify), a numeric `x.y.z.RELEASE` is released as `<source>-x.y.z`, which the rename turns into the record name `<source>_x.y.z` |
| ReleaseJira.ReleaseListOfOnePair | releaseJira.py:89-101 | one changed pair of a mapped service releases exactly its identifier |
| ReleaseJira.CreateReleaseList | releaseJira.py:75-103 | the nested loop succeeds iff every changed pair's service has a source name; on success it returns one identifier per changed pair as a set; otherwise it reports an unmapped service that has a changed pair (the KeyError) |
| ReleaseJira.ReleaseListAppend | releaseJira.py:89-101 | one more current record adds exactly its own changed pairs' identifiers |
| ReleaseJira.ReleaseListIgnoresUnchanged | releaseJira.py:89-93 | a current record missing from the previous manifest, or at the same version there, adds nothing and needs no source name |
| ReleaseJira.ReleaseListOrderIrrelevant | releaseJira.py:87-101 | permuting either manifest leaves the release set unchanged |
| ReleaseJira.ReleaseListUsesOnlyChangedNames | releaseJira.py:79-100 | the name map is consulted only for changed pairs; maps that agree on those give the same set |
| ReleaseJira.IsTicketLine | releaseJira.py:146-149 | `re.match(r'^REL-[\d]+', line)` succeeds iff the line starts with `REL-` and the greedy digit run behind it is non-empty |
| ReleaseJira.ReleaseTicket | releaseJira.py:132-160 | the new description is the old one, two newlines, then each ticket line once per released identifier it contains, in file order; the old description is a prefix; found is the identifiers named by a ticket line; warnings are released minus found |
| ReleaseJira.ScanLog | releaseJira.py:141-151 | the loop over the log lines yields exactly the appended text and found set the specification functions describe |
| ReleaseJira.MatchLine | releaseJira.py:142-151 | for one line, in any iteration order of the set, the line is appended once per matching identifier if it is a ticket line; those identifiers are found |
| ReleaseJira.FoundInLogIff | releaseJira.py:136-151 | an identifier is found iff it was released and some `REL-<digits>` line contains it; hence found is a subset of the released ones |
| ReleaseJira.LogUpdateAppend | releaseJira.py:141-154 | the appended text splits at any line boundary of the log: it is line by line, in file order |
| ReleaseJira.LineNamingTheOnlyApp | releaseJira.py:142-151 | a ticket line naming the only released identifier finds it and is appended once, with a newline |
| ReleaseJira.LineNamingTwoApps | releaseJira.py:142-151 | a ticket line naming two released identifiers is appended at least twice, and exactly twice (`l + l`) when those two are all the released identifiers |
| ReleaseJira.ReleaseVersion | releaseJira.py:163-202 | sends one update per (version, identifier naming it) in version order; found is the names marked; warnings are the renamed identifiers minus found |
| ReleaseJira.UpdateVersion | releaseJira.py:169-193 | for one version record, in any set order, one update per identifier whose rename is the record's name; the name is found iff there is one and the status is 200 |
| ReleaseJira.MarkedIff | releaseJira.py:174-193 | a name is found iff it is a renamed released identifier and some version record of that name had its update answered with 200 |
| ReleaseJira.RequestsNeverRelease | releaseJira.py:177-181 | every update sent has `released` false and the transition note followed by the user as its description |
| VersionPattern.DigitRunMaximal | releaseJira.py:172 | `[0-9]+` is matched greedily: the run is all digits and no digit follows it |
| VersionPattern.SemverEnd | releaseJira.py:172 | a match of `[0-9]+.[0-9]+.[0-9]+` ends past its start and begins with a digit |
| VersionPattern.SemverEndMatches | releaseJira.py:172 | every match found is digits, any character but a newline, digits, any character but a newline, digits |
| VersionPattern.SemverEndComplete | releaseJira.py:172 | no match is missed: whenever the text at a position is digits, a non-newline character, digits, a non-newline character and digits, a match is found there |
| VersionPattern.SemverEndIff | releaseJira.py:172 | a match is found at a position exactly when the pattern's shape occurs there |
| VersionPattern.SemverToEnd | releaseJira.py:172 | digits with two dots, each part non-empty, are matched through to the end |
| VersionPattern.Rename | releaseJira.py:172 | the rename keeps the length |
| VersionPattern.RenameChangesOnlyDashes | releaseJira.py:172 | the only characters the rename changes are some `-` followed by a digit, each of which becomes `_` |
| VersionPattern.RenameWithoutDashDigit | releaseJira.py:172 | a string with no `-` before a digit is unchanged |
| VersionPattern.RenameFromCopies | releaseJira.py:172 | text where no match begins is copied through |
| VersionPattern.RenameReleaseId | releaseJira.py:172 | `<name>-a.b.c` becomes `<name>_a.b.c` when the name has no `-` before a digit |
| VersionPattern.RenameKeepsInnerDash | releaseJira.py:199 | in `-x-y.z.w` the first `.` of the pattern matches the second `-`, so that dash survives the rename |
| ReleaseNotes.ReleaseLabel | createReleaseNotes.py:22-52 | a refused value exits with status 0 |
| ReleaseNotes.LabelRoundTrip | createReleaseNotes.py:22-52 | a label is produced iff the value is 2018 for a year, 1..12 for a month, 1..52 for a week; parsing the label gives the year, or the current year (never the argument) with the month or week |
| ReleaseNotes.PeriodRoundTrip | createReleaseNotes.py:41-52 | a month or week label reads back as the current year and the number |
| ReleaseNotes.PeriodNumberTwoDigits | createReleaseNotes.py:45-52 | month and week labels end in exactly two digits, with a leading `0` iff the number is below 10 |
| ReleaseNotes.YearLabelExample | createReleaseNotes.py:26-38 | 2018 gives `RY.2018`; 1999 exits with "This is not a valid year" |
| ReleaseNotes.MonthLabelExample | createReleaseNotes.py:41-45 | month 3 in 2024 gives `RM.2024.03` |
| ReleaseNotes.WeekLabelExample | createReleaseNotes.py:48-52 | week 52 in 2024 gives `RW.2024.52` |
| ReleaseNotes.FormatDate | createReleaseNotes.py:74 | `strftime("%Y-%m-%d")` is ten characters with dashes at positions 4 and 7 |
| ReleaseNotes.FormatDateRoundTrip | createReleaseNotes.py:74 | the date is `YYYY-MM-DD`, ten characters whose three fields read back as the date |
| ReleaseNotes.ReleaseEnv | createReleaseNotes.py:124 | the `RE.` prefix added to the environment is removed again by the title's `replace` |
| ReleaseNotes.ReleaseTitle | createReleaseNotes.py:74 | the title ends in `" Release Notes "` and the date, and is at most those 25 characters longer than the environment |
| ReleaseNotes.TitleOfEnvironment | createReleaseNotes.py:74 | for an environment without `RE.` in it, the title of `"RE." + env` starts with env itself, then `" Release Notes "` and the date |
| Text.Contains | releaseJira.py:144 | `needle in hay` needs a needle no longer than the string, and the empty needle is in every string |
| Text.ContainsIffOccurs | releaseJira.py:144 | `app in line` holds iff the identifier occurs at some position of the line |
| Text.RemoveAll | releaseJira.py:101 | removing occurrences never lengthens a string |
| Text.RemoveAllAbsent | releaseJira.py:101 | a string without the pattern is unchanged |
| Text.RemoveAllLeading | createReleaseNotes.py:74 | a leading occurrence is dropped and removal goes on behind it |
| Text.RemoveAllTrailing | releaseJira.py:101 | a trailing pattern whose first character does not recur in it is removed from behind a string that does not contain it, and the string is left as it is |
| Text.RemovalNotIdempotent | releaseJira.py:101 | removal is not idempotent: one pass over `p[0] + p + p[1..]` leaves `p`, and a second pass removes it |
| Text.Decimal | createReleaseNotes.py:38 | `str(n)` is non-empty digits, with a leading `0` only for zero |
| Text.DecimalRoundTrip | createReleaseNotes.py:45 | reading back `str(n)` gives `n` |
| Text.ZeroFill | createReleaseNotes.py:45 | `zfill` pads with `0` on the left to the width and keeps the string as its suffix |
| Text.TwoDigits | createReleaseNotes.py:45 | `str(n).zfill(2)` for `n < 100` is two digits reading back as `n`, with a leading `0` iff `n < 10` |
| ReleaseExamples.ReleaseIdExample | releaseJira.py:100-101 | `backend-source` at `1.0.1.RELEASE` is released as `backend-source-1.0.1` |
| ReleaseExamples.ReleaseListExample | releaseJira.py:89-101 | `backend-srv` from `1.0.0` to `1.0.1.RELEASE` releases exactly `backend-source-1.0.1` |
| ReleaseExamples.RenameExample | releaseJira.py:172 | `backend-source-1.0.1` is renamed to `backend-source_1.0.1` |
| ReleaseExamples.RenameStableExample | releaseJira.py:199 | renaming `backend-source_1.0.1` again leaves it unchanged |
| ReleaseExamples.RenameTwiceExample | releaseJira.py:199 | the rename is not idempotent: `-1-1.1.1`, `_1-1.1.1`, `_1_1.1.1` |
| ReleaseExamples.TicketLineExample | releaseJira.py:144-149 | `REL-42 backend-source-1.0.1 shipped` is a ticket line containing the identifier |
| ReleaseExamples.LogMatchExample | releaseJira.py:141-151 | a one-line log naming the released identifier finds it and appends the line once |

## Left out

- Argument parsing, the `global` declarations and `main` are left out. That includes the `-r` flag, which only decides whether `main` calls `release_version`.
- The ticket summary and the environment that `release_ticket` receives are left out. They only feed the ticket creation, which is not modelled.
- JSON loading of the manifests is left out: manifests are sequences of `Deployment` records.
- Fetching the release log over SSH/SFTP (`fetch_release_log`) is network I/O and is left out.
- The ticket-system client calls are left out: creating and fetching the ticket, the description update, listing the project's versions and the REST `PUT`. The fetched description, the version records and a status function are parameters. The status function assumes the same answer for the same body.
- The initial description text is left out. It only feeds the external ticket creation, and the fetched description is a parameter.
- Publishing the page to the wiki is left out. So are its HTML body, `printResponse` and the fix-ups on a 400 answer. This is HTTP I/O, and the latent errors in that code are not modelled either.
- Console output is left out: printed warnings are returned sets. `sys.exit()` is the `Exit` outcome with status 0.
- `datetime.now()` is left out: the current year and date are parameters. Years are 1000..9999, where `%Y` always gives four digits.
- The order in which Python iterates a set is left out. The loops pick elements in any order. The contracts hold for every order, because all identifiers matching one line append the same text.
- ReleaseJira.IsTicketLine: `\d` in `^REL-[\d]+` also matches non-ASCII Unicode digits in Python 3. The model accepts only ASCII digits.
- ReleaseNotes.ReleaseLabel: a filter other than year, month or week is left out, because the argument parser admits only those three (the Python function would return `None`). The label is the integer the parser produces.
- ReleaseJira.CreateReleaseList: on a missing source name the Python function raises after printing and adding earlier identifiers. The model returns the failure and discards the partial set, as the exception does.
- ReleaseJira.VersionRecordName: stated only for source names with no `-` before a digit, such as both names in `SOURCE_NAMES`. For other names the rename replaces the name's own dash, as described above.
