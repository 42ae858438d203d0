/**
 * The release bookkeeping of releaseJira.py once its I/O is taken out: the deployment diff
 * (`create_release_list`), the release-log matching that extends the release ticket's description
 * (`release_ticket`) and the marking of version records (`release_version`). The manifests, the
 * fetched ticket description, the release log, the project's version records and the status codes
 * of the version updates are parameters.
 */
module ReleaseJira {
  import opened Text
  import opened Results
  import opened VersionPattern

  // ---------------------------------------------------------------------------------------------
  // Deployment diff
  // ---------------------------------------------------------------------------------------------

  /** One `{name, version}` record of a deployment manifest. */
  datatype Deployment = Deployment(name: string, version: string)

  /** Deployment name to source-repository name, fixed inside `create_release_list`. */
  const SOURCE_NAMES: map<string, string> := map["backend-srv" := "backend-source", "frontend-srv" := "frontend-source"]

  /** The suffix dropped from versions (every occurrence, as `str.replace` does). */
  const RELEASE_SUFFIX := ".RELEASE"

  /** The release identifier of one changed service: `<source name>-<version without ".RELEASE">`. */
  function ReleaseId(sourceName: string, version: string): (id: string)
    ensures |id| > |sourceName| && id[..|sourceName| + 1] == sourceName + "-"
  {
    sourceName + "-" + RemoveAll(version, RELEASE_SUFFIX)
  }

  /**
   * A version that does not contain `.RELEASE` loses a trailing `.RELEASE` and nothing else, and is
   * used as it is when it has no suffix.
   */
  lemma ReleaseIdStripsSuffix(sourceName: string, version: string)
    requires !Contains(version, RELEASE_SUFFIX)
    ensures ReleaseId(sourceName, version + RELEASE_SUFFIX) == sourceName + "-" + version
    ensures ReleaseId(sourceName, version) == sourceName + "-" + version
  {
    assert RELEASE_SUFFIX[0] !in RELEASE_SUFFIX[1..];
    RemoveAllTrailing(version, RELEASE_SUFFIX);
    RemoveAllAbsent(version, RELEASE_SUFFIX);
  }

  /**
   * The suffix is removed in one pass, so a version can keep a `.RELEASE`: `..RELEASERELEASE`
   * gives the identifier `<source name>-.RELEASE`, which a second pass would strip.
   */
  lemma ReleaseIdKeepsJoinedSuffix(sourceName: string)
    ensures ReleaseId(sourceName, "..RELEASERELEASE") == sourceName + "-" + RELEASE_SUFFIX
    ensures RemoveAll(RELEASE_SUFFIX, RELEASE_SUFFIX) == []
  {
    assert RELEASE_SUFFIX[0] == '.' && RELEASE_SUFFIX[1] == 'R';
    assert "..RELEASERELEASE" == [RELEASE_SUFFIX[0]] + RELEASE_SUFFIX + RELEASE_SUFFIX[1..];
    RemovalNotIdempotent(RELEASE_SUFFIX);
  }

  /**
   * The version record named after a release: a numeric `<x>.<y>.<z>.RELEASE` of a source whose
   * name has no `-` before a digit is released as `<source>-<x>.<y>.<z>`, which the rename turns
   * into `<source>_<x>.<y>.<z>`.
   */
  lemma VersionRecordName(sourceName: string, x: string, y: string, z: string)
    requires forall k :: !DashBeforeDigit(sourceName, k)
    requires x != [] && y != [] && z != [] && AllDigits(x) && AllDigits(y) && AllDigits(z)
    ensures ReleaseId(sourceName, x + "." + y + "." + z + RELEASE_SUFFIX) == sourceName + "-" + x + "." + y + "." + z
    ensures Rename(ReleaseId(sourceName, x + "." + y + "." + z + RELEASE_SUFFIX)) == sourceName + "_" + x + "." + y + "." + z
  {
    var version := x + "." + y + "." + z;
    NoRInVersion(x, y, z);
    assert RELEASE_SUFFIX[1] == 'R';
    AbsentWithoutSecond(version, RELEASE_SUFFIX);
    ReleaseIdStripsSuffix(sourceName, version);
    assert sourceName + "-" + version == sourceName + "-" + x + "." + y + "." + z;
    RenameReleaseId(sourceName, x, y, z);
  }

  lemma NoRInVersion(x: string, y: string, z: string)
    requires AllDigits(x) && AllDigits(y) && AllDigits(z)
    ensures 'R' !in x + "." + y + "." + z
  {
    var v := x + "." + y + "." + z;
    forall k | 0 <= k < |v| ensures v[k] != 'R' {
      if k < |x| {
        assert v[k] == x[k];
      } else if |x| < k < |x| + 1 + |y| {
        assert v[k] == y[k - |x| - 1];
      } else if |x| + 1 + |y| < k {
        assert v[k] == z[k - |x| - |y| - 2];
      }
    }
  }

  /** A current record and a previous record of the same service with different versions. */
  predicate Changed(c: Deployment, p: Deployment)
  {
    c.name == p.name && c.version != p.version
  }

  /** Every changed service has a source name; the map is not consulted for any other record. */
  predicate ChangedNamesMapped(previous: seq<Deployment>, current: seq<Deployment>, source: map<string, string>)
  {
    forall c, p :: c in current && p in previous && Changed(c, p) ==> c.name in source
  }

  /** The release list: one identifier for every changed cross pair, duplicates collapsed. */
  function ReleaseList(previous: seq<Deployment>, current: seq<Deployment>, source: map<string, string>): set<string>
    requires ChangedNamesMapped(previous, current, source)
  {
    set c, p | c in current && p in previous && Changed(c, p) :: ReleaseId(source[c.name], c.version)
  }

  /** One previous and one current record of a changed, mapped service release exactly one identifier. */
  lemma ReleaseListOfOnePair(p: Deployment, c: Deployment, source: map<string, string>)
    requires Changed(c, p) && c.name in source
    ensures ChangedNamesMapped([p], [c], source)
    ensures ReleaseList([p], [c], source) == {ReleaseId(source[c.name], c.version)}
  {
    assert c in [c] && p in [p];
  }

  /**
   * A current record that has no changed counterpart (its service is missing from the previous
   * manifest, or deployed there only at the same version) adds nothing and needs no source name.
   */
  lemma ReleaseListIgnoresUnchanged(previous: seq<Deployment>, current: seq<Deployment>, c: Deployment,
                                    source: map<string, string>)
    requires ChangedNamesMapped(previous, current, source)
    requires forall p :: p in previous ==> !Changed(c, p)
    ensures ChangedNamesMapped(previous, current + [c], source)
    ensures ReleaseList(previous, current + [c], source) == ReleaseList(previous, current, source)
  {
  }

  /** Why the diff fails: a changed service is missing from the name map (Python's KeyError). */
  datatype DiffError = UnmappedService(name: string)

  /**
   * `create_release_list` after the manifests are loaded: a nested index loop over the current and
   * the previous records that adds an identifier for every changed pair, and fails at the first
   * changed pair whose service has no source name.
   */
  method CreateReleaseList(previous: seq<Deployment>, current: seq<Deployment>, source: map<string, string>)
    returns (r: Result<set<string>, DiffError>)
    ensures r.Success? <==> ChangedNamesMapped(previous, current, source)
    ensures r.Success? ==> r.value == ReleaseList(previous, current, source)
    ensures r.Failure? ==>
              && r.error.name !in source
              && exists c, p :: c in current && p in previous && Changed(c, p) && c.name == r.error.name
  {
    var releaseList: set<string> := {};
    for i := 0 to |current|
      invariant ChangedNamesMapped(previous, current[..i], source)
      invariant releaseList == ReleaseList(previous, current[..i], source)
    {
      var c := current[i];
      for y := 0 to |previous|
        invariant ChangedNamesMapped(previous[..y], [c], source)
        invariant releaseList == ReleaseList(previous, current[..i], source) + ReleaseList(previous[..y], [c], source)
      {
        var p := previous[y];
        if Changed(c, p) {
          if c.name !in source {
            assert c in current && p in previous;
            return Failure(UnmappedService(c.name));
          }
          releaseList := releaseList + {ReleaseId(source[c.name], c.version)};
        }
        assert previous[..y + 1] == previous[..y] + [p];
      }
      assert previous[..|previous|] == previous;
      assert current[..i + 1] == current[..i] + [c];
      ReleaseListAppend(previous, current[..i], c, source);
    }
    assert current[..|current|] == current;
    return Success(releaseList);
  }

  /** The release list of `current + [c]` adds the contribution of `c` alone. */
  lemma ReleaseListAppend(previous: seq<Deployment>, current: seq<Deployment>, c: Deployment, source: map<string, string>)
    requires ChangedNamesMapped(previous, current, source) && ChangedNamesMapped(previous, [c], source)
    ensures ChangedNamesMapped(previous, current + [c], source)
    ensures ReleaseList(previous, current + [c], source) == ReleaseList(previous, current, source) + ReleaseList(previous, [c], source)
  {
  }

  /** Reordering either manifest (any permutation of its records) leaves the release list as it is. */
  lemma ReleaseListOrderIrrelevant(previous: seq<Deployment>, current: seq<Deployment>,
                                   previous': seq<Deployment>, current': seq<Deployment>, source: map<string, string>)
    requires multiset(previous) == multiset(previous') && multiset(current) == multiset(current')
    requires ChangedNamesMapped(previous, current, source)
    ensures ChangedNamesMapped(previous', current', source)
    ensures ReleaseList(previous', current', source) == ReleaseList(previous, current, source)
  {
    assert forall d :: d in previous <==> d in multiset(previous');
    assert forall d :: d in current <==> d in multiset(current');
  }

  /**
   * Only the entries of changed services matter: two name maps that agree on them give the same
   * release list, whatever else they hold or lack.
   */
  lemma ReleaseListUsesOnlyChangedNames(previous: seq<Deployment>, current: seq<Deployment>,
                                        source: map<string, string>, source': map<string, string>)
    requires ChangedNamesMapped(previous, current, source)
    requires forall c, p :: c in current && p in previous && Changed(c, p) ==> c.name in source' && source'[c.name] == source[c.name]
    ensures ChangedNamesMapped(previous, current, source')
    ensures ReleaseList(previous, current, source') == ReleaseList(previous, current, source)
  {
  }




  // ---------------------------------------------------------------------------------------------
  // Release-log matching and the ticket description
  // ---------------------------------------------------------------------------------------------

  /**
   * `re.match(r'^REL-[\d]+', line)` succeeds: the line opens with `REL-` and the greedy run of
   * (ASCII) digits behind it is not empty.
   */
  predicate IsTicketLine(line: string)
    ensures IsTicketLine(line) <==> |line| >= 4 && line[..4] == "REL-" && DigitRun(line, 4) > 0
  {
    |line| >= 5 && line[..4] == "REL-" && IsDigit(line[4])
  }

  /** The released apps named somewhere in `line` (Python's `app in line`). */
  function MatchingApps(line: string, apps: set<string>): set<string>
  {
    set a | a in apps && Contains(line, a)
  }

  /** What one log line appends: the line plus a newline once for every app it names, if it is a ticket line. */
  function LineUpdate(line: string, apps: set<string>): string
  {
    if IsTicketLine(line) then Repeat(line + "\n", |MatchingApps(line, apps)|) else []
  }

  /** What the whole log appends to the description, line by line in file order. */
  function LogUpdate(log: seq<string>, apps: set<string>): string
  {
    if log == [] then [] else LineUpdate(log[0], apps) + LogUpdate(log[1..], apps)
  }

  /** The apps that a ticket line names, collected over the log. */
  function FoundInLog(log: seq<string>, apps: set<string>): set<string>
  {
    if log == [] then {}
    else FoundInLog(log[..|log| - 1], apps) + (if IsTicketLine(log[|log| - 1]) then MatchingApps(log[|log| - 1], apps) else {})
  }

  /**
   * The matching part of `release_ticket`: for every log line and every released app the line names,
   * a ticket line is appended to the description and the app is found. The fetched description gets
   * two newlines first; the apps never found are the warnings.
   */
  method ReleaseTicket(description: string, log: seq<string>, apps: set<string>)
    returns (update: string, found: set<string>, warnings: set<string>)
    ensures update == description + "\n\n" + LogUpdate(log, apps)
    ensures description <= update
    ensures found == FoundInLog(log, apps)
    ensures warnings == apps - found
  {
    var text;
    text, found := ScanLog(log, apps);
    update := description + "\n\n" + text;
    warnings := apps - found;
  }

  /** The loop of `release_ticket` over the log lines, in file order. */
  method ScanLog(log: seq<string>, apps: set<string>) returns (text: string, found: set<string>)
    ensures text == LogUpdate(log, apps)
    ensures found == FoundInLog(log, apps)
  {
    text, found := [], {};
    for k := 0 to |log|
      invariant text == LogUpdate(log[..k], apps)
      invariant found == FoundInLog(log[..k], apps)
    {
      var appended, lineFound := MatchLine(log[k], apps);
      LogStep(log, k, apps);
      text := text + appended;
      found := found + lineFound;
    }
    assert log[..|log|] == log;
  }

  /** One more line of the log: what it appends and what it finds. */
  lemma LogStep(log: seq<string>, k: nat, apps: set<string>)
    requires k < |log|
    ensures LogUpdate(log[..k + 1], apps) == LogUpdate(log[..k], apps) + LineUpdate(log[k], apps)
    ensures FoundInLog(log[..k + 1], apps) == FoundInLog(log[..k], apps) + (if IsTicketLine(log[k]) then MatchingApps(log[k], apps) else {})
  {
    assert log[..k + 1][..k] == log[..k];
    assert log[..k + 1] == log[..k] + [log[k]];
    LogSnoc(log[..k], log[k], apps);
  }

  /** The inner loop of the log scan: every released app the line names, tried in the set's order. */
  method MatchLine(line: string, apps: set<string>) returns (appended: string, found: set<string>)
    ensures appended == LineUpdate(line, apps)
    ensures found == if IsTicketLine(line) then MatchingApps(line, apps) else {}
  {
    appended, found := [], {};
    var rest := apps;
    ghost var done: set<string> := {};
    while rest != {}
      invariant rest <= apps && done == apps - rest
      invariant appended == if IsTicketLine(line) then Repeat(line + "\n", |MatchingApps(line, done)|) else []
      invariant found == if IsTicketLine(line) then MatchingApps(line, done) else {}
      decreases rest
    {
      var app :| app in rest;
      MatchStep(line, done, app);
      rest := rest - {app};
      done := done + {app};
      if Contains(line, app) && IsTicketLine(line) {
        appended := appended + (line + "\n");
        found := found + {app};
      }
    }
    assert done == apps;
  }

  /** Trying one more app: the apps the line names, and the copies of the line appended for them. */
  lemma MatchStep(line: string, done: set<string>, app: string)
    requires app !in done
    ensures MatchingApps(line, done + {app}) ==
            if Contains(line, app) then MatchingApps(line, done) + {app} else MatchingApps(line, done)
    ensures Repeat(line + "\n", |MatchingApps(line, done + {app})|) ==
            if Contains(line, app) then Repeat(line + "\n", |MatchingApps(line, done)|) + (line + "\n")
            else Repeat(line + "\n", |MatchingApps(line, done)|)
  {
    MatchingAppsStep(line, done, app);
    if Contains(line, app) {
      var k := |MatchingApps(line, done)|;
      assert Repeat(line + "\n", k + 1) == Repeat(line + "\n", k) + (line + "\n");
    }
  }

  /** Trying one more app adds it to the apps the line names exactly when the line contains it. */
  lemma MatchingAppsStep(line: string, done: set<string>, app: string)
    requires app !in done
    ensures MatchingApps(line, done + {app}) ==
            if Contains(line, app) then MatchingApps(line, done) + {app} else MatchingApps(line, done)
    ensures Contains(line, app) ==> |MatchingApps(line, done + {app})| == |MatchingApps(line, done)| + 1
  {
  }

  /** An app is found iff it is released and some ticket line of the log names it. */
  lemma {:induction false} FoundInLogIff(log: seq<string>, apps: set<string>, a: string)
    ensures a in FoundInLog(log, apps) <==>
            a in apps && exists k :: 0 <= k < |log| && IsTicketLine(log[k]) && Contains(log[k], a)
    decreases |log|
  {
    if log != [] {
      var init := log[..|log| - 1];
      FoundInLogIff(init, apps, a);
      if exists k :: 0 <= k < |log| && IsTicketLine(log[k]) && Contains(log[k], a) {
        var k :| 0 <= k < |log| && IsTicketLine(log[k]) && Contains(log[k], a);
        if k < |log| - 1 {
          assert init[k] == log[k];
        }
      }
    }
  }

  /** The text appended for a log is the text of its lines, in file order: it splits at any line boundary. */
  lemma {:induction false} LogUpdateAppend(first: seq<string>, second: seq<string>, apps: set<string>)
    ensures LogUpdate(first + second, apps) == LogUpdate(first, apps) + LogUpdate(second, apps)
    decreases |first|
  {
    if first == [] {
      assert first + second == second;
    } else {
      assert (first + second)[1..] == first[1..] + second;
      LogUpdateAppend(first[1..], second, apps);
    }
  }

  /** A line added at the end of the log appends its own text. */
  lemma LogSnoc(log: seq<string>, line: string, apps: set<string>)
    ensures LogUpdate(log + [line], apps) == LogUpdate(log, apps) + LineUpdate(line, apps)
  {
    LogUpdateAppend(log, [line], apps);
    assert [line][1..] == [];
  }

  /** A ticket line naming the one released app finds it and is appended once, with a newline. */
  lemma LineNamingTheOnlyApp(line: string, app: string)
    requires IsTicketLine(line) && Contains(line, app)
    ensures MatchingApps(line, {app}) == {app}
    ensures LineUpdate(line, {app}) == line + "\n"
  {
    assert MatchingApps(line, {app}) == {app};
    assert Repeat(line + "\n", 1) == [] + (line + "\n");
  }

  /** A ticket line that names two released apps is appended at least twice, and exactly twice when they are the only ones. */
  lemma LineNamingTwoApps(line: string, apps: set<string>, x: string, y: string)
    requires IsTicketLine(line)
    requires x in apps && y in apps && x != y && Contains(line, x) && Contains(line, y)
    ensures var l := line + "\n"; l + l <= LineUpdate(line, apps)
    ensures apps == {x, y} ==> LineUpdate(line, apps) == line + "\n" + (line + "\n")
  {
    var matching := MatchingApps(line, apps);
    assert x in matching && y in matching;
    TwoMembers(x, y, matching);
    var l := line + "\n";
    RepeatPrefix(l, 2, |matching|);
    RepeatTwice(l);
    if apps == {x, y} {
      assert matching == {x, y};
      assert |matching| == 2;
    }
  }

  /** A set with two different members has at least two elements. */
  lemma TwoMembers<T>(x: T, y: T, s: set<T>)
    requires x != y && x in s && y in s
    ensures |s| >= 2
  {
    assert |{x, y}| == 2;
    assert s == {x, y} + (s - {x, y});
  }

  /** Two copies of `l` are `l + l`. */
  lemma RepeatTwice<T>(l: seq<T>)
    ensures Repeat(l, 2) == l + l
  {
    assert Repeat(l, 1) == [] + l;
  }


  // ---------------------------------------------------------------------------------------------
  // Marking version records
  // ---------------------------------------------------------------------------------------------

  /** A version record of the ticket system's project: its name and its id. */
  datatype Version = Version(name: string, id: string)

  /** The body of the PUT that updates a version record. */
  datatype VersionUpdate = VersionUpdate(id: string, released: bool, description: string)

  /** The start of the description every version update carries; the user name follows it. */
  const TRANSITION_NOTE := "Transition performed by DevOps team triggered by :"

  /** The update sent for version `v`: `released` is always false. */
  function UpdateBody(v: Version, user: string): VersionUpdate
  {
    VersionUpdate(v.id, false, TRANSITION_NOTE + user)
  }

  /** The released apps under their version-record names. */
  function Renamed(apps: set<string>): set<string>
  {
    set a | a in apps :: Rename(a)
  }

  /** The released apps whose version-record name is the name of `v`. */
  function AppsNaming(v: Version, apps: set<string>): set<string>
  {
    set a | a in apps && Rename(a) == v.name
  }

  /** The updates sent, version by version in the project's order: one per app that names the version. */
  function VersionRequests(versions: seq<Version>, apps: set<string>, user: string): seq<VersionUpdate>
  {
    if versions == [] then []
    else
      var v := versions[|versions| - 1];
      VersionRequests(versions[..|versions| - 1], apps, user) + Repeat([UpdateBody(v, user)], |AppsNaming(v, apps)|)
  }

  /** The version names marked: a version some app names, whose update came back with status 200. */
  function Marked(versions: seq<Version>, apps: set<string>, user: string, status: VersionUpdate -> int): set<string>
  {
    if versions == [] then {}
    else
      var v := versions[|versions| - 1];
      Marked(versions[..|versions| - 1], apps, user, status) +
        (if |AppsNaming(v, apps)| > 0 && status(UpdateBody(v, user)) == 200 then {v.name} else {})
  }

  /**
   * `release_version`: for every version record and every released app whose renamed identifier is
   * the record's name, send the update; a 200 answer marks the name found. Renamed apps not found
   * are the warnings. `status` stands for the answers of the ticket system.
   */
  method ReleaseVersion(versions: seq<Version>, apps: set<string>, user: string, status: VersionUpdate -> int)
    returns (found: set<string>, warnings: set<string>, requests: seq<VersionUpdate>)
    ensures requests == VersionRequests(versions, apps, user)
    ensures found == Marked(versions, apps, user, status)
    ensures warnings == Renamed(apps) - found
  {
    found, requests := {}, [];
    for i := 0 to |versions|
      invariant requests == VersionRequests(versions[..i], apps, user)
      invariant found == Marked(versions[..i], apps, user, status)
    {
      var sent, marked := UpdateVersion(versions[i], apps, user, status);
      VersionStep(versions, i, apps, user, status);
      requests := requests + sent;
      found := found + marked;
    }
    assert versions[..|versions|] == versions;
    warnings := Renamed(apps) - found;
  }

  /** One more version record: the updates it gets and whether its name is marked. */
  lemma VersionStep(versions: seq<Version>, i: nat, apps: set<string>, user: string, status: VersionUpdate -> int)
    requires i < |versions|
    ensures VersionRequests(versions[..i + 1], apps, user) ==
            VersionRequests(versions[..i], apps, user) + Repeat([UpdateBody(versions[i], user)], |AppsNaming(versions[i], apps)|)
    ensures Marked(versions[..i + 1], apps, user, status) == Marked(versions[..i], apps, user, status) +
            (if |AppsNaming(versions[i], apps)| > 0 && status(UpdateBody(versions[i], user)) == 200 then {versions[i].name} else {})
  {
    assert versions[..i + 1][..i] == versions[..i];
  }

  /** The inner loop of `release_version` for one version record: every released app, in the set's order. */
  method UpdateVersion(v: Version, apps: set<string>, user: string, status: VersionUpdate -> int)
    returns (sent: seq<VersionUpdate>, found: set<string>)
    ensures sent == Repeat([UpdateBody(v, user)], |AppsNaming(v, apps)|)
    ensures found == if |AppsNaming(v, apps)| > 0 && status(UpdateBody(v, user)) == 200 then {v.name} else {}
  {
    sent, found := [], {};
    var body := UpdateBody(v, user);
    ghost var accepted := status(body) == 200;
    var rest := apps;
    ghost var done: set<string> := {};
    while rest != {}
      invariant rest <= apps && done == apps - rest
      invariant sent == Repeat([body], |AppsNaming(v, done)|)
      invariant found == if |AppsNaming(v, done)| > 0 && accepted then {v.name} else {}
      decreases rest
    {
      var app :| app in rest;
      UpdateVersionStep(v, done, app, body);
      rest := rest - {app};
      done := done + {app};
      var name := Rename(app);
      if name == v.name {
        sent := sent + [body];
        if status(body) == 200 {
          found := found + {name};
        }
      }
    }
    assert done == apps;
  }

  /** The updates and the marking after trying one more app. */
  lemma UpdateVersionStep(v: Version, done: set<string>, app: string, body: VersionUpdate)
    requires app !in done
    ensures Repeat([body], |AppsNaming(v, done + {app})|) ==
            if Rename(app) == v.name then Repeat([body], |AppsNaming(v, done)|) + [body]
            else Repeat([body], |AppsNaming(v, done)|)
    ensures (|AppsNaming(v, done + {app})| > 0) == (|AppsNaming(v, done)| > 0 || Rename(app) == v.name)
  {
    AppsNamingStep(v, done, app);
    if Rename(app) == v.name {
      var k := |AppsNaming(v, done)|;
      assert Repeat([body], k + 1) == Repeat([body], k) + [body];
    }
  }

  /** Trying one more app adds it to the apps naming `v` exactly when its renamed identifier is the name of `v`. */
  lemma AppsNamingStep(v: Version, done: set<string>, app: string)
    requires app !in done
    ensures AppsNaming(v, done + {app}) == if Rename(app) == v.name then AppsNaming(v, done) + {app} else AppsNaming(v, done)
    ensures Rename(app) == v.name ==> |AppsNaming(v, done + {app})| == |AppsNaming(v, done)| + 1
  {
  }

  /**
   * A renamed app is found iff it is the name of some version record whose update was answered
   * with status 200.
   */
  lemma {:induction false} MarkedIff(versions: seq<Version>, apps: set<string>, user: string,
                                     status: VersionUpdate -> int, name: string)
    ensures name in Marked(versions, apps, user, status) <==>
            name in Renamed(apps) &&
            exists k :: 0 <= k < |versions| && versions[k].name == name && status(UpdateBody(versions[k], user)) == 200
    decreases |versions|
  {
    if versions != [] {
      var init := versions[..|versions| - 1];
      var v := versions[|versions| - 1];
      MarkedIff(init, apps, user, status, name);
      if name in Renamed(apps) {
        var a :| a in apps && Rename(a) == name;
        if v.name == name {
          assert a in AppsNaming(v, apps);
        }
      }
      if |AppsNaming(v, apps)| > 0 && name == v.name {
        var a :| a in AppsNaming(v, apps);
        assert Rename(a) == name;
      }
      if exists k :: 0 <= k < |versions| && versions[k].name == name && status(UpdateBody(versions[k], user)) == 200 {
        var k :| 0 <= k < |versions| && versions[k].name == name && status(UpdateBody(versions[k], user)) == 200;
        if k < |versions| - 1 {
          assert init[k] == versions[k];
        }
      }
    }
  }

  /** Every update sent sets `released` to false and carries the user's description. */
  lemma {:induction false} RequestsNeverRelease(versions: seq<Version>, apps: set<string>, user: string)
    ensures forall u :: u in VersionRequests(versions, apps, user) ==>
              !u.released && u.description == TRANSITION_NOTE + user
    decreases |versions|
  {
    if versions != [] {
      var v := versions[|versions| - 1];
      RequestsNeverRelease(versions[..|versions| - 1], apps, user);
      forall u | u in Repeat([UpdateBody(v, user)], |AppsNaming(v, apps)|) ensures u == UpdateBody(v, user) {
        RepeatElements([UpdateBody(v, user)], |AppsNaming(v, apps)|, u);
      }
    }
  }

}
