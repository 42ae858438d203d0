/** Worked examples of the release bookkeeping, on concrete manifests, identifiers and log lines. */
module ReleaseExamples {
  import opened Text
  import opened VersionPattern
  import opened ReleaseJira

  /** `backend-source` at `1.0.1.RELEASE` is released as `backend-source-1.0.1`. */
  lemma ReleaseIdExample()
    ensures ReleaseId("backend-source", "1.0.1.RELEASE") == "backend-source-1.0.1"
  {
    SuffixedVersion();
    ReleaseIdStripsSuffix("backend-source", "1.0.1");
    JoinedId();
  }

  /** The example version is the bare version followed by the record suffix. */
  lemma SuffixedVersion()
    ensures "1.0.1.RELEASE" == "1.0.1" + RELEASE_SUFFIX
  {
  }

  /** The example identifier joins the source name and the bare version with a dash. */
  lemma JoinedId()
    ensures "backend-source" + "-" + "1.0.1" == "backend-source-1.0.1"
  {
  }

  /** `backend-srv` moving from `1.0.0` to `1.0.1.RELEASE` releases exactly `backend-source-1.0.1`. */
  lemma ReleaseListExample()
    ensures var previous := [Deployment("backend-srv", "1.0.0")];
            var current := [Deployment("backend-srv", "1.0.1.RELEASE")];
            ChangedNamesMapped(previous, current, SOURCE_NAMES) &&
            ReleaseList(previous, current, SOURCE_NAMES) == {"backend-source-1.0.1"}
  {
    var p, c := Deployment("backend-srv", "1.0.0"), Deployment("backend-srv", "1.0.1.RELEASE");
    assert SOURCE_NAMES["backend-srv"] == "backend-source";
    ReleaseListOfOnePair(p, c, SOURCE_NAMES);
    ReleaseIdExample();
  }

  /** The identifier released in the example becomes the name of its version record. */
  lemma RenameExample()
    ensures Rename("backend-source-1.0.1") == "backend-source_1.0.1"
  {
    var name := "backend-source";
    forall k ensures !DashBeforeDigit(name, k) {
      if 0 <= k && k + 1 < |name| && name[k] == '-' {
        assert k == 7;
      }
    }
    RenameReleaseId(name, "1", "0", "1");
    assert name + "-" + "1" + "." + "0" + "." + "1" == "backend-source-1.0.1";
    assert name + "_" + "1" + "." + "0" + "." + "1" == "backend-source_1.0.1";
  }

  /** The version-record name is left as it is by a second rename: no `-` in it is followed by a digit. */
  lemma RenameStableExample()
    ensures Rename("backend-source_1.0.1") == "backend-source_1.0.1"
  {
    var name := "backend-source_1.0.1";
    forall k ensures !DashBeforeDigit(name, k) {
      if 0 <= k && k + 1 < |name| && name[k] == '-' {
        assert k == 7;
      }
    }
    RenameWithoutDashDigit(name);
  }

  /** The ticket line of the example log names the released identifier. */
  lemma TicketLineExample()
    ensures IsTicketLine("REL-42 backend-source-1.0.1 shipped")
    ensures Contains("REL-42 backend-source-1.0.1 shipped", "backend-source-1.0.1")
  {
    TicketLineParts();
    ContainsBetween("REL-42 backend-source-1.0.1 shipped", "REL-42 ", "backend-source-1.0.1", " shipped");
  }

  /** The example ticket line starts with the ticket prefix and surrounds the identifier. */
  lemma TicketLineParts()
    ensures "REL-42 backend-source-1.0.1 shipped" == "REL-42 " + "backend-source-1.0.1" + " shipped"
    ensures "REL-42 backend-source-1.0.1 shipped"[..4] == "REL-"
  {
  }

  /** A line made of some text, an identifier and more text contains that identifier. */
  lemma ContainsBetween(line: string, before: string, app: string, after: string)
    requires line == before + app + after
    ensures Contains(line, app)
  {
    assert OccursAt(line, app, |before|);
    ContainsIffOccurs(line, app);
  }

  /** A one-line log whose ticket line names the released app finds it and appends the line once. */
  lemma LogMatchExample()
    ensures var log := ["REL-42 backend-source-1.0.1 shipped"];
            var apps := {"backend-source-1.0.1"};
            FoundInLog(log, apps) == apps && LogUpdate(log, apps) == "REL-42 backend-source-1.0.1 shipped\n"
  {
    var line, app := "REL-42 backend-source-1.0.1 shipped", "backend-source-1.0.1";
    TicketLineExample();
    LineNamingTheOnlyApp(line, app);
    SingleLineLog(line, {app});
  }

  /** A log of one line appends and finds what that line does. */
  lemma SingleLineLog(line: string, apps: set<string>)
    ensures FoundInLog([line], apps) == if IsTicketLine(line) then MatchingApps(line, apps) else {}
    ensures LogUpdate([line], apps) == LineUpdate(line, apps)
  {
    assert [line][..0] == [];
    assert [line][1..] == [];
  }

  /**
   * The rename is not idempotent: `-1-1.1.1` becomes `_1-1.1.1`, and renaming that again turns the
   * surviving dash as well.
   */
  lemma RenameTwiceExample()
    ensures Rename("-1-1.1.1") == "_1-1.1.1"
    ensures Rename("_1-1.1.1") == "_1_1.1.1"
  {
    RenameKeepsInnerDash('1', '1', '1', '1');
    RenameTwiceDisplays();
    RenameReleaseId("_1", "1", "1", "1");
    RenameTwiceParts();
  }

  /** The two strings of the example, character by character. */
  lemma RenameTwiceDisplays()
    ensures "-1-1.1.1" == ['-', '1', '-', '1', '.', '1', '.', '1']
    ensures "_1-1.1.1" == ['_', '1', '-', '1', '.', '1', '.', '1']
  {
  }

  /** The second string of the example as a release identifier of the name `_1`. */
  lemma RenameTwiceParts()
    ensures "_1" + "-" + "1" + "." + "1" + "." + "1" == "_1-1.1.1"
    ensures "_1" + "_" + "1" + "." + "1" + "." + "1" == "_1_1.1.1"
    ensures forall k :: !DashBeforeDigit("_1", k)
  {
  }
}
