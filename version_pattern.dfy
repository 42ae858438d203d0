/**
 * The rename that turns a release identifier into the ticket system's version-record name
 * (releaseJira.py:172 and :199): every match of the regular expression `(-)([0-9]+.[0-9]+.[0-9]+)`
 * is replaced by `_` followed by the second group, as Python's `re.sub` does it. Matches are found
 * left to right without overlap; where a match ends follows the engine's greedy, backtracking order.
 * `.` matches any character but a newline, `[0-9]` only ASCII digits.
 */
module VersionPattern {
  import opened Text
  import opened Results

  /** Length of the run of ASCII digits that starts at position `p` of `s`. */
  function DigitRun(s: string, p: nat): (n: nat)
    requires p <= |s|
    ensures p + n <= |s|
    ensures n > 0 ==> IsDigit(s[p])
    decreases |s| - p
  {
    if p < |s| && IsDigit(s[p]) then 1 + DigitRun(s, p + 1) else 0
  }

  /** `DigitRun` measures the longest run: digits all the way, and no digit right behind it. */
  lemma {:induction false} DigitRunMaximal(s: string, p: nat)
    requires p <= |s|
    ensures forall k :: p <= k < p + DigitRun(s, p) ==> IsDigit(s[k])
    ensures p + DigitRun(s, p) == |s| || !IsDigit(s[p + DigitRun(s, p)])
    decreases |s| - p
  {
    if p < |s| && IsDigit(s[p]) {
      DigitRunMaximal(s, p + 1);
    }
  }

  /** End of the last `[0-9]+` when it starts at `p`: nothing follows it, so it takes the whole run. */
  function LastGroupEnd(s: string, p: nat): (e: Option<nat>)
    requires p <= |s|
    ensures e.Some? ==> p < e.value <= |s| && IsDigit(s[p])
  {
    if DigitRun(s, p) > 0 then Some(p + DigitRun(s, p)) else None
  }

  /**
   * End of `[0-9]+.[0-9]+` starting at `p` when its first group may take at most `k` digits:
   * the group gives digits back one at a time until a non-newline character and a last group follow.
   */
  function MiddleGroupEnd(s: string, p: nat, k: nat): (e: Option<nat>)
    requires p <= |s| && k <= DigitRun(s, p)
    ensures e.Some? ==> p < e.value <= |s| && IsDigit(s[p])
    decreases k
  {
    if k == 0 then None
    else if p + k < |s| && s[p + k] != '\n' && LastGroupEnd(s, p + k + 1).Some? then LastGroupEnd(s, p + k + 1)
    else MiddleGroupEnd(s, p, k - 1)
  }

  /** End of `[0-9]+.[0-9]+.[0-9]+` starting at `p` when its first group may take at most `k` digits. */
  function FirstGroupEnd(s: string, p: nat, k: nat): (e: Option<nat>)
    requires p <= |s| && k <= DigitRun(s, p)
    ensures e.Some? ==> p < e.value <= |s| && IsDigit(s[p])
    decreases k
  {
    if k == 0 then None
    else if p + k < |s| && s[p + k] != '\n' && MiddleGroupEnd(s, p + k + 1, DigitRun(s, p + k + 1)).Some? then
      MiddleGroupEnd(s, p + k + 1, DigitRun(s, p + k + 1))
    else FirstGroupEnd(s, p, k - 1)
  }

  /** Where a match of the second group `[0-9]+.[0-9]+.[0-9]+` starting at `p` ends, if there is one. */
  function SemverEnd(s: string, p: nat): (e: Option<nat>)
    requires p <= |s|
    ensures e.Some? ==> p < e.value <= |s| && IsDigit(s[p])
  {
    FirstGroupEnd(s, p, DigitRun(s, p))
  }

  /** `s[a..b]` is a non-empty run of digits. */
  predicate DigitsIn(s: string, a: nat, b: nat)
  {
    a < b <= |s| && forall k :: a <= k < b ==> IsDigit(s[k])
  }

  /** `s[p..e]` matches `[0-9]+.[0-9]+.[0-9]+`, with the two `.` matching `s[i]` and `s[j]`. */
  predicate VersionMatch(s: string, p: nat, i: nat, j: nat, e: nat)
  {
    DigitsIn(s, p, i) && DigitsIn(s, i + 1, j) && DigitsIn(s, j + 1, e) && s[i] != '\n' && s[j] != '\n'
  }

  /** A last group found at `p` is a run of digits. */
  lemma LastGroupMatches(s: string, p: nat)
    requires p <= |s|
    ensures LastGroupEnd(s, p).Some? ==> DigitsIn(s, p, LastGroupEnd(s, p).value)
  {
    DigitRunMaximal(s, p);
  }

  /** A match of `[0-9]+.[0-9]+` found at `p` is digits, a non-newline character and digits. */
  lemma {:induction false} MiddleGroupMatches(s: string, p: nat, k: nat)
    requires p <= |s| && k <= DigitRun(s, p)
    ensures MiddleGroupEnd(s, p, k).Some? ==>
              exists i: nat :: DigitsIn(s, p, i) && DigitsIn(s, i + 1, MiddleGroupEnd(s, p, k).value) && s[i] != '\n'
    decreases k
  {
    if k > 0 {
      if p + k < |s| && s[p + k] != '\n' && LastGroupEnd(s, p + k + 1).Some? {
        var e := LastGroupEnd(s, p + k + 1).value;
        MiddleFirstTry(s, p, k, e);
        RunPrefix(s, p, k);
        LastGroupMatches(s, p + k + 1);
        TwoGroups(s, p, p + k, e);
      } else {
        MiddleGroupMatches(s, p, k - 1);
      }
    }
  }

  /** The first `k` digits of the run at `p` are digits. */
  lemma RunPrefix(s: string, p: nat, k: nat)
    requires p <= |s| && 0 < k <= DigitRun(s, p)
    ensures DigitsIn(s, p, p + k)
  {
    DigitRunMaximal(s, p);
  }

  /** Two digit groups around a non-newline character at `i` witness a match of `[0-9]+.[0-9]+`. */
  lemma TwoGroups(s: string, p: nat, i: nat, e: nat)
    requires DigitsIn(s, p, i) && DigitsIn(s, i + 1, e) && s[i] != '\n'
    ensures exists i': nat :: DigitsIn(s, p, i') && DigitsIn(s, i' + 1, e) && s[i'] != '\n'
  {
  }

  /** A match of the whole second group found at `p` has the shape of the pattern. */
  lemma {:induction false} FirstGroupMatches(s: string, p: nat, k: nat)
    requires p <= |s| && k <= DigitRun(s, p)
    ensures FirstGroupEnd(s, p, k).Some? ==> exists i: nat, j: nat :: VersionMatch(s, p, i, j, FirstGroupEnd(s, p, k).value)
    decreases k
  {
    if k > 0 {
      if p + k < |s| && s[p + k] != '\n' && MiddleGroupEnd(s, p + k + 1, DigitRun(s, p + k + 1)).Some? {
        var e := MiddleGroupEnd(s, p + k + 1, DigitRun(s, p + k + 1)).value;
        FirstFirstTry(s, p, k, e);
        RunPrefix(s, p, k);
        MiddleGroupMatches(s, p + k + 1, DigitRun(s, p + k + 1));
        var j: nat :| DigitsIn(s, p + k + 1, j) && DigitsIn(s, j + 1, e) && s[j] != '\n';
        assert VersionMatch(s, p, p + k, j, e);
      } else {
        FirstGroupMatches(s, p, k - 1);
      }
    }
  }

  /**
   * What `SemverEnd` finds is a match: digits, any character but a newline, digits, any character
   * but a newline, digits.
   */
  lemma SemverEndMatches(s: string, p: nat)
    requires p <= |s|
    ensures SemverEnd(s, p).Some? ==> exists i: nat, j: nat :: VersionMatch(s, p, i, j, SemverEnd(s, p).value)
  {
    FirstGroupMatches(s, p, DigitRun(s, p));
  }

  /** A run of digits from `a` to `b` lies inside the greedy run that starts at `a`. */
  lemma {:induction false} DigitsWithinRun(s: string, a: nat, b: nat)
    requires DigitsIn(s, a, b)
    ensures b - a <= DigitRun(s, a)
    decreases b - a
  {
    if a + 1 < b {
      DigitsWithinRun(s, a + 1, b);
    }
  }

  /**
   * When `[0-9]+.[0-9]+` can match from `p` with its first group ending at `i`, the backtracking
   * search from any bound `k` that still allows that group finds some match.
   */
  lemma {:induction false} MiddleGroupComplete(s: string, p: nat, k: nat, i: nat, e: nat)
    requires p <= |s| && k <= DigitRun(s, p)
    requires DigitsIn(s, p, i) && DigitsIn(s, i + 1, e) && s[i] != '\n' && i - p <= k
    ensures MiddleGroupEnd(s, p, k).Some?
    decreases k
  {
    if k == i - p {
      assert DigitRun(s, i + 1) > 0;
    } else if !(p + k < |s| && s[p + k] != '\n' && LastGroupEnd(s, p + k + 1).Some?) {
      MiddleGroupComplete(s, p, k - 1, i, e);
    }
  }

  /**
   * When `[0-9]+.[0-9]+.[0-9]+` can match from `p` with its first group ending at `i`, the
   * backtracking search from any bound `k` that still allows that group finds some match.
   */
  lemma {:induction false} FirstGroupComplete(s: string, p: nat, k: nat, i: nat, j: nat, e: nat)
    requires p <= |s| && k <= DigitRun(s, p)
    requires VersionMatch(s, p, i, j, e) && i - p <= k
    ensures FirstGroupEnd(s, p, k).Some?
    decreases k
  {
    if k == i - p {
      DigitsWithinRun(s, i + 1, j);
      MiddleGroupComplete(s, i + 1, DigitRun(s, i + 1), j, e);
    } else if !(p + k < |s| && s[p + k] != '\n' && MiddleGroupEnd(s, p + k + 1, DigitRun(s, p + k + 1)).Some?) {
      FirstGroupComplete(s, p, k - 1, i, j, e);
    }
  }

  /**
   * The search misses no match: whenever some `s[p..e]` is digits, a non-newline character,
   * digits, a non-newline character and digits, `SemverEnd` finds a match at `p`.
   */
  lemma SemverEndComplete(s: string, p: nat, i: nat, j: nat, e: nat)
    requires p <= |s| && VersionMatch(s, p, i, j, e)
    ensures SemverEnd(s, p).Some?
  {
    DigitsWithinRun(s, p, i);
    FirstGroupComplete(s, p, DigitRun(s, p), i, j, e);
  }

  /** A match of the second group begins at `p` exactly when `SemverEnd` finds one there. */
  lemma SemverEndIff(s: string, p: nat)
    requires p <= |s|
    ensures SemverEnd(s, p).Some? <==> exists i: nat, j: nat, e: nat :: VersionMatch(s, p, i, j, e)
  {
    SemverEndMatches(s, p);
    if exists i: nat, j: nat, e: nat :: VersionMatch(s, p, i, j, e) {
      var i: nat, j: nat, e: nat :| VersionMatch(s, p, i, j, e);
      SemverEndComplete(s, p, i, j, e);
    }
  }

  /** The rename applied to `s[i..]`, with the scan for the next match starting at `i`. */
  function RenameFrom(s: string, i: nat): (r: string)
    requires i <= |s|
    ensures |r| == |s| - i
    decreases |s| - i
  {
    if i == |s| then []
    else if s[i] == '-' && SemverEnd(s, i + 1).Some? then
      var e := SemverEnd(s, i + 1).value;
      ['_'] + s[i + 1..e] + RenameFrom(s, e)
    else [s[i]] + RenameFrom(s, i + 1)
  }

  /** `r` is `s[i..]` with some `-` that are followed by a digit turned into `_`. */
  predicate DashesRenamed(s: string, i: nat, r: string)
    requires i <= |s|
  {
    |r| == |s| - i &&
    forall k :: 0 <= k < |r| ==>
      r[k] == s[i + k] || (s[i + k] == '-' && r[k] == '_' && i + k + 1 < |s| && IsDigit(s[i + k + 1]))
  }

  /** The rename from `i` on only turns some `-` before a digit into `_`. */
  lemma {:induction false} RenameFromDashes(s: string, i: nat)
    requires i <= |s|
    ensures DashesRenamed(s, i, RenameFrom(s, i))
    decreases |s| - i
  {
    if i < |s| {
      if s[i] == '-' && SemverEnd(s, i + 1).Some? {
        var e := SemverEnd(s, i + 1).value;
        RenameFromDashes(s, e);
        MatchRenamed(s, i, e, RenameFrom(s, e));
      } else {
        RenameFromDashes(s, i + 1);
        CopyRenamed(s, i, RenameFrom(s, i + 1));
      }
    }
  }

  /** A match `-` followed by the digits up to `e`, written as `_` and the digits, keeps `DashesRenamed`. */
  lemma MatchRenamed(s: string, i: nat, e: nat, rest: string)
    requires i + 1 < e <= |s| && s[i] == '-' && IsDigit(s[i + 1])
    requires DashesRenamed(s, e, rest)
    ensures DashesRenamed(s, i, ['_'] + s[i + 1..e] + rest)
  {
    var r := ['_'] + s[i + 1..e] + rest;
    forall k | 0 <= k < |r|
      ensures r[k] == s[i + k] || (s[i + k] == '-' && r[k] == '_' && i + k + 1 < |s| && IsDigit(s[i + k + 1]))
    {
      if k == 0 {
      } else if k < e - i {
        assert r[k] == s[i + 1..e][k - 1];
      } else {
        assert r[k] == rest[k - (e - i)];
      }
    }
  }

  /** A character copied in front keeps `DashesRenamed`. */
  lemma CopyRenamed(s: string, i: nat, rest: string)
    requires i < |s| && DashesRenamed(s, i + 1, rest)
    ensures DashesRenamed(s, i, [s[i]] + rest)
  {
    var r := [s[i]] + rest;
    forall k | 0 <= k < |r|
      ensures r[k] == s[i + k] || (s[i + k] == '-' && r[k] == '_' && i + k + 1 < |s| && IsDigit(s[i + k + 1]))
    {
      if k > 0 {
        assert r[k] == rest[k - 1];
      }
    }
  }

  /** `re.sub(r'(-)([0-9]+.[0-9]+.[0-9]+)', r'_\2', s)`, which keeps the length of `s`. */
  function Rename(s: string): (r: string)
    ensures |r| == |s|
  {
    RenameFrom(s, 0)
  }

  /** The only characters the rename changes are some `-` that are followed by a digit, each of which becomes `_`. */
  lemma RenameChangesOnlyDashes(s: string)
    ensures forall k {:trigger Rename(s)[k]} :: 0 <= k < |s| ==>
      Rename(s)[k] == s[k] || (s[k] == '-' && Rename(s)[k] == '_' && k + 1 < |s| && IsDigit(s[k + 1]))
  {
    RenameFromDashes(s, 0);
  }

  /** A `-` followed by a digit: the only place a match can begin. */
  predicate DashBeforeDigit(s: string, k: int)
  {
    0 <= k && k + 1 < |s| && s[k] == '-' && IsDigit(s[k + 1])
  }

  /** A string with no `-` followed by a digit is left unchanged. */
  lemma RenameWithoutDashDigit(s: string)
    requires forall k :: !DashBeforeDigit(s, k)
    ensures Rename(s) == s
  {
    RenameChangesOnlyDashes(s);
    forall k | 0 <= k < |s| ensures Rename(s)[k] == s[k] {
      assert !DashBeforeDigit(s, k);
    }
  }

  /** No match begins in `s[i..j]`. */
  predicate NoMatchStart(s: string, i: nat, j: nat)
    requires i <= j <= |s|
    decreases j - i
  {
    i == j || (!DashBeforeDigit(s, i) && NoMatchStart(s, i + 1, j))
  }

  /** Where no match begins, the rename copies the text through. */
  lemma {:induction false} RenameFromCopies(s: string, i: nat, j: nat)
    requires i <= j <= |s| && NoMatchStart(s, i, j)
    ensures RenameFrom(s, i) == s[i..j] + RenameFrom(s, j)
    decreases j - i
  {
    if i < j {
      RenameFromCopies(s, i + 1, j);
      CopiesOne(s, i);
      JoinCopied(s, i, j, RenameFrom(s, i), RenameFrom(s, i + 1), RenameFrom(s, j));
    }
  }

  lemma JoinCopied(s: string, i: nat, j: nat, here: string, next: string, rest: string)
    requires i < j <= |s|
    requires here == [s[i]] + next && next == s[i + 1..j] + rest
    ensures here == s[i..j] + rest
  {
    assert s[i..j] == [s[i]] + s[i + 1..j];
  }

  /** A character where no match begins is copied, and the scan moves on by one. */
  lemma CopiesOne(s: string, i: nat)
    requires i < |s| && !DashBeforeDigit(s, i)
    ensures RenameFrom(s, i) == [s[i]] + RenameFrom(s, i + 1)
  {
    if s[i] == '-' {
      assert SemverEnd(s, i + 1).None?;
    }
  }

  /** A run of exactly `n` digits at `p`: `DigitRun` measures it. */
  lemma {:induction false} DigitRunExact(s: string, p: nat, n: nat)
    requires p + n <= |s| && (forall k :: p <= k < p + n ==> IsDigit(s[k]))
    requires p + n == |s| || !IsDigit(s[p + n])
    ensures DigitRun(s, p) == n
    decreases n
  {
    if n > 0 {
      DigitRunExact(s, p + 1, n - 1);
    }
  }

  /** `s[p..]` is `<digits>.<digits>.<digits>`, each part non-empty, with its dots at `i` and `j`. */
  predicate DigitsAndDots(s: string, p: nat, i: nat, j: nat)
  {
    p < i && i + 1 < j && j + 1 < |s| && s[i] == '.' && s[j] == '.' &&
    forall k :: p <= k < |s| && k != i && k != j ==> IsDigit(s[k])
  }

  /**
   * Digits from `p` to the end of `s` except for two dots at `i` and `j`, with a digit before,
   * between and after them: the whole rest of `s` is one match of the second group.
   */
  lemma SemverToEnd(s: string, p: nat, i: nat, j: nat)
    requires DigitsAndDots(s, p, i, j)
    ensures SemverEnd(s, p) == Some(|s|)
  {
    DigitRunExact(s, p, i - p);
    DigitRunExact(s, i + 1, j - i - 1);
    DigitRunExact(s, j + 1, |s| - j - 1);
    MiddleFirstTry(s, i + 1, j - i - 1, |s|);
    FirstFirstTry(s, p, i - p, |s|);
  }

  /** The middle group keeps all `k` digits when a separator and a last group follow them. */
  lemma MiddleFirstTry(s: string, p: nat, k: nat, e: nat)
    requires p < |s| && 0 < k <= DigitRun(s, p) && p + k < |s| && s[p + k] != '\n'
    requires LastGroupEnd(s, p + k + 1) == Some(e)
    ensures MiddleGroupEnd(s, p, k) == Some(e)
  {
  }

  /** The first group keeps all `k` digits when a separator and the two other groups follow them. */
  lemma FirstFirstTry(s: string, p: nat, k: nat, e: nat)
    requires p < |s| && 0 < k <= DigitRun(s, p) && p + k < |s| && s[p + k] != '\n'
    requires MiddleGroupEnd(s, p + k + 1, DigitRun(s, p + k + 1)) == Some(e)
    ensures FirstGroupEnd(s, p, k) == Some(e)
  {
  }

  /** No match begins anywhere in `s[i..j]` when no `-` there is followed by a digit. */
  lemma {:induction false} NoDashNoMatch(s: string, i: nat, j: nat)
    requires i <= j <= |s| && forall k :: i <= k < j ==> !DashBeforeDigit(s, k)
    ensures NoMatchStart(s, i, j)
    decreases j - i
  {
    if i < j {
      NoDashNoMatch(s, i + 1, j);
    }
  }

  /**
   * A match ends where its last digit group ends: in `-x-y.z.w` the first `.` of the pattern takes
   * the second `-`, so the match is `-x-y.z` and the `-` in front of `y` survives the rename.
   */
  lemma RenameKeepsInnerDash(x: char, y: char, z: char, w: char)
    requires IsDigit(x) && IsDigit(y) && IsDigit(z) && IsDigit(w)
    ensures Rename(['-', x, '-', y, '.', z, '.', w]) == ['_', x, '-', y, '.', z, '.', w]
  {
    var s := ['-', x, '-', y, '.', z, '.', w];
    DigitRunExact(s, 1, 1);
    DigitRunExact(s, 3, 1);
    DigitRunExact(s, 5, 1);
    assert LastGroupEnd(s, 5) == Some(6);
    MiddleFirstTry(s, 3, 1, 6);
    FirstFirstTry(s, 1, 1, 6);
    NoDashNoMatch(s, 6, 8);
    RenameFromCopies(s, 6, 8);
    assert RenameFrom(s, 8) == [];
    assert RenameFrom(s, 0) == ['_'] + s[1..6] + s[6..8];
  }

  /**
   * The rename turns a release identifier `<name>-<x>.<y>.<z>` into the version-record name
   * `<name>_<x>.<y>.<z>`, when no `-` in the name is followed by a digit.
   */
  lemma RenameReleaseId(name: string, a: string, b: string, c: string)
    requires forall k :: !DashBeforeDigit(name, k)
    requires a != [] && b != [] && c != [] && AllDigits(a) && AllDigits(b) && AllDigits(c)
    ensures Rename(name + "-" + a + "." + b + "." + c) == name + "_" + a + "." + b + "." + c
  {
    var tail := a + "." + b + "." + c;
    var s := name + ("-" + tail);
    Regroup(name, "-", a, b, c);
    ReleaseIdLayout(name, tail);
    VersionDigits(name, a, b, c);
    RenameLaidOut(s, name, tail, |name| + 1 + |a|, |name| + 2 + |a| + |b|);
    Regroup(name, "_", a, b, c);
  }

  /** The rename of a text laid out as `<name>-<tail>`, with `tail` one whole version match. */
  lemma RenameLaidOut(s: string, name: string, tail: string, i: nat, j: nat)
    requires forall k :: !DashBeforeDigit(name, k)
    requires |name| < |s| && s[..|name|] == name && s[|name|] == '-' && s[|name| + 1..] == tail
    requires DigitsAndDots(s, |name| + 1, i, j)
    ensures Rename(s) == name + ("_" + tail)
  {
    NameNoMatch(s, name);
    RenameFromCopies(s, 0, |name|);
    SemverToEnd(s, |name| + 1, i, j);
    MatchToEnd(s, |name|);
    JoinRenamed(s, |name|, name, tail, RenameFrom(s, 0), RenameFrom(s, |name|));
  }

  /** In `<name>-<a>.<b>.<c>`, the two dots, with digits everywhere else behind the dash. */
  lemma VersionDigits(name: string, a: string, b: string, c: string)
    requires a != [] && b != [] && c != [] && AllDigits(a) && AllDigits(b) && AllDigits(c)
    ensures DigitsAndDots(name + ("-" + (a + "." + b + "." + c)), |name| + 1, |name| + 1 + |a|, |name| + 2 + |a| + |b|)
  {
    var s := name + ("-" + (a + "." + b + "." + c));
    var p, i, j := |name| + 1, |name| + 1 + |a|, |name| + 2 + |a| + |b|;
    forall k | p <= k < |s| && k != i && k != j ensures IsDigit(s[k]) {
      if k < i {
        assert s[k] == a[k - p];
      } else if k < j {
        assert s[k] == b[k - i - 1];
      } else {
        assert s[k] == c[k - j - 1];
      }
    }
  }

  /** Where the name, the dash and the rest sit in `<name>-<tail>`. */
  lemma ReleaseIdLayout(name: string, tail: string)
    ensures var s := name + ("-" + tail);
      |name| < |s| && s[..|name|] == name && s[|name|] == '-' && s[|name| + 1..] == tail
  {
  }

  lemma JoinRenamed(s: string, i: nat, name: string, tail: string, whole: string, rest: string)
    requires i < |s| && s[..i] == name && s[i + 1..] == tail
    requires whole == s[..i] + rest && rest == ['_'] + s[i + 1..]
    ensures whole == name + ("_" + tail)
  {
  }

  lemma Regroup(name: string, sep: string, a: string, b: string, c: string)
    ensures name + sep + a + "." + b + "." + c == name + (sep + (a + "." + b + "." + c))
  {
  }

  /** No match begins inside a name without a `-` before a digit, when a `-` follows the name. */
  lemma NameNoMatch(s: string, name: string)
    requires forall k :: !DashBeforeDigit(name, k)
    requires |name| < |s| && s[..|name|] == name && s[|name|] == '-'
    ensures NoMatchStart(s, 0, |name|)
  {
    forall k | 0 <= k < |name| ensures !DashBeforeDigit(s, k) {
      assert s[k] == name[k];
      if k + 1 < |name| {
        assert s[k + 1] == name[k + 1];
        assert !DashBeforeDigit(name, k);
      }
    }
    NoDashNoMatch(s, 0, |name|);
  }

  /** A match from `i` to the end of `s` leaves `_` and the rest of the text. */
  lemma MatchToEnd(s: string, i: nat)
    requires i < |s| && s[i] == '-' && SemverEnd(s, i + 1) == Some(|s|)
    ensures RenameFrom(s, i) == ['_'] + s[i + 1..]
  {
    assert RenameFrom(s, |s|) == [];
  }

}
