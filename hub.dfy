/** The parsing half of the garland's USB hub detection: the output of
    `uhubctl` is searched for "Current status for hub " followed by a hub
    location, and the location of the first hub whose line advertises
    per-port power switching ("ppps") is chosen, else the first hub found.
    Strings are sequences of characters; every character the pattern
    inspects is ASCII, so positions differ from Go's byte offsets only
    where the output holds other characters, and no result does. */
module Hub {

  datatype Result<T> = Ok(value: T) | Err(msg: string)

  datatype Option<T> = None | Some(value: T)

  const Prefix: string := "Current status for hub "

  const NoHubs: string := "no USB hubs found in uhubctl output"

  /** One regexp match: where it starts, the whole matched text (group 0)
      and the location (group 1). */
  datatype Match = Match(start: nat, text: string, loc: string)

  // ---------------------------------------------------------------------
  // Substring search

  /** `t` occurs in `s` at index `i`. */
  predicate OccursAt(s: string, t: string, i: int)
  {
    0 <= i && i + |t| <= |s| && s[i..i + |t|] == t
  }

  function IndexFrom(s: string, t: string, i: nat): (r: int)
    requires i <= |s|
    ensures r == -1 || (i <= r && OccursAt(s, t, r))
    ensures r == -1 ==> forall k :: i <= k ==> !OccursAt(s, t, k)
    ensures r != -1 ==> forall k :: i <= k < r ==> !OccursAt(s, t, k)
    decreases |s| - i
  {
    if i + |t| > |s| then -1
    else if s[i..i + |t|] == t then i
    else IndexFrom(s, t, i + 1)
  }

  /** strings.Index: the first index at which `t` occurs in `s`, or -1. */
  function IndexOf(s: string, t: string): int
  {
    IndexFrom(s, t, 0)
  }

  /** strings.Contains. */
  predicate Contains(s: string, t: string)
  {
    IndexOf(s, t) != -1
  }

  /** `t` is found exactly when it occurs somewhere. */
  lemma ContainsOccurs(s: string, t: string)
    ensures Contains(s, t) <==> exists k :: OccursAt(s, t, k)
  {
  }

  /** The text from index `start` up to the next newline, or to the end of
      `s` when none follows: no newline inside, and the line stops at a
      newline or at the end. */
  function LineFrom(s: string, start: nat): (line: string)
    requires start <= |s|
    ensures start + |line| <= |s| && line == s[start..start + |line|]
    ensures forall k :: 0 <= k < |line| ==> line[k] != '\n'
    ensures start + |line| == |s| || s[start + |line|] == '\n'
  {
    var rest := s[start..];
    var e := IndexOf(rest, "\n");
    if e == -1 then
      forall k | 0 <= k < |rest| ensures rest[k] != '\n' {
        assert !OccursAt(rest, "\n", k);
        assert rest[k..k + 1] == [rest[k]];
      }
      rest
    else
      forall k | 0 <= k < e ensures rest[k] != '\n' {
        assert !OccursAt(rest, "\n", k);
        assert rest[k..k + 1] == [rest[k]];
      }
      assert rest[e..e + 1] == "\n";
      s[start..start + e]
  }

  // ---------------------------------------------------------------------
  // The regexp `Current status for hub ([0-9-]+)`

  /** The character class of the location group as written, [0-9-]. */
  predicate RegexLocChar(c: char)
  {
    '0' <= c <= '9' || c == '-'
  }

  /** Length of the longest run of `inLoc` characters starting at `i`:
      what a greedy `+` consumes. */
  function Run(s: string, i: nat, inLoc: char -> bool): (n: nat)
    requires i <= |s|
    ensures i + n <= |s|
    ensures forall k :: i <= k < i + n ==> inLoc(s[k])
    ensures i + n == |s| || !inLoc(s[i + n])
    decreases |s| - i
  {
    if i < |s| && inLoc(s[i]) then 1 + Run(s, i + 1, inLoc) else 0
  }

  /** A match can start at `i`: the prefix, then at least one location
      character. */
  predicate MatchAt(s: string, i: int, inLoc: char -> bool)
  {
    OccursAt(s, Prefix, i) && i + |Prefix| < |s| && inLoc(s[i + |Prefix|])
  }

  /** FindAllStringSubmatch from index `i`: leftmost matches, each as long
      as the greedy group allows, the search resuming where a match ends. */
  function MatchesFrom(s: string, i: nat, inLoc: char -> bool): (ms: seq<Match>)
    requires i <= |s|
    ensures ms != [] ==> i <= ms[0].start && MatchAt(s, ms[0].start, inLoc)
    decreases |s| - i
  {
    if i == |s| then []
    else if MatchAt(s, i, inLoc) then
      var e := i + |Prefix| + Run(s, i + |Prefix|, inLoc);
      [Match(i, s[i..e], s[i + |Prefix|..e])] + MatchesFrom(s, e, inLoc)
    else MatchesFrom(s, i + 1, inLoc)
  }

  /** The matches of the pattern as written: none exactly when the
      pattern matches nowhere in `s`. */
  function Matches(s: string): (ms: seq<Match>)
    ensures ms == [] <==> forall k :: 0 <= k ==> !MatchAt(s, k, RegexLocChar)
  {
    NoMatchesIff(s, 0, RegexLocChar);
    MatchesFrom(s, 0, RegexLocChar)
  }

  /** A match of `s`: the prefix followed by a non-empty location made of
      location characters, found at its start, and not followed by one
      more location character. */
  ghost predicate WellFormed(s: string, m: Match, inLoc: char -> bool)
  {
    && m.loc != []
    && (forall k :: 0 <= k < |m.loc| ==> inLoc(m.loc[k]))
    && m.text == Prefix + m.loc
    && OccursAt(s, m.text, m.start)
    && (m.start + |m.text| == |s| || !inLoc(s[m.start + |m.text|]))
  }

  /** Where the match found at `i` ends. */
  function MatchEnd(s: string, i: nat, inLoc: char -> bool): (e: nat)
    requires MatchAt(s, i, inLoc)
    ensures i + |Prefix| < e <= |s|
  {
    i + |Prefix| + Run(s, i + |Prefix|, inLoc)
  }

  /** The match found at `i`. */
  function MatchFoundAt(s: string, i: nat, inLoc: char -> bool): Match
    requires MatchAt(s, i, inLoc)
  {
    var e := MatchEnd(s, i, inLoc);
    Match(i, s[i..e], s[i + |Prefix|..e])
  }

  /** Where a match starts, the list is that match and the matches after
      its end. */
  lemma MatchesCons(s: string, i: nat, inLoc: char -> bool)
    requires MatchAt(s, i, inLoc)
    ensures MatchesFrom(s, i, inLoc) == [MatchFoundAt(s, i, inLoc)] + MatchesFrom(s, MatchEnd(s, i, inLoc), inLoc)
  {
  }

  /** Every match from `i` starts at or after `i`. */
  lemma {:induction false} MatchesAfter(s: string, i: nat, inLoc: char -> bool)
    requires i <= |s|
    ensures forall m :: m in MatchesFrom(s, i, inLoc) ==> i <= m.start
    decreases |s| - i
  {
    if i < |s| {
      if MatchAt(s, i, inLoc) {
        MatchesCons(s, i, inLoc);
        MatchesAfter(s, MatchEnd(s, i, inLoc), inLoc);
      } else {
        MatchesAfter(s, i + 1, inLoc);
      }
    }
  }

  lemma MatchFoundWellFormed(s: string, i: nat, inLoc: char -> bool)
    requires MatchAt(s, i, inLoc)
    ensures WellFormed(s, MatchFoundAt(s, i, inLoc), inLoc)
  {
    var e := MatchEnd(s, i, inLoc);
    assert s[i..e] == s[i..i + |Prefix|] + s[i + |Prefix|..e];
  }

  /** Every match is well formed and lies at or after `i`. */
  lemma {:induction false} MatchesWellFormed(s: string, i: nat, inLoc: char -> bool)
    requires i <= |s|
    ensures forall m :: m in MatchesFrom(s, i, inLoc) ==> WellFormed(s, m, inLoc) && i <= m.start
    decreases |s| - i
  {
    if i < |s| {
      if MatchAt(s, i, inLoc) {
        MatchesCons(s, i, inLoc);
        MatchesWellFormed(s, MatchEnd(s, i, inLoc), inLoc);
        MatchFoundWellFormed(s, i, inLoc);
      } else {
        MatchesWellFormed(s, i + 1, inLoc);
      }
    }
  }

  /** Each match of `ms` ends at or before the start of every later one. */
  ghost predicate InOrder(ms: seq<Match>)
  {
    forall p, q :: 0 <= p < q < |ms| ==> ms[p].start + |ms[p].text| <= ms[q].start
  }

  lemma InOrderCons(m: Match, rest: seq<Match>)
    requires InOrder(rest)
    requires forall r :: r in rest ==> m.start + |m.text| <= r.start
    ensures InOrder([m] + rest)
  {
    var ms := [m] + rest;
    forall p, q | 0 <= p < q < |ms| ensures ms[p].start + |ms[p].text| <= ms[q].start {
      assert ms[q] == rest[q - 1] && rest[q - 1] in rest;
      if p > 0 {
        assert ms[p] == rest[p - 1];
      }
    }
  }

  /** The matches come in the order of the output and do not overlap. */
  lemma {:induction false} MatchesInOrder(s: string, i: nat, inLoc: char -> bool)
    requires i <= |s|
    ensures InOrder(MatchesFrom(s, i, inLoc))
    decreases |s| - i
  {
    if i < |s| {
      if MatchAt(s, i, inLoc) {
        var e := MatchEnd(s, i, inLoc);
        MatchesCons(s, i, inLoc);
        MatchesInOrder(s, e, inLoc);
        MatchesAfter(s, e, inLoc);
        InOrderCons(MatchFoundAt(s, i, inLoc), MatchesFrom(s, e, inLoc));
      } else {
        MatchesInOrder(s, i + 1, inLoc);
      }
    }
  }

  /** There are no matches exactly when the prefix followed by a location
      character occurs nowhere. */
  lemma {:induction false} NoMatchesIff(s: string, i: nat, inLoc: char -> bool)
    requires i <= |s|
    ensures MatchesFrom(s, i, inLoc) == [] <==> forall k :: i <= k ==> !MatchAt(s, k, inLoc)
    decreases |s| - i
  {
    if i < |s| && !MatchAt(s, i, inLoc) {
      NoMatchesIff(s, i + 1, inLoc);
    }
  }

  /** Every position where the pattern matches, unless it lies inside an
      earlier match, starts a match of the list. */
  lemma {:induction false} MatchesComplete(s: string, i: nat, inLoc: char -> bool, k: nat)
    requires i <= k && MatchAt(s, k, inLoc)
    requires forall m :: m in MatchesFrom(s, i, inLoc) ==> !(m.start < k < m.start + |m.text|)
    ensures exists m :: m in MatchesFrom(s, i, inLoc) && m.start == k
    decreases |s| - i
  {
    var ms := MatchesFrom(s, i, inLoc);
    if MatchAt(s, i, inLoc) {
      MatchesCons(s, i, inLoc);
      var e := MatchEnd(s, i, inLoc);
      assert ms[0] in ms && ms[0].start + |ms[0].text| == e;
      if i < k {
        assert e <= k;
        forall m | m in MatchesFrom(s, e, inLoc) ensures !(m.start < k < m.start + |m.text|) {
          assert m in ms;
        }
        MatchesComplete(s, e, inLoc, k);
        var m :| m in MatchesFrom(s, e, inLoc) && m.start == k;
        assert m in ms;
      } else {
        assert ms[0].start == k;
      }
    } else {
      assert i < k;
      MatchesComplete(s, i + 1, inLoc, k);
    }
  }

  /** The first match is the leftmost position where the pattern matches. */
  lemma {:induction false} FirstIsLeftmost(s: string, i: nat, inLoc: char -> bool)
    requires i <= |s|
    ensures MatchesFrom(s, i, inLoc) != [] ==>
              forall k :: i <= k < MatchesFrom(s, i, inLoc)[0].start ==> !MatchAt(s, k, inLoc)
    decreases |s| - i
  {
    if i < |s| && !MatchAt(s, i, inLoc) {
      FirstIsLeftmost(s, i + 1, inLoc);
    }
  }

  // ---------------------------------------------------------------------
  // Choosing the hub

  /** The line the source examines for a match: from the FIRST occurrence
      of the matched text in the output to the next newline. */
  function WrittenLine(s: string, m: Match): (line: string)
    requires exists k :: OccursAt(s, m.text, k)
    ensures var j := IndexOf(s, m.text);
            && OccursAt(s, m.text, j) && (forall k :: 0 <= k < j ==> !OccursAt(s, m.text, k))
            && j + |line| <= |s| && line == s[j..j + |line|]
            && (forall k :: 0 <= k < |line| ==> line[k] != '\n')
            && (j + |line| == |s| || s[j + |line|] == '\n')
  {
    LineFrom(s, IndexOf(s, m.text))
  }

  /** The location of the first of `ms` whose examined line contains
      "ppps", if any. */
  function FirstPpps(s: string, ms: seq<Match>): (r: Option<string>)
    requires forall m :: m in ms ==> OccursAt(s, m.text, m.start)
    ensures r.Some? ==> exists k :: 0 <= k < |ms| && r.value == ms[k].loc
  {
    if ms == [] then None
    else
      assert ms[0] in ms && OccursAt(s, ms[0].text, ms[0].start);
      if Contains(WrittenLine(s, ms[0]), "ppps") then Some(ms[0].loc)
    else FirstPpps(s, ms[1..])
  }

  /** The result of detectHubLocation for the command output `s`: an
      error exactly when nothing matches, otherwise a matched location. */
  function HubLocation(s: string): (r: Result<string>)
    ensures r.Err? <==> Matches(s) == []
    ensures r.Ok? ==> exists k :: 0 <= k < |Matches(s)| && r.value == Matches(s)[k].loc
  {
    var ms := Matches(s);
    if ms == [] then Err(NoHubs)
    else
      MatchesWellFormed(s, 0, RegexLocChar);
      match FirstPpps(s, ms)
      case Some(loc) => Ok(loc)
      case None => Ok(ms[0].loc)
  }

  /** The parsing half of detectHubLocation: no match is an error;
      otherwise the loop returns the location of the first match whose line
      contains "ppps", and after the loop the first match is the fallback.
      The source's checks that a match has a group always hold, so its
      final error is never reached. */
  method DetectHubLocation(output: string) returns (r: Result<string>)
    ensures r == HubLocation(output)
  {
    var matches := Matches(output);
    if |matches| == 0 {
      return Err(NoHubs);
    }
    MatchesOccur(output);
    HubLocationFromFirst(output);
    ghost var found := FirstPpps(output, matches);
    var i := 0;
    while i < |matches|
      invariant 0 <= i <= |matches|
      invariant found == FirstPpps(output, matches[i..])
    {
      var location := matches[i].loc;
      FirstPppsStep(output, matches, i);
      var line := LineOf(output, matches[i]);
      if Contains(line, "ppps") {
        return Ok(location);
      }
      i := i + 1;
    }
    assert matches[i..] == [];
    return Ok(matches[0].loc);
  }

  /** The line the loop examines for match `m`: from the first occurrence
      of its text up to the next newline, or to the end of the output. */
  method LineOf(output: string, m: Match) returns (line: string)
    requires OccursAt(output, m.text, m.start)
    ensures line == WrittenLine(output, m)
  {
    ExaminedLine(output, m);
    var lineStart := IndexOf(output, m.text);
    var lineEnd := IndexOf(output[lineStart..], "\n");
    if lineEnd == -1 {
      lineEnd := |output[lineStart..]|;
    }
    line := output[lineStart..lineStart + lineEnd];
  }

  /** HubLocation in terms of the loop's outcome. */
  lemma HubLocationFromFirst(s: string)
    requires Matches(s) != []
    requires forall m :: m in Matches(s) ==> OccursAt(s, m.text, m.start)
    ensures FirstPpps(s, Matches(s)).Some? ==> HubLocation(s) == Ok(FirstPpps(s, Matches(s)).value)
    ensures FirstPpps(s, Matches(s)).None? ==> HubLocation(s) == Ok(Matches(s)[0].loc)
  {
  }

  /** Every match occurs in the output where it starts. */
  lemma MatchesOccur(s: string)
    ensures forall m :: m in Matches(s) ==> OccursAt(s, m.text, m.start)
  {
    MatchesWellFormed(s, 0, RegexLocChar);
  }

  /** One turn of the loop: the match at `i` is taken when its examined
      line contains "ppps", and otherwise the search goes on after it. */
  lemma FirstPppsStep(s: string, ms: seq<Match>, i: nat)
    requires forall m :: m in ms ==> OccursAt(s, m.text, m.start)
    requires i < |ms|
    ensures OccursAt(s, ms[i].text, ms[i].start)
    ensures FirstPpps(s, ms[i..])
            == if Contains(WrittenLine(s, ms[i]), "ppps") then Some(ms[i].loc) else FirstPpps(s, ms[i + 1..])
  {
    assert ms[i] in ms;
    assert ms[i..][0] == ms[i] && ms[i..][1..] == ms[i + 1..];
  }

  /** The line the loop slices out for `m` is its examined line. */
  lemma ExaminedLine(s: string, m: Match)
    requires OccursAt(s, m.text, m.start)
    ensures 0 <= IndexOf(s, m.text) <= |s|
    ensures var e := IndexOf(s[IndexOf(s, m.text)..], "\n");
            -1 <= e <= |s| - IndexOf(s, m.text)
            && WrittenLine(s, m) == s[IndexOf(s, m.text)..IndexOf(s, m.text) + (if e == -1 then |s| - IndexOf(s, m.text) else e)]
  {
  }

  /** The error is returned exactly when no "Current status for hub "
      followed by a digit or '-' occurs in the output. */
  lemma HubLocationError(s: string)
    ensures HubLocation(s).Err? <==> forall k :: 0 <= k ==> !MatchAt(s, k, RegexLocChar)
    ensures HubLocation(s).Err? ==> HubLocation(s).msg == NoHubs
  {
    NoMatchesIff(s, 0, RegexLocChar);
  }

  /** A returned location is the location of one of the matches, so it is
      non-empty and made of digits and '-' only. */
  lemma HubLocationWellFormed(s: string)
    requires HubLocation(s).Ok?
    ensures exists m :: m in Matches(s) && m.loc == HubLocation(s).value
    ensures HubLocation(s).value != []
    ensures forall k :: 0 <= k < |HubLocation(s).value| ==> RegexLocChar(HubLocation(s).value[k])
  {
    var ms := Matches(s);
    MatchesWellFormed(s, 0, RegexLocChar);
    var m :| m in ms && m.loc == HubLocation(s).value;
    assert WellFormed(s, m, RegexLocChar);
  }

  /** The examined line of match `m` contains "ppps". */
  ghost predicate PppsLine(s: string, m: Match)
  {
    (exists k :: OccursAt(s, m.text, k)) && Contains(WrittenLine(s, m), "ppps")
  }

  lemma {:induction false} FirstPppsIsFirst(s: string, ms: seq<Match>)
    requires forall m :: m in ms ==> OccursAt(s, m.text, m.start)
    ensures FirstPpps(s, ms).None? <==> forall k :: 0 <= k < |ms| ==> !PppsLine(s, ms[k])
    ensures FirstPpps(s, ms).Some? ==>
              exists k :: 0 <= k < |ms| && PppsLine(s, ms[k]) && FirstPpps(s, ms).value == ms[k].loc
                          && forall j :: 0 <= j < k ==> !PppsLine(s, ms[j])
  {
    if ms != [] {
      assert ms[0] in ms;
      if !Contains(WrittenLine(s, ms[0]), "ppps") {
        FirstPppsIsFirst(s, ms[1..]);
        assert forall k :: 1 <= k < |ms| ==> ms[k] == ms[1..][k - 1];
        if FirstPpps(s, ms[1..]).Some? {
          var k :| 0 <= k < |ms[1..]| && PppsLine(s, ms[1..][k]) && FirstPpps(s, ms[1..]).value == ms[1..][k].loc
                   && forall j :: 0 <= j < k ==> !PppsLine(s, ms[1..][j]);
          assert PppsLine(s, ms[k + 1]);
          forall j | 0 <= j < k + 1 ensures !PppsLine(s, ms[j]) {
            if j > 0 { assert ms[j] == ms[1..][j - 1]; }
          }
        }
      }
    }
  }

  /** When some match's line contains "ppps", the result is the location
      of the first such match in output order; when none does, it is the
      location of the first match. */
  lemma HubLocationChoice(s: string)
    requires Matches(s) != []
    ensures (exists k :: 0 <= k < |Matches(s)| && PppsLine(s, Matches(s)[k])) ==>
              exists k :: 0 <= k < |Matches(s)| && PppsLine(s, Matches(s)[k])
                          && HubLocation(s) == Ok(Matches(s)[k].loc)
                          && forall j :: 0 <= j < k ==> !PppsLine(s, Matches(s)[j])
    ensures (forall k :: 0 <= k < |Matches(s)| ==> !PppsLine(s, Matches(s)[k])) ==>
              HubLocation(s) == Ok(Matches(s)[0].loc)
  {
    MatchesWellFormed(s, 0, RegexLocChar);
    FirstPppsIsFirst(s, Matches(s));
  }

  // ---------------------------------------------------------------------
  // The evidently intended parser

  /** uhubctl locations also use '.' between nested port numbers
      ("1-1.2"), which [0-9-] leaves out. */
  predicate UhubctlLocChar(c: char)
  {
    RegexLocChar(c) || c == '.'
  }

  /** The own line of match `m`, from where it starts to the next newline,
      contains "ppps". */
  predicate OwnPpps(s: string, m: Match)
  {
    m.start <= |s| && Contains(LineFrom(s, m.start), "ppps")
  }

  /** The location of the first of `ms` whose own line contains "ppps",
      if any. */
  function FirstOwnPpps(s: string, ms: seq<Match>): (r: Option<string>)
    ensures r.Some? ==> exists k :: 0 <= k < |ms| && r.value == ms[k].loc && OwnPpps(s, ms[k])
    ensures r.None? ==> forall k :: 0 <= k < |ms| ==> !OwnPpps(s, ms[k])
  {
    if ms == [] then None
    else if OwnPpps(s, ms[0]) then Some(ms[0].loc)
    else
      assert forall k :: 1 <= k < |ms| ==> ms[k] == ms[1..][k - 1];
      FirstOwnPpps(s, ms[1..])
  }

  /** detectHubLocation as evidently intended: nested locations kept whole,
      and each hub judged by its own line. */
  function IntendedHubLocation(s: string): (r: Result<string>)
    ensures r.Err? <==> MatchesFrom(s, 0, UhubctlLocChar) == []
    ensures r.Ok? ==> exists k :: 0 <= k < |MatchesFrom(s, 0, UhubctlLocChar)|
                                  && r.value == MatchesFrom(s, 0, UhubctlLocChar)[k].loc
  {
    var ms := MatchesFrom(s, 0, UhubctlLocChar);
    if ms == [] then Err(NoHubs)
    else
      match FirstOwnPpps(s, ms)
      case Some(loc) => Ok(loc)
      case None => Ok(ms[0].loc)
  }

  /** The intended parser fails only when no hub is listed. */
  lemma IntendedHubLocationError(s: string)
    ensures IntendedHubLocation(s).Err? <==> forall k :: 0 <= k ==> !MatchAt(s, k, UhubctlLocChar)
  {
    NoMatchesIff(s, 0, UhubctlLocChar);
  }

  /** It returns the whole location of a listed hub: digits, '-' and '.'. */
  lemma IntendedHubLocationWellFormed(s: string)
    requires IntendedHubLocation(s).Ok?
    ensures exists m :: m in MatchesFrom(s, 0, UhubctlLocChar) && m.loc == IntendedHubLocation(s).value
                        && WellFormed(s, m, UhubctlLocChar)
  {
    var ms := MatchesFrom(s, 0, UhubctlLocChar);
    MatchesWellFormed(s, 0, UhubctlLocChar);
    assert ms[0] in ms;
  }

  /** Whenever some hub's own line has "ppps", it picks such a hub. */
  lemma IntendedHubLocationOwnLine(s: string, m: Match)
    requires m in MatchesFrom(s, 0, UhubctlLocChar) && OwnPpps(s, m)
    ensures exists m' :: m' in MatchesFrom(s, 0, UhubctlLocChar) && m'.loc == IntendedHubLocation(s).value
                         && OwnPpps(s, m')
  {
    var ms := MatchesFrom(s, 0, UhubctlLocChar);
    var k :| 0 <= k < |ms| && ms[k] == m;
    var j :| 0 <= j < |ms| && FirstOwnPpps(s, ms).value == ms[j].loc && OwnPpps(s, ms[j]);
    assert ms[j] in ms;
  }

  // ---------------------------------------------------------------------
  // Two outputs on which the parser as written and as intended differ

  /** Positions holding no 'C' cannot start a match. */
  lemma {:induction false} MatchesSkip(s: string, i: nat, j: nat, inLoc: char -> bool)
    requires i <= j <= |s|
    requires forall k :: i <= k < j ==> s[k] != 'C'
    ensures MatchesFrom(s, i, inLoc) == MatchesFrom(s, j, inLoc)
    decreases j - i
  {
    if i < j {
      NoPrefixWithoutC(s, i);
      MatchesSkip(s, i + 1, j, inLoc);
    }
  }

  lemma NoPrefixWithoutC(s: string, k: nat)
    requires k < |s| && s[k] != 'C'
    ensures !OccursAt(s, Prefix, k)
  {
    assert Prefix[0] == 'C';
    if k + |Prefix| <= |s| {
      assert s[k..k + |Prefix|][0] == s[k];
    }
  }

  /** Too close to the end for the prefix and a location character. */
  lemma MatchesNearEnd(s: string, i: nat, inLoc: char -> bool)
    requires i <= |s| && |s| <= i + |Prefix|
    ensures MatchesFrom(s, i, inLoc) == []
  {
    NoMatchesIff(s, i, inLoc);
  }

  const NestedOutput: string := Prefix + "1-1.2 [ppps]"

  lemma NestedMatch(inLoc: char -> bool, n: nat)
    requires forall c :: inLoc(c) <==> ('0' <= c <= '9' || c == '-' || (n == 5 && c == '.'))
    requires n == 3 || n == 5
    ensures MatchesFrom(NestedOutput, 0, inLoc) == [Match(0, NestedOutput[..23 + n], NestedOutput[23..23 + n])]
  {
    var s := NestedOutput;
    assert s[..23] == Prefix && s[23..28] == "1-1.2" && s[28] == ' ';
    forall k | 23 <= k < 23 + n ensures inLoc(s[k]) {
      assert s[k] == s[23..28][k - 23];
    }
    RunIs(s, 23, n, inLoc);
    MatchesCons(s, 0, inLoc);
    MatchesNearEnd(s, 23 + n, inLoc);
  }

  /** `n` location characters from `i`, then none: the run has length `n`. */
  lemma RunIs(s: string, i: nat, n: nat, inLoc: char -> bool)
    requires i + n <= |s|
    requires forall k :: i <= k < i + n ==> inLoc(s[k])
    requires i + n == |s| || !inLoc(s[i + n])
    ensures Run(s, i, inLoc) == n
  {
  }

  /** As written, the nested hub "1-1.2" is reported as its parent "1-1". */
  lemma NestedLocationAsWritten(s: string)
    requires s == NestedOutput
    ensures HubLocation(s) == Ok("1-1")
  {
    NestedMatch(RegexLocChar, 3);
    var m := Match(0, s[..26], s[23..26]);
    NestedLine(m.text);
    assert s[23..26] == "1-1";
    assert FirstPpps(s, [m]) == Some("1-1");
  }

  lemma NestedLine(t: string)
    requires t == NestedOutput[..26]
    ensures OccursAt(NestedOutput, t, 0)
    ensures WrittenLine(NestedOutput, Match(0, t, t[23..])) == NestedOutput
    ensures Contains(NestedOutput, "ppps")
  {
    var s := NestedOutput;
    assert OccursAt(s, t, 0);
    assert IndexOf(s, t) == 0;
    WholeLine(s);
    assert OccursAt(s, "ppps", 30);
    ContainsOccurs(s, "ppps");
  }

  /** The line from the start of an output without newlines is all of it. */
  lemma WholeLine(s: string)
    requires '\n' !in s
    ensures LineFrom(s, 0) == s
  {
    forall k | 0 <= k < |s| ensures s[k] != '\n' {
      assert s[k] in s;
    }
  }

  /** As intended, the nested hub keeps its whole location "1-1.2". */
  lemma NestedLocationIntended(s: string)
    requires s == NestedOutput
    ensures IntendedHubLocation(s) == Ok("1-1.2")
  {
    NestedMatch(UhubctlLocChar, 5);
    var m := Match(0, s[..28], s[23..28]);
    NestedLine(s[..26]);
    WholeLine(s);
    assert OwnPpps(s, m);
    assert s[23..28] == "1-1.2";
    assert FirstOwnPpps(s, [m]) == Some("1-1.2");
  }

  /** The line from `start` ends at the first newline at or after it. */
  lemma LineUpTo(s: string, start: nat, e: nat)
    requires start <= e < |s| && s[e] == '\n'
    requires forall k :: start <= k < e ==> s[k] != '\n'
    ensures LineFrom(s, start) == s[start..e]
  {
  }

  /** Text without a 'p' does not contain "ppps". */
  lemma NoPppsWithoutP(line: string)
    requires 'p' !in line
    ensures !Contains(line, "ppps")
  {
    ContainsOccurs(line, "ppps");
    forall k | 0 <= k && k + 4 <= |line| ensures !OccursAt(line, "ppps", k) {
      assert line[k..k + 4][0] == line[k];
      assert line[k] in line;
    }
  }

  /** Hub "1" listed after hub "1-1": the text matched for hub "1" first
      occurs at the start of hub "1-1"'s line. */
  const SharedOutput: string := SharedFirstLineText + "\n" + Prefix + "1 [ppps]"

  const SharedFirstLineText: string := Prefix + "1-1 [ganged]"

  lemma SharedMatches(s: string, inLoc: char -> bool)
    requires s == SharedOutput
    requires forall c :: c != '.' ==> (inLoc(c) <==> RegexLocChar(c))
    ensures MatchesFrom(s, 0, inLoc) == [Match(0, s[..26], s[23..26]), Match(36, s[36..60], s[59..60])]
  {
    SharedFirstMatch(s, inLoc);
    SharedGap(s, inLoc);
    SharedSecondMatch(s, inLoc);
  }

  /** Hub "1-1" is matched at the start. */
  lemma SharedFirstMatch(s: string, inLoc: char -> bool)
    requires s == SharedOutput
    requires forall c :: c != '.' ==> (inLoc(c) <==> RegexLocChar(c))
    ensures MatchesFrom(s, 0, inLoc) == [Match(0, s[..26], s[23..26])] + MatchesFrom(s, 26, inLoc)
  {
    assert s[..23] == Prefix && s[23..26] == "1-1" && s[26] == ' ';
    forall k | 23 <= k < 26 ensures inLoc(s[k]) {
      assert s[k] == s[23..26][k - 23];
    }
    RunIs(s, 23, 3, inLoc);
    MatchesCons(s, 0, inLoc);
  }

  /** No match starts in the rest of the first line. */
  lemma SharedGap(s: string, inLoc: char -> bool)
    requires s == SharedOutput
    ensures MatchesFrom(s, 26, inLoc) == MatchesFrom(s, 36, inLoc)
  {
    assert s[26..36] == " [ganged]\n";
    forall k | 26 <= k < 36 ensures s[k] != 'C' {
      assert s[k] == s[26..36][k - 26];
    }
    MatchesSkip(s, 26, 36, inLoc);
  }

  /** Hub "1" is matched at the start of the second line, and nothing
      follows. */
  lemma SharedSecondMatch(s: string, inLoc: char -> bool)
    requires s == SharedOutput
    requires forall c :: c != '.' ==> (inLoc(c) <==> RegexLocChar(c))
    ensures MatchesFrom(s, 36, inLoc) == [Match(36, s[36..60], s[59..60])]
  {
    assert s[36..59] == Prefix && s[59] == '1' && s[60] == ' ';
    RunIs(s, 59, 1, inLoc);
    MatchesCons(s, 36, inLoc);
    MatchesNearEnd(s, 60, inLoc);
  }

  /** The first line of the shared-prefix output: no newline before index
      35, no 'p' in it. */
  lemma SharedFirstLine(s: string)
    requires s == SharedOutput
    ensures LineFrom(s, 0) == s[..35] && !Contains(s[..35], "ppps")
  {
    assert s[..35] == SharedFirstLineText;
    assert forall k :: 0 <= k < 35 ==> s[k] == s[..35][k];
    LineUpTo(s, 0, 35);
    NoPppsWithoutP(s[..35]);
  }

  /** The second line of the shared-prefix output runs to the end and has
      "ppps". */
  lemma SharedSecondLine(s: string)
    requires s == SharedOutput
    ensures LineFrom(s, 36) == s[36..] && Contains(s[36..], "ppps")
  {
    SecondLineUnbroken(s);
    var rest := s[36..];
    assert rest == Prefix + "1 [ppps]";
    assert OccursAt(rest, "ppps", 26);
    ContainsOccurs(rest, "ppps");
  }

  lemma SecondLineUnbroken(s: string)
    requires s == SharedOutput
    ensures LineFrom(s, 36) == s[36..]
  {
    var rest := s[36..];
    assert rest == Prefix + "1 [ppps]";
    forall k | 36 <= k < |s| ensures s[k] != '\n' {
      assert s[k] == rest[k - 36] && rest[k - 36] in rest;
    }
  }

  /** Both matched texts first occur at the very start of the output. */
  lemma SharedIndexes(s: string)
    requires s == SharedOutput
    ensures OccursAt(s, s[..26], 0) && IndexOf(s, s[..26]) == 0
    ensures OccursAt(s, s[36..60], 0) && IndexOf(s, s[36..60]) == 0
  {
    assert s[..24] == s[36..60];
  }

  /** As written, hub "1" is judged by hub "1-1"'s line, no line is found
      to have "ppps", and the fallback reports "1-1". */
  lemma SharedPrefixAsWritten(s: string)
    requires s == SharedOutput
    ensures HubLocation(s) == Ok("1-1")
  {
    SharedMatches(s, RegexLocChar);
    SharedIndexes(s);
    SharedFirstLine(s);
    var m1, m2 := Match(0, s[..26], s[23..26]), Match(36, s[36..60], s[59..60]);
    assert [m1, m2][1..] == [m2];
    assert FirstPpps(s, [m1, m2]) == None;
    assert s[23..26] == "1-1";
  }

  /** As intended, hub "1" is judged by its own line, which has "ppps". */
  lemma SharedPrefixIntended(s: string)
    requires s == SharedOutput
    ensures IntendedHubLocation(s) == Ok("1")
  {
    SharedMatches(s, UhubctlLocChar);
    var m1, m2 := Match(0, s[..26], s[23..26]), Match(36, s[36..60], s[59..60]);
    SharedFirstLine(s);
    SharedSecondLine(s);
    assert !OwnPpps(s, m1) && OwnPpps(s, m2);
    assert s[59..60] == "1";
    assert FirstOwnPpps(s, [m1, m2]) == Some("1");
  }

  /** Output that lists no hub yields the "no USB hubs" error. */
  lemma NoDevicesError(s: string)
    requires s == "No compatible devices found"
    ensures HubLocation(s) == Err(NoHubs)
  {
    forall k | 0 <= k < |s| ensures s[k] != 'C' {
      assert s[k] in s;
    }
    MatchesSkip(s, 0, |s|, RegexLocChar);
  }
}
