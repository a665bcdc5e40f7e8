/** The per-line work of the activity loader (heuristics/core/activities/loader.py):
    each data line, as the space-delimited CSV reader yields it, is validated,
    turned into an activity and checked against the activities already loaded. */
module Loader {
  import opened Results
  import opened Text
  import opened ActivityIds
  import opened Activities

  /** Only decimal digits, possibly none. */
  predicate AllDigits(s: string)
  {
    forall k :: 0 <= k < |s| ==> IsDigit(s[k])
  }

  /** The pattern `[1-9][0-9]*-[1-9][0-9]*`, matched in full: two numerals without a
      leading zero around a '-'. */
  ghost predicate IdPattern(s: string)
  {
    exists i :: IdDashAt(s, i)
  }

  /** `s` is the id pattern with its '-' at position `i`. */
  predicate IdDashAt(s: string, i: int)
  {
    0 <= i < |s| && s[i] == '-' && IsPositiveNumeral(s[..i]) && IsPositiveNumeral(s[i + 1..])
  }

  /** Digits, a '-', then a numeral without a leading zero: what is left of an id once
      its first digit is read. */
  ghost predicate DigitsDashPositive(s: string)
  {
    exists i :: DashAt(s, i)
  }

  /** `s` is digits, a '-' at position `i`, then a numeral without a leading zero. */
  predicate DashAt(s: string, i: int)
  {
    0 <= i < |s| && s[i] == '-' && AllDigits(s[..i]) && IsPositiveNumeral(s[i + 1..])
  }

  /** Where a left-to-right scan of the id pattern stands. */
  datatype IdScan = BeforeStart | InStart | BeforeEnd | InEnd

  /** The scan of the id pattern over `s` from `state`; true when it ends inside the
      second numeral. */
  function ScanId(s: string, state: IdScan): bool
    decreases |s|
  {
    if |s| == 0 then state == InEnd
    else
      var c := s[0];
      match state
      case BeforeStart => '1' <= c <= '9' && ScanId(s[1..], InStart)
      case InStart => if IsDigit(c) then ScanId(s[1..], InStart) else c == '-' && ScanId(s[1..], BeforeEnd)
      case BeforeEnd => '1' <= c <= '9' && ScanId(s[1..], InEnd)
      case InEnd => IsDigit(c) && ScanId(s[1..], InEnd)
  }

  /** `fullmatch("[1-9][0-9]*-[1-9][0-9]*", s)`. */
  function MatchesId(s: string): (r: bool)
    ensures r <==> IdPattern(s)
  {
    ScanFromStart(s);
    ScanId(s, BeforeStart)
  }

  lemma AllDigitsCons(s: string)
    requires |s| > 0
    ensures AllDigits(s) <==> IsDigit(s[0]) && AllDigits(s[1..])
  {
    if IsDigit(s[0]) && AllDigits(s[1..]) {
      forall k | 0 <= k < |s|
        ensures IsDigit(s[k])
      {
        if k > 0 {
          assert s[k] == s[1..][k - 1];
        }
      }
    }
  }

  lemma {:induction false} ScanInEnd(s: string)
    ensures ScanId(s, InEnd) <==> AllDigits(s)
    decreases |s|
  {
    if |s| > 0 {
      ScanInEnd(s[1..]);
      AllDigitsCons(s);
    }
  }

  lemma ScanBeforeEnd(s: string)
    ensures ScanId(s, BeforeEnd) <==> IsPositiveNumeral(s)
  {
    if |s| > 0 {
      ScanInEnd(s[1..]);
      AllDigitsCons(s);
    }
  }

  /** A prefix of digits starts with a digit. */
  lemma FirstOfDigits(s: string, i: int)
    requires 0 < i <= |s|
    ensures AllDigits(s[..i]) ==> IsDigit(s[0])
    ensures IsPositiveNumeral(s[..i]) ==> '1' <= s[0] <= '9'
  {
    assert s[..i][0] == s[0];
  }

  /** After a first digit, the '-' of `s` is the '-' of the rest, one position on. */
  lemma DashAfterDigit(s: string)
    requires |s| > 0 && IsDigit(s[0])
    ensures forall i :: 1 <= i < |s| ==> (DashAt(s, i) <==> DashAt(s[1..], i - 1))
    ensures forall i :: 1 <= i < |s| ==> (IdDashAt(s, i) <==> s[0] != '0' && DashAt(s[1..], i - 1))
  {
    var rest := s[1..];
    forall i | 1 <= i < |s|
      ensures DashAt(s, i) <==> DashAt(rest, i - 1)
      ensures IdDashAt(s, i) <==> s[0] != '0' && DashAt(rest, i - 1)
    {
      assert s[..i][1..] == rest[..i - 1] && s[i + 1..] == rest[i..];
      assert s[..i][0] == s[0];
      AllDigitsCons(s[..i]);
      assert IsPositiveNumeral(s[..i]) <==> s[0] != '0' && AllDigits(s[..i]);
    }
  }

  /** Reading a '-' or a digit in the first numeral moves the witness by one. */
  lemma {:induction false} ScanInStart(s: string)
    ensures ScanId(s, InStart) <==> DigitsDashPositive(s)
    decreases |s|
  {
    if |s| > 0 {
      var rest := s[1..];
      if s[0] == '-' {
        ScanBeforeEnd(rest);
        forall i | 0 < i < |s|
          ensures !DashAt(s, i)
        {
          FirstOfDigits(s, i);
        }
        assert s[..0] == [] && s[0 + 1..] == rest;
        assert DashAt(s, 0) <==> IsPositiveNumeral(rest);
      } else if IsDigit(s[0]) {
        ScanInStart(rest);
        DashAfterDigit(s);
        assert !DashAt(s, 0);
        if DigitsDashPositive(rest) {
          var j :| DashAt(rest, j);
          assert DashAt(s, j + 1);
        }
        if DigitsDashPositive(s) {
          var i :| DashAt(s, i);
          assert DashAt(rest, i - 1);
        }
      } else {
        forall i | 0 <= i < |s|
          ensures !DashAt(s, i)
        {
          if 0 < i {
            FirstOfDigits(s, i);
          }
        }
      }
    }
  }

  /** The scanner accepts exactly the strings of the id pattern. */
  lemma ScanFromStart(s: string)
    ensures ScanId(s, BeforeStart) <==> IdPattern(s)
  {
    if |s| > 0 {
      var rest := s[1..];
      ScanInStart(rest);
      if '1' <= s[0] <= '9' {
        DashAfterDigit(s);
        assert !IdDashAt(s, 0);
        if DigitsDashPositive(rest) {
          var j :| DashAt(rest, j);
          assert IdDashAt(s, j + 1);
        }
        if IdPattern(s) {
          var i :| IdDashAt(s, i);
          assert DashAt(rest, i - 1);
        }
      } else {
        forall i | 0 <= i < |s|
          ensures !IdDashAt(s, i)
        {
          if 0 < i {
            FirstOfDigits(s, i);
          }
        }
      }
    }
  }

  /** Text of the id pattern splits into its two numerals, both at least 1, and when
      `ActivityID.from_str` accepts it, printing the id gives the text back. */
  lemma IdPatternParses(s: string)
    requires IdPattern(s)
    ensures ParseId(s).Ok? && ParseId(s).value.0 >= 1 && ParseId(s).value.1 >= 1
    ensures FromStr(s).Ok? ==> ToStr(FromStr(s).value) == s
  {
    var i :| IdDashAt(s, i);
    var x, y := s[..i], s[i + 1..];
    assert s == x + ['-'] + y;
    assert '-' !in x && '-' !in y;
    SplitAtSeparator(x, y, '-');
    SplitWithoutSeparator(y, '-');
    NumeralPositive(x);
    NumeralPositive(y);
    if FromStr(s).Ok? {
      CanonicalText(s);
    }
  }

  /** What `_validate_activity_line` lets through. */
  ghost predicate WellFormedLine(line: seq<string>)
  {
    |line| == 3 && IdPattern(line[0]) && IsNumeral(line[1]) && IsNumeral(line[2])
  }

  /** `_validate_activity_line`: a line without exactly three non-empty fields raises
      DataNotFoundError; then an id off the id pattern, or a duration or resources
      field off `[0-9]+`, raises ValueError. */
  function ValidateActivityLine(line: seq<string>): (r: Outcome)
    ensures r == Pass <==> WellFormedLine(line)
    ensures r == Fail(DataNotFoundError) <==> |line| != 3 || "" in line
    ensures r.Fail? ==> r.error in {DataNotFoundError, ValueError}
  {
    if "" in line || |line| != 3 then Fail(DataNotFoundError)
    else if !MatchesId(line[0]) then Fail(ValueError)
    else if ParseNat(line[1]).None? || ParseNat(line[2]).None? then Fail(ValueError)
    else Pass
  }

  /** `_get_activity_from_line`: the validated line becomes `Activity(id, int(duration),
      int(resources))`.  The id text is then read by `ActivityID.from_str`, which also
      refuses a start node after the end node. */
  function ActivityFromLine(line: seq<string>): (r: Result<Activity>)
    ensures ValidateActivityLine(line).Fail? ==> r == Err(ValidateActivityLine(line).error)
    ensures r.Ok? <==> WellFormedLine(line) && FromStr(line[0]).Ok?
    ensures r.Err? ==> r.error in {DataNotFoundError, ValueError}
    ensures ValidateActivityLine(line).Pass? && r.Err? ==> r.error == ValueError
    ensures r.Ok? ==>
      var a := r.value;
      ToStr(a.id) == line[0] && a.duration == NumeralValue(line[1]) && a.resources == NumeralValue(line[2]) &&
      a.predecessors.None? && a.successors.None? && !IsScheduled(a) && a.priority.None?
  {
    match ValidateActivityLine(line)
    case Fail(e) => Err(e)
    case Pass =>
      IdPatternParses(line[0]);
      Basic(IdText(line[0]), Some(NumeralValue(line[1])), Some(NumeralValue(line[2])))
  }

  /** The line an activity would be written as. */
  function LineOf(id: ActivityId, duration: nat, resources: nat): seq<string>
  {
    [ToStr(id), NatToString(duration), NatToString(resources)]
  }

  /** Loading the line an activity is written as gives that activity back. */
  lemma LineRoundTrip(id: ActivityId, duration: nat, resources: nat)
    ensures ActivityFromLine(LineOf(id, duration, resources)) == Basic(GivenId(id), Some(duration), Some(resources))
  {
    var x, y := NatToString(id.startNode), NatToString(id.endNode);
    var s := ToStr(id);
    assert s == x + ['-'] + y;
    assert s[..|x|] == x && s[|x| + 1..] == y;
    assert IdDashAt(s, |x|);
    RoundTrip(id);
  }

  /** The ids of `loaded`, in order. */
  function Ids(loaded: seq<Activity>): (r: seq<ActivityId>)
    ensures |r| == |loaded| && forall k :: 0 <= k < |loaded| ==> r[k] == loaded[k].id
  {
    seq(|loaded|, k requires 0 <= k < |loaded| => loaded[k].id)
  }

  /** `_check_if_duplicate_activity`: ValueError when an activity with the same id
      has already been loaded. */
  function CheckDuplicate(act: Activity, loaded: seq<Activity>): (r: Outcome)
    ensures r == Pass <==> forall k :: 0 <= k < |loaded| ==> loaded[k].id != act.id
    ensures r.Fail? ==> r.error == ValueError
  {
    if act.id in Ids(loaded) then Fail(ValueError) else Pass
  }

  /** The activity each line yields, or the error it raises. */
  function Converted(lines: seq<seq<string>>): (r: seq<Result<Activity>>)
    ensures |r| == |lines| && forall i :: 0 <= i < |lines| ==> r[i] == ActivityFromLine(lines[i])
  {
    seq(|lines|, i requires 0 <= i < |lines| => ActivityFromLine(lines[i]))
  }

  /** The loop of `get_activities` over what the lines yield, in order: the first
      line that raises, or whose activity repeats an id, decides the error;
      otherwise the activities in line order. */
  function Collect(results: seq<Result<Activity>>): Result<seq<Activity>>
    decreases |results|
  {
    if |results| == 0 then Ok([])
    else
      match Collect(results[..|results| - 1])
      case Err(e) => Err(e)
      case Ok(loaded) =>
        match results[|results| - 1]
        case Err(e) => Err(e)
        case Ok(act) =>
          match CheckDuplicate(act, loaded)
          case Fail(e) => Err(e)
          case Pass => Ok(loaded + [act])
  }

  /** `get_activities` on the data lines (the header already skipped). */
  function Load(lines: seq<seq<string>>): Result<seq<Activity>>
  {
    Collect(Converted(lines))
  }

  /** Every line yielded an activity and no two of them share an id. */
  ghost predicate AllLoaded(results: seq<Result<Activity>>)
  {
    (forall i :: 0 <= i < |results| ==> results[i].Ok?) &&
    forall i, j :: 0 <= i < j < |results| ==> results[i].value.id != results[j].value.id
  }

  /** A successful collection holds the activities yielded, in order, with distinct ids. */
  lemma {:induction false} CollectValues(results: seq<Result<Activity>>)
    ensures Collect(results).Ok? ==>
      |Collect(results).value| == |results| &&
      (forall i :: 0 <= i < |results| ==> Ok(Collect(results).value[i]) == results[i]) &&
      forall i, j :: 0 <= i < j < |results| ==> Collect(results).value[i].id != Collect(results).value[j].id
    decreases |results|
  {
    if |results| > 0 && Collect(results).Ok? {
      var n := |results| - 1;
      var init := results[..n];
      CollectValues(init);
      var loaded := Collect(init).value;
      var act := results[n].value;
      assert CheckDuplicate(act, loaded) == Pass;
      assert Collect(results).value == loaded + [act];
      assert forall i :: 0 <= i < n ==> init[i] == results[i];
    }
  }

  /** The collection succeeds exactly when every line yielded an activity and the
      ids are distinct. */
  lemma {:induction false} CollectSucceeds(results: seq<Result<Activity>>)
    ensures Collect(results).Ok? <==> AllLoaded(results)
    decreases |results|
  {
    CollectValues(results);
    if |results| > 0 && AllLoaded(results) {
      var n := |results| - 1;
      var init := results[..n];
      assert forall i :: 0 <= i < n ==> init[i] == results[i];
      assert AllLoaded(init);
      CollectSucceeds(init);
      CollectValues(init);
    }
  }

  /** The collection raises only what a line raised or a duplicate's ValueError. */
  lemma {:induction false} CollectErrors(results: seq<Result<Activity>>)
    requires forall i :: 0 <= i < |results| && results[i].Err? ==> results[i].error in {DataNotFoundError, ValueError}
    ensures Collect(results).Err? ==> Collect(results).error in {DataNotFoundError, ValueError}
    decreases |results|
  {
    if |results| > 0 {
      var init := results[..|results| - 1];
      assert forall i :: 0 <= i < |init| ==> init[i] == results[i];
      CollectErrors(init);
    }
  }

  /** Once a prefix fails, the whole collection fails the same way. */
  lemma {:induction false} CollectKeepsError(results: seq<Result<Activity>>, n: nat)
    requires n <= |results| && Collect(results[..n]).Err?
    ensures Collect(results) == Collect(results[..n])
    decreases |results|
  {
    if n < |results| {
      var init := results[..|results| - 1];
      assert init[..n] == results[..n];
      CollectKeepsError(init, n);
    } else {
      assert results[..n] == results;
    }
  }

  /** Loading succeeds exactly when every line yields an activity and the ids are
      distinct; the result is then the activities of the lines, in line order, and a
      failure is a DataNotFoundError or a ValueError. */
  lemma LoadSpec(lines: seq<seq<string>>)
    ensures Load(lines).Ok? <==> AllLoaded(Converted(lines))
    ensures Load(lines).Ok? ==>
      |Load(lines).value| == |lines| &&
      forall i :: 0 <= i < |lines| ==> Ok(Load(lines).value[i]) == ActivityFromLine(lines[i])
    ensures Load(lines).Err? ==> Load(lines).error in {DataNotFoundError, ValueError}
  {
    var results := Converted(lines);
    CollectSucceeds(results);
    CollectValues(results);
    CollectErrors(results);
  }

  /** `get_activities` after the header: each line in turn is converted, checked
      against the activities so far and appended. */
  method LoadActivities(lines: seq<seq<string>>) returns (r: Result<seq<Activity>>)
    ensures r == Load(lines)
  {
    ghost var results := Converted(lines);
    var activities: seq<Activity> := [];
    var i := 0;
    while i < |lines|
      invariant 0 <= i <= |lines|
      invariant Collect(results[..i]) == Ok(activities)
    {
      assert results[..i + 1][..i] == results[..i];
      var act := ActivityFromLine(lines[i]);
      if act.Err? {
        CollectKeepsError(results, i + 1);
        return Err(act.error);
      }
      var check := CheckDuplicate(act.value, activities);
      if check.Fail? {
        CollectKeepsError(results, i + 1);
        return Err(check.error);
      }
      activities := activities + [act.value];
      i := i + 1;
    }
    assert results[..|lines|] == results;
    return Ok(activities);
  }
}
