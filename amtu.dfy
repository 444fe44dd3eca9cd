/** `main` of amtu: parse the options with getopt over "dmsinph", run the
    selected tests in a fixed order, combine their return codes with a
    bitwise OR and write a success or a failure audit record. */
module Amtu {
  import opened Process

  /** The five tests, in the order `main` runs them. */
  datatype Test = Memory | MemorySeparation | Network | Disk | Privileged

  const ORDER: seq<Test> := [Memory, MemorySeparation, Network, Disk, Privileged]

  /** The option letter that selects a test. */
  function Flag(t: Test): char
  {
    match t
    case Memory => 'm'
    case MemorySeparation => 's'
    case Network => 'n'
    case Disk => 'i'
    case Privileged => 'p'
  }

  predicate IsSelector(c: char)
  {
    c in "msinp"
  }

  /** `main`'s option state: `debug`, one counter per test and
      `testspecified`, which starts at 1 and means "run everything". */
  datatype Options = Options(debug: bool, memtest: nat, memseptest: nat, disktest: nat, nettest: nat, privtest: nat,
                             testspecified: bool)

  const INITIAL: Options := Options(false, 0, 0, 0, 0, 0, true)

  datatype Parse = Parsed(opts: Options) | Usage

  /** One switch of the getopt loop: `d` sets debug, a test letter bumps its
      counter and clears `testspecified`, `h` and every other character
      (getopt's '?') call `usage`, which exits. */
  function ApplyOption(o: Options, c: char): Parse
  {
    match c
    case 'd' => Parsed(o.(debug := true))
    case 'm' => Parsed(o.(memtest := o.memtest + 1, testspecified := false))
    case 's' => Parsed(o.(memseptest := o.memseptest + 1, testspecified := false))
    case 'i' => Parsed(o.(disktest := o.disktest + 1, testspecified := false))
    case 'n' => Parsed(o.(nettest := o.nettest + 1, testspecified := false))
    case 'p' => Parsed(o.(privtest := o.privtest + 1, testspecified := false))
    case _ => Usage
  }

  /** The getopt loop over the option characters getopt returns, in order. */
  function ParseAll(chars: seq<char>): Parse
  {
    if |chars| == 0 then Parsed(INITIAL)
    else
      match ParseAll(chars[..|chars| - 1])
      case Usage => Usage
      case Parsed(o) => ApplyOption(o, chars[|chars| - 1])
  }

  /** The getopt `while`/`switch` of `main`. */
  method ParseOptions(chars: seq<char>) returns (p: Parse)
    ensures p == ParseAll(chars)
  {
    var o := INITIAL;
    var i := 0;
    while i < |chars|
      invariant 0 <= i <= |chars|
      invariant ParseAll(chars[..i]) == Parsed(o)
    {
      var c := chars[i];
      assert chars[..i + 1][..i] == chars[..i];
      if c == 'd' {
        o := o.(debug := true);
      } else if c == 'm' {
        o := o.(memtest := o.memtest + 1, testspecified := false);
      } else if c == 's' {
        o := o.(memseptest := o.memseptest + 1, testspecified := false);
      } else if c == 'i' {
        o := o.(disktest := o.disktest + 1, testspecified := false);
      } else if c == 'n' {
        o := o.(nettest := o.nettest + 1, testspecified := false);
      } else if c == 'p' {
        o := o.(privtest := o.privtest + 1, testspecified := false);
      } else {
        UsageStays(chars, i + 1);
        return Usage;
      }
      i := i + 1;
    }
    assert chars[..i] == chars;
    return Parsed(o);
  }

  /** Once `usage` is reached, later characters are never read. */
  lemma {:induction false} UsageStays(chars: seq<char>, n: nat)
    requires n <= |chars| && ParseAll(chars[..n]) == Usage
    ensures ParseAll(chars) == Usage
    decreases |chars| - n
  {
    if n < |chars| {
      assert chars[..n + 1][..n] == chars[..n];
      UsageStays(chars, n + 1);
    } else {
      assert chars[..n] == chars;
    }
  }

  /** The test counter for t. */
  function Counter(o: Options, t: Test): nat
  {
    match t
    case Memory => o.memtest
    case MemorySeparation => o.memseptest
    case Network => o.nettest
    case Disk => o.disktest
    case Privileged => o.privtest
  }

  /** `if (testspecified || xxxtest)` */
  predicate Selected(o: Options, t: Test)
  {
    o.testspecified || Counter(o, t) > 0
  }

  function Occurrences(chars: seq<char>, c: char): nat
  {
    if |chars| == 0 then 0
    else Occurrences(chars[..|chars| - 1], c) + (if chars[|chars| - 1] == c then 1 else 0)
  }

  /** The loop reaches its end exactly when every character is one of
      d, m, s, i, n, p. */
  lemma {:induction false} ParsedIffKnownLetters(chars: seq<char>)
    ensures ParseAll(chars).Parsed? <==> forall k :: 0 <= k < |chars| ==> chars[k] in "dmsinp"
  {
    if |chars| > 0 {
      var init := chars[..|chars| - 1];
      ParsedIffKnownLetters(init);
      assert forall k :: 0 <= k < |init| ==> init[k] == chars[k];
    }
  }

  /** `debug` is set exactly when `-d` was given. */
  lemma {:induction false} DebugIffGiven(chars: seq<char>)
    requires ParseAll(chars).Parsed?
    ensures ParseAll(chars).opts.debug <==> 'd' in chars
  {
    if |chars| > 0 {
      var init := chars[..|chars| - 1];
      DebugIffGiven(init);
      assert chars == init + [chars[|chars| - 1]];
    }
  }

  /** Each counter counts the occurrences of its letter. */
  lemma {:induction false} CounterCountsFlag(chars: seq<char>, t: Test)
    requires ParseAll(chars).Parsed?
    ensures Counter(ParseAll(chars).opts, t) == Occurrences(chars, Flag(t))
  {
    if |chars| > 0 {
      CounterCountsFlag(chars[..|chars| - 1], t);
    }
  }

  /** `testspecified` survives exactly when no test letter was given. */
  lemma {:induction false} RunAllIffNoSelector(chars: seq<char>)
    requires ParseAll(chars).Parsed?
    ensures ParseAll(chars).opts.testspecified <==> forall k :: 0 <= k < |chars| ==> !IsSelector(chars[k])
  {
    if |chars| > 0 {
      var init := chars[..|chars| - 1];
      RunAllIffNoSelector(init);
      assert forall k :: 0 <= k < |init| ==> init[k] == chars[k];
    }
  }

  /** A test is selected exactly when its letter was given or no test letter
      was. */
  lemma SelectedIffFlagOrNone(chars: seq<char>, t: Test)
    requires ParseAll(chars).Parsed?
    ensures Selected(ParseAll(chars).opts, t) <==>
      Flag(t) in chars || forall k :: 0 <= k < |chars| ==> !IsSelector(chars[k])
  {
    CounterCountsFlag(chars, t);
    RunAllIffNoSelector(chars);
    OccursIffIn(chars, Flag(t));
  }

  lemma {:induction false} OccursIffIn(chars: seq<char>, c: char)
    ensures Occurrences(chars, c) > 0 <==> c in chars
  {
    if |chars| > 0 {
      var init := chars[..|chars| - 1];
      OccursIffIn(init, c);
      assert chars == init + [chars[|chars| - 1]];
    }
  }

  /** `rc |= v` on a C int: the result is 0 exactly when both are. */
  function Or(rc: bv32, v: bv32): (r: bv32)
    ensures r == ZERO <==> rc == ZERO && v == ZERO
  {
    rc | v
  }

  /** How `main` ended: `usage` exited, a test exited the process, or `main`
      returned rc after writing its audit record. `ran` are the tests
      started, in order. */
  datatype Audit = Succeeded | Failed(rc: bv32)
  datatype MainEnd =
    | UsageExit
    | TestExit(ran: seq<Test>, status: int)
    | Completed(ran: seq<Test>, rc: bv32, audit: Audit)

  /** The process's exit status as the shell sees it. */
  function ProcessStatus(e: MainEnd): (s: int)
    requires e.TestExit? ==> 0 <= e.status < 256
    ensures 0 <= s < 256
  {
    match e
    case UsageExit => ExitStatus(MINUS_ONE)
    case TestExit(_, status) => status
    case Completed(_, rc, _) => ExitStatus(rc)
  }

  /** Running the tests of the order from position k on, after `ran` with
      rc so far. */
  function RunFrom(k: nat, o: Options, results: Test -> TestEnd, ran: seq<Test>, rc: bv32): MainEnd
    decreases |ORDER| - k
  {
    if k >= |ORDER| then Completed(ran, rc, if rc != 0 then Failed(rc) else Succeeded)
    else if !Selected(o, ORDER[k]) then RunFrom(k + 1, o, results, ran, rc)
    else match results(ORDER[k])
      case ExitedProcess(status) => TestExit(ran + [ORDER[k]], status)
      case Returned(v) => RunFrom(k + 1, o, results, ran + [ORDER[k]], Or(rc, v))
  }

  /** What `main` does given the option characters and what each test would
      do if run. */
  function AmtuSpec(chars: seq<char>, results: Test -> TestEnd): MainEnd
  {
    match ParseAll(chars)
    case Usage => UsageExit
    case Parsed(o) => RunFrom(0, o, results, [], ZERO)
  }

  /** One `if (testspecified || xxxtest)` block of `main`, for the test at
      position k of the order: when selected, run the test; if it exits the
      process, `exit` carries the status; otherwise its return code is
      assigned (the first block) or OR-ed into rc. Either way the block does
      one step of the run. */
  method RunTest(k: nat, o: Options, results: Test -> TestEnd, ran: seq<Test>, rc: bv32)
    returns (exit: Option<int>, ran': seq<Test>, rc': bv32)
    requires k < |ORDER|
    requires k == 0 ==> rc == ZERO
    ensures exit.None? ==> RunFrom(k, o, results, ran, rc) == RunFrom(k + 1, o, results, ran', rc')
    ensures exit.Some? ==> RunFrom(k, o, results, ran, rc) == TestExit(ran', exit.value)
  {
    var t := ORDER[k];
    exit, ran', rc' := None, ran, rc;
    if o.testspecified || Counter(o, t) > 0 {
      ran' := ran + [t];
      match results(t)
      case ExitedProcess(s) =>
        exit := Some(s);
      case Returned(v) =>
        if k == 0 {
          rc' := v;
        } else {
          rc' := Or(rc, v);
        }
    }
  }

  /** `main`. `results(t)` is how test t ends when it is run (`memory` is
      not part of this model; the other tests are modelled in their own
      modules). */
  method AmtuMain(chars: seq<char>, results: Test -> TestEnd) returns (e: MainEnd)
    ensures e == AmtuSpec(chars, results)
  {
    var p := ParseOptions(chars);
    if p.Usage? {
      return UsageExit;
    }
    var o := p.opts;
    var rc: bv32 := ZERO;
    var ran: seq<Test> := [];
    var exit: Option<int>;
    ghost var spec := RunFrom(0, o, results, [], ZERO);
    exit, ran, rc := RunTest(0, o, results, ran, rc);
    if exit.Some? {
      return TestExit(ran, exit.value);
    }
    assert spec == RunFrom(1, o, results, ran, rc);
    exit, ran, rc := RunTest(1, o, results, ran, rc);
    if exit.Some? {
      return TestExit(ran, exit.value);
    }
    assert spec == RunFrom(2, o, results, ran, rc);
    exit, ran, rc := RunTest(2, o, results, ran, rc);
    if exit.Some? {
      return TestExit(ran, exit.value);
    }
    assert spec == RunFrom(3, o, results, ran, rc);
    exit, ran, rc := RunTest(3, o, results, ran, rc);
    if exit.Some? {
      return TestExit(ran, exit.value);
    }
    assert spec == RunFrom(4, o, results, ran, rc);
    exit, ran, rc := RunTest(4, o, results, ran, rc);
    if exit.Some? {
      return TestExit(ran, exit.value);
    }
    assert spec == RunFrom(5, o, results, ran, rc);
    if rc != 0 {
      return Completed(ran, rc, Failed(rc));
    }
    return Completed(ran, rc, Succeeded);
  }

  /** The selected tests from position k of the order on, in order. */
  function SelectedFrom(k: nat, o: Options): seq<Test>
    decreases |ORDER| - k
  {
    if k >= |ORDER| then []
    else (if Selected(o, ORDER[k]) then [ORDER[k]] else []) + SelectedFrom(k + 1, o)
  }

  /** A run from position k completes exactly when no selected test exits
      the process; otherwise it ends with the status of a selected test
      that did. */
  lemma {:induction false} RunFromCompletes(k: nat, o: Options, results: Test -> TestEnd, ran: seq<Test>, rc: bv32)
    ensures !RunFrom(k, o, results, ran, rc).UsageExit?
    ensures RunFrom(k, o, results, ran, rc).Completed? <==> forall t :: t in SelectedFrom(k, o) ==> results(t).Returned?
    ensures RunFrom(k, o, results, ran, rc).TestExit? ==>
      exists t :: t in SelectedFrom(k, o) && results(t) == ExitedProcess(RunFrom(k, o, results, ran, rc).status)
    decreases |ORDER| - k
  {
    if k < |ORDER| {
      var t := ORDER[k];
      if !Selected(o, t) {
        RunFromCompletes(k + 1, o, results, ran, rc);
      } else {
        assert SelectedFrom(k, o) == [t] + SelectedFrom(k + 1, o);
        if results(t).Returned? {
          RunFromCompletes(k + 1, o, results, ran + [t], Or(rc, results(t).rc));
        }
      }
    }
  }

  /** A completed run from position k starts exactly the selected tests, in
      order. */
  lemma {:induction false} RunFromRan(k: nat, o: Options, results: Test -> TestEnd, ran: seq<Test>, rc: bv32)
    requires RunFrom(k, o, results, ran, rc).Completed?
    ensures RunFrom(k, o, results, ran, rc).ran == ran + SelectedFrom(k, o)
    decreases |ORDER| - k, 1
  {
    if k >= |ORDER| {
      assert SelectedFrom(k, o) == [];
      assert ran + [] == ran;
    } else if Selected(o, ORDER[k]) {
      RunFromRanSelected(k, o, results, ran, rc);
    } else {
      var rest := SelectedFrom(k + 1, o);
      assert RunFrom(k, o, results, ran, rc) == RunFrom(k + 1, o, results, ran, rc);
      assert SelectedFrom(k, o) == rest by {
        assert [] + rest == rest;
      }
      RunFromRan(k + 1, o, results, ran, rc);
    }
  }

  /** RunFromRan's step over a selected test, which returned and was
      started. */
  lemma {:induction false} RunFromRanSelected(k: nat, o: Options, results: Test -> TestEnd, ran: seq<Test>, rc: bv32)
    requires k < |ORDER| && Selected(o, ORDER[k])
    requires RunFrom(k, o, results, ran, rc).Completed?
    ensures RunFrom(k, o, results, ran, rc).ran == ran + SelectedFrom(k, o)
    decreases |ORDER| - k, 0
  {
    var t := ORDER[k];
    RunFromSelectedStep(k, o, results, ran, rc);
    RunFromRan(k + 1, o, results, ran + [t], Or(rc, results(t).rc));
    ConcatAssoc(ran, [t], SelectedFrom(k + 1, o));
  }

  /** A selected test that returned is started, and the run goes on after
      it with its rc OR-ed in. */
  lemma RunFromSelectedStep(k: nat, o: Options, results: Test -> TestEnd, ran: seq<Test>, rc: bv32)
    requires k < |ORDER| && Selected(o, ORDER[k])
    requires RunFrom(k, o, results, ran, rc).Completed?
    ensures results(ORDER[k]).Returned?
    ensures RunFrom(k, o, results, ran, rc) == RunFrom(k + 1, o, results, ran + [ORDER[k]], Or(rc, results(ORDER[k]).rc))
    ensures SelectedFrom(k, o) == [ORDER[k]] + SelectedFrom(k + 1, o)
  {
  }

  lemma ConcatAssoc(a: seq<Test>, b: seq<Test>, c: seq<Test>)
    ensures a + b + c == a + (b + c)
  {
  }

  /** A completed run writes the success record exactly when its rc is 0,
      and the failure record with rc otherwise. */
  lemma {:induction false} RunFromAudit(k: nat, o: Options, results: Test -> TestEnd, ran: seq<Test>, rc: bv32)
    requires RunFrom(k, o, results, ran, rc).Completed?
    ensures var e := RunFrom(k, o, results, ran, rc);
      e.audit == (if e.rc == ZERO then Succeeded else Failed(e.rc))
    decreases |ORDER| - k
  {
    if k < |ORDER| {
      var t := ORDER[k];
      if !Selected(o, t) {
        RunFromAudit(k + 1, o, results, ran, rc);
      } else {
        RunFromAudit(k + 1, o, results, ran + [t], Or(rc, results(t).rc));
      }
    }
  }

  /** The rc of a completed run from position k is 0 exactly when rc so far
      was 0 and every test run returned 0. */
  lemma {:induction false} RunFromRc(k: nat, o: Options, results: Test -> TestEnd, ran: seq<Test>, rc: bv32)
    requires RunFrom(k, o, results, ran, rc).Completed?
    ensures RunFrom(k, o, results, ran, rc).rc == ZERO <==>
      rc == ZERO && forall t :: t in SelectedFrom(k, o) ==> results(t) == Returned(ZERO)
    decreases |ORDER| - k
  {
    if k < |ORDER| {
      var t := ORDER[k];
      var rest := SelectedFrom(k + 1, o);
      if !Selected(o, t) {
        RunFromRc(k + 1, o, results, ran, rc);
        assert SelectedFrom(k, o) == [] + rest == rest;
      } else {
        var v := results(t).rc;
        RunFromRc(k + 1, o, results, ran + [t], Or(rc, v));
        assert SelectedFrom(k, o) == [t] + rest;
      }
    }
  }

  /** Without test letters, every test from position k on is selected. */
  lemma {:induction false} AllSelectedFrom(k: nat, o: Options)
    requires k <= |ORDER| && o.testspecified
    ensures SelectedFrom(k, o) == ORDER[k..]
    decreases |ORDER| - k
  {
    if k < |ORDER| {
      AllSelectedFrom(k + 1, o);
      assert ORDER[k..] == [ORDER[k]] + ORDER[k + 1..];
    }
  }

  /** The position of each test in the order. */
  function Position(t: Test): (k: nat)
    ensures k < |ORDER| && ORDER[k] == t
  {
    match t
    case Memory => 0
    case MemorySeparation => 1
    case Network => 2
    case Disk => 3
    case Privileged => 4
  }

  /** The tests selected from position k on are the selected ones at or
      after k. */
  lemma {:induction false} SelectedFromMembers(k: nat, o: Options, t: Test)
    ensures t in SelectedFrom(k, o) <==> Selected(o, t) && Position(t) >= k
    decreases |ORDER| - k
  {
    if k < |ORDER| {
      SelectedFromMembers(k + 1, o, t);
      assert Position(ORDER[k]) == k by {
        assert ORDER[Position(ORDER[k])] == ORDER[k];
      }
    }
  }

  /** Two option states that select the same tests run the same way. */
  lemma {:induction false} SameSelectionSameRun(k: nat, o: Options, o': Options, results: Test -> TestEnd, ran: seq<Test>, rc: bv32)
    requires forall t :: Selected(o, t) <==> Selected(o', t)
    ensures RunFrom(k, o, results, ran, rc) == RunFrom(k, o', results, ran, rc)
    decreases |ORDER| - k
  {
    if k < |ORDER| {
      SameSelectionSameRun(k + 1, o, o', results, ran, rc);
      if results(ORDER[k]).Returned? {
        SameSelectionSameRun(k + 1, o, o', results, ran + [ORDER[k]], Or(rc, results(ORDER[k]).rc));
      }
    }
  }

  /** `usage` ends the program, with status 255 and before any test runs,
      exactly when some option character is `h` or not one of "dmsinph". */
  lemma UsageIffUnknownOrHelp(chars: seq<char>, results: Test -> TestEnd)
    ensures AmtuSpec(chars, results) == UsageExit <==> exists k :: 0 <= k < |chars| && chars[k] !in "dmsinp"
    ensures ProcessStatus(UsageExit) == 255
  {
    ParsedIffKnownLetters(chars);
    if ParseAll(chars).Parsed? {
      RunFromCompletes(0, ParseAll(chars).opts, results, [], ZERO);
    }
  }

  /** Without test letters every test is selected; `-d` alone changes
      nothing about which tests run. */
  lemma DefaultRunsEverything(chars: seq<char>, results: Test -> TestEnd)
    requires forall k :: 0 <= k < |chars| ==> chars[k] == 'd'
    ensures ParseAll(chars).Parsed? && SelectedFrom(0, ParseAll(chars).opts) == ORDER
    ensures AmtuSpec(chars, results) == AmtuSpec([], results)
  {
    ParsedIffKnownLetters(chars);
    RunAllIffNoSelector(chars);
    var o := ParseAll(chars).opts;
    AllSelectedFrom(0, o);
    SameSelectionSameRun(0, o, INITIAL, results, [], ZERO);
  }

  /** Giving a letter again changes nothing: the tests run are the same. */
  lemma RepeatedFlagNoEffect(chars: seq<char>, c: char, results: Test -> TestEnd)
    requires c in chars
    ensures AmtuSpec(chars + [c], results) == AmtuSpec(chars, results)
  {
    var chars' := chars + [c];
    assert chars'[..|chars'| - 1] == chars;
    if ParseAll(chars).Parsed? && ParseAll(chars').Parsed? {
      var o, o' := ParseAll(chars).opts, ParseAll(chars').opts;
      forall t
        ensures Selected(o, t) <==> Selected(o', t)
      {
        SelectedIffFlagOrNone(chars, t);
        SelectedIffFlagOrNone(chars', t);
        assert forall k :: 0 <= k < |chars| ==> chars'[k] == chars[k];
        if IsSelector(c) {
          var j :| 0 <= j < |chars| && chars[j] == c;
        }
      }
      SameSelectionSameRun(0, o, o', results, [], ZERO);
    } else if ParseAll(chars).Parsed? {
      ParsedIffKnownLetters(chars);
      ParsedIffKnownLetters(chars');
    }
  }

  /** The test letters given select exactly their tests, run in the fixed
      order; rc is 0 exactly when every test run returned 0, and only then is
      the success record written. */
  lemma SelectedTestsRunInOrder(chars: seq<char>, results: Test -> TestEnd)
    requires ParseAll(chars).Parsed?
    ensures forall t :: t in SelectedFrom(0, ParseAll(chars).opts) <==>
      Flag(t) in chars || forall k :: 0 <= k < |chars| ==> !IsSelector(chars[k])
    ensures var e := AmtuSpec(chars, results);
      e.Completed? ==>
        && e.ran == SelectedFrom(0, ParseAll(chars).opts)
        && (e.rc == ZERO <==> forall t :: t in e.ran ==> results(t) == Returned(ZERO))
        && (e.audit == Succeeded <==> e.rc == ZERO)
  {
    var o := ParseAll(chars).opts;
    forall t
      ensures t in SelectedFrom(0, o) <==> Flag(t) in chars || forall k :: 0 <= k < |chars| ==> !IsSelector(chars[k])
    {
      SelectedIffFlagOrNone(chars, t);
      SelectedFromMembers(0, o, t);
    }
    if AmtuSpec(chars, results).Completed? {
      RunFromRan(0, o, results, [], ZERO);
      RunFromRc(0, o, results, [], ZERO);
      RunFromAudit(0, o, results, [], ZERO);
    }
  }

}
