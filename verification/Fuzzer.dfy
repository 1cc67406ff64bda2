/**
 The coverage-guided fuzzing loop. Every random choice is a parameter of an iteration, so that a run
 is a sequence of test cases each of which the loop could have made.
 */
module Fuzzer {
  import opened Octets

  type Test = seq<byte>

  datatype State = State(suite: set<Test>, total: set<nat>, run: bool)

  const START_STATE := State({}, {}, true)

  /** How far a test gets: too short, then one more matching byte of "bug" each; 4 is the crash. */
  function Level(t: Test): (k: nat)
    ensures k <= 4
  {
    if |t| < 3 then 0
    else if t[0] != 0x62 then 1
    else if t[1] != 0x75 then 2
    else if t[2] != 0x67 then 3
    else 4
  }

  /** The lines recorded for a test of that level. */
  function Lines(level: nat): set<nat> {
    match level
    case 0 => {8, 10}
    case 1 => {8, 12, 14}
    case 2 => {8, 12, 16, 18}
    case 3 => {8, 12, 16, 20, 22}
    case _ => {8, 12, 16, 20, 24}
  }

  /** The line that only tests of this level record. */
  function Mark(level: nat): nat {
    if level < 4 then 10 + 4 * level else 24
  }

  method FuzzmeInstrumented(data: Test, coverage0: set<nat>) returns (coverage: set<nat>, crash: bool)
    ensures coverage == coverage0 + Lines(Level(data))
    ensures crash <==> [0x62, 0x75, 0x67] <= data
  {
    coverage, crash := coverage0 + {8}, false;
    if |data| < 3 {
      coverage := coverage + {10};
      return;
    }
    coverage := coverage + {12};
    if data[0] != 0x62 {
      coverage := coverage + {14};
      return;
    }
    coverage := coverage + {16};
    if data[1] != 0x75 {
      coverage := coverage + {18};
      return;
    }
    coverage := coverage + {20};
    if data[2] != 0x67 {
      coverage := coverage + {22};
      return;
    }
    coverage := coverage + {24};
    crash := true;
  }

  // ----- test cases

  datatype Choice = Choice(pick: Test, index: nat, value: byte, tail: Test)

  /** What the random functions can return: the replacing byte is drawn from 0..254. */
  predicate Possible(suite: set<Test>, c: Choice) {
    1 <= |c.tail| <= 9 && (suite != {} ==> c.pick in suite && c.index < |c.pick| && c.value < 255)
  }

  function Made(suite: set<Test>, c: Choice): Test
    requires Possible(suite, c)
  {
    if suite == {} then c.tail else c.pick[c.index := c.value] + c.tail
  }

  // ----- iterations and runs

  function Next(s: State, t: Test): State {
    if Level(t) == 4 then s.(run := false)
    else if Lines(Level(t)) <= s.total then s
    else s.(suite := s.suite + {t}, total := s.total + Lines(Level(t)))
  }

  function Run(s: State, cs: seq<Choice>): State
    requires IsRun(s, cs)
    decreases |cs|
  {
    if cs == [] then s else Run(Next(s, Made(s.suite, cs[0])), cs[1..])
  }

  /** The loop goes on while `run` holds; every choice is one that it can make. */
  predicate IsRun(s: State, cs: seq<Choice>)
    decreases |cs|
  {
    cs == [] || (s.run && Possible(s.suite, cs[0]) && IsRun(Next(s, Made(s.suite, cs[0])), cs[1..]))
  }

  class Loop {
    var suite: set<Test>
    var total: set<nat>
    var run: bool

    function Value(): State
      reads this
    {
      State(suite, total, run)
    }

    constructor ()
      ensures Value() == START_STATE
    {
      suite, total, run := {}, {}, true;
    }

    method MakeTestcase(c: Choice) returns (t: Test)
      requires Possible(suite, c)
      ensures t == Made(suite, c)
    {
      if suite == {} {
        return c.tail;
      }
      var tc := c.pick;
      tc := tc[c.index := c.value];
      tc := tc + c.tail;
      return tc;
    }

    method Iterate(c: Choice)
      requires run && Possible(suite, c)
      modifies this
      ensures Value() == Next(old(Value()), Made(old(suite), c))
    {
      var testcase := MakeTestcase(c);
      var coverage, crash := FuzzmeInstrumented(testcase, {});
      if crash {
        run := false;
      } else if coverage - total != {} {
        total := total + coverage;
        suite := suite + {testcase};
      }
    }

    method Fuzz(cs: seq<Choice>)
      requires IsRun(Value(), cs)
      modifies this
      ensures Value() == Run(old(Value()), cs)
    {
      var i := 0;
      while i < |cs|
        invariant 0 <= i <= |cs| && IsRun(Value(), cs[i..])
        invariant Run(Value(), cs[i..]) == Run(old(Value()), cs)
      {
        assert cs[i..][0] == cs[i] && cs[i..][1..] == cs[i + 1..];
        Iterate(cs[i]);
        i := i + 1;
      }
    }
  }

  // ----- what every run keeps

  function Levels(suite: set<Test>): set<nat> {
    set m | m in suite :: Level(m)
  }

  predicate Tame(suite: set<Test>) {
    forall m :: m in suite ==> |m| >= 1 && Level(m) < 4
  }

  /** The coverage so far is that of the tests kept. */
  ghost predicate Covered(suite: set<Test>, total: set<nat>) {
    forall l :: l in total <==> exists m :: m in suite && l in Lines(Level(m))
  }

  /** No two of them cover the same. */
  predicate Distinct(suite: set<Test>) {
    && (forall a, b :: a in suite && b in suite && Lines(Level(a)) == Lines(Level(b)) ==> a == b)
    && |suite| == |Levels(suite)|
  }

  ghost predicate Inv(s: State) {
    Tame(s.suite) && Covered(s.suite, s.total) && Distinct(s.suite)
  }

  lemma MarkOnly(k: nat, j: nat)
    requires k <= 4 && j <= 4
    ensures Mark(k) in Lines(j) <==> k == j
    ensures Lines(k) == Lines(j) <==> k == j
  {
  }

  /** Coverage is new exactly when no test of that level is in the suite yet. */
  lemma NewIff(s: State, t: Test)
    requires Inv(s)
    ensures Lines(Level(t)) <= s.total <==> Level(t) in Levels(s.suite)
  {
    if Level(t) in Levels(s.suite) {
      var m :| m in s.suite && Level(m) == Level(t);
      assert forall l :: l in Lines(Level(t)) ==> l in Lines(Level(m));
    }
    if Lines(Level(t)) <= s.total {
      MarkOnly(Level(t), Level(t));
      assert Mark(Level(t)) in s.total;
      var m :| m in s.suite && Mark(Level(t)) in Lines(Level(m));
      MarkOnly(Level(t), Level(m));
      assert Level(m) in Levels(s.suite);
    }
  }

  lemma LevelsGrow(suite: set<Test>, t: Test)
    requires Level(t) !in Levels(suite)
    ensures t !in suite && |Levels(suite + {t})| == |Levels(suite)| + 1
  {
    assert Levels(suite + {t}) == Levels(suite) + {Level(t)};
  }

  lemma DifferentLines(suite: set<Test>, m: Test, t: Test)
    requires m in suite && Level(t) !in Levels(suite)
    ensures Lines(Level(m)) != Lines(Level(t))
  {
    assert Level(m) in Levels(suite);
    MarkOnly(Level(m), Level(t));
  }

  lemma DistinctGrows(suite: set<Test>, t: Test)
    requires Distinct(suite) && Level(t) !in Levels(suite)
    ensures Distinct(suite + {t})
  {
    LevelsGrow(suite, t);
    forall m | m in suite ensures Lines(Level(m)) != Lines(Level(t)) {
      DifferentLines(suite, m, t);
    }
  }

  lemma CoverageGrows(suite: set<Test>, total: set<nat>, t: Test)
    requires Covered(suite, total)
    ensures Covered(suite + {t}, total + Lines(Level(t)))
  {
    forall l | l in total + Lines(Level(t)) ensures exists m :: m in suite + {t} && l in Lines(Level(m)) {
      if l in total {
        var m :| m in suite && l in Lines(Level(m));
        assert m in suite + {t};
      } else {
        assert t in suite + {t};
      }
    }
  }

  lemma NextKeeps(s: State, t: Test)
    requires Inv(s) && |t| >= 1
    ensures Inv(Next(s, t))
  {
    if Level(t) < 4 && !(Lines(Level(t)) <= s.total) {
      NewIff(s, t);
      CoverageGrows(s.suite, s.total, t);
      DistinctGrows(s.suite, t);
    }
  }

  /** Every reachable state is sound: coverage is that of the suite, without duplicates. */
  lemma {:induction false} RunKeeps(s: State, cs: seq<Choice>)
    requires Inv(s) && IsRun(s, cs)
    ensures Inv(Run(s, cs))
    decreases |cs|
  {
    if cs != [] {
      var t := Made(s.suite, cs[0]);
      NextKeeps(s, t);
      RunKeeps(Next(s, t), cs[1..]);
    }
  }

  lemma SuiteBound(s: State)
    requires Inv(s)
    ensures |s.suite| <= 4
  {
    assert Levels(s.suite) <= {0, 1, 2, 3};
    SubsetSize(Levels(s.suite), {0, 1, 2, 3});
  }

  lemma {:induction false} SubsetSize(a: set<nat>, b: set<nat>)
    requires a <= b
    ensures |a| <= |b|
  {
    if a != {} {
      var x :| x in a;
      SubsetSize(a - {x}, b - {x});
    }
  }

  /** From the start of the program on. */
  lemma FuzzerInvariant(cs: seq<Choice>)
    requires IsRun(START_STATE, cs)
    ensures Inv(Run(START_STATE, cs)) && |Run(START_STATE, cs).suite| <= 4
  {
    assert Levels({}) == {};
    RunKeeps(START_STATE, cs);
    SuiteBound(Run(START_STATE, cs));
  }

  // ----- the crash is always near

  /** A choice that puts the test at least one level above every test in the suite. */
  lemma Climb(s: State) returns (c: Choice, t: Test)
    requires Inv(s) && s.run
    ensures Possible(s.suite, c) && t == Made(s.suite, c)
    ensures forall m :: m in s.suite ==> Level(m) < Level(t)
    ensures Level(t) >= 2
    ensures s.suite == {} ==> Level(t) == 4
  {
    if s.suite == {} {
      t := [0x62, 0x75, 0x67];
      c := Choice([], 0, 0, t);
    } else {
      var m := Best(s.suite);
      c, t := Improve(s.suite, m);
    }
  }

  lemma {:induction false} Best(suite: set<Test>) returns (m: Test)
    requires suite != {}
    ensures m in suite && forall x :: x in suite ==> Level(x) <= Level(m)
  {
    var x :| x in suite;
    if suite == {x} {
      m := x;
    } else {
      m := Best(suite - {x});
      m := if Level(m) < Level(x) then x else m;
    }
  }

  lemma Improve(suite: set<Test>, m: Test) returns (c: Choice, t: Test)
    requires m in suite && |m| >= 1 && Level(m) < 4
    ensures Possible(suite, c) && t == Made(suite, c)
    ensures Level(t) > Level(m) && Level(t) >= 2
  {
    match Level(m) {
      case 3 => c := Choice(m, 2, 0x67, [0]);
      case 2 => c := Choice(m, 1, 0x75, [0]);
      case 1 => c := Choice(m, 0, 0x62, [0]);
      case _ => c := Choice(m, 0, 0x62, [0x75, 0x67]);
    }
    t := Made(suite, c);
  }

  /** Whatever the suite, at most three more iterations can reach the crash. */
  lemma CrashWithinThree(s: State) returns (cs: seq<Choice>)
    requires Inv(s) && s.run
    ensures IsRun(s, cs) && |cs| <= 3 && !Run(s, cs).run
  {
    var c, t := Climb(s);
    cs := CrashFrom(s, c, t);
  }

  lemma {:induction false} CrashFrom(s: State, c: Choice, t: Test) returns (cs: seq<Choice>)
    requires Inv(s) && s.run && Possible(s.suite, c) && t == Made(s.suite, c)
    requires 2 <= Level(t) && forall m :: m in s.suite ==> Level(m) < Level(t)
    ensures IsRun(s, cs) && |cs| <= 5 - Level(t) && !Run(s, cs).run
    decreases 4 - Level(t)
  {
    var n := Next(s, t);
    if Level(t) == 4 {
      cs := [c];
      assert IsRun(n, cs[1..]);
    } else {
      NewIff(s, t);
      NextKeeps(s, t);
      assert t in n.suite;
      var c', t' := Climb(n);
      var rest := CrashFrom(n, c', t');
      cs := [c] + rest;
      assert cs[1..] == rest;
    }
  }

  // ----- and not always nearer

  /** How many of the three bytes are wrong. */
  function Wrong(t: Test): nat
    requires |t| >= 3
  {
    (if t[0] == 0x62 then 0 else 1) + (if t[1] == 0x75 then 0 else 1) + (if t[2] == 0x67 then 0 else 1)
  }

  ghost predicate Distant(suite: set<Test>, k: nat) {
    suite != {} && forall m :: m in suite ==> |m| >= 3 && Wrong(m) >= k
  }

  /** A suite whose every test has `k` wrong bytes is at least `k` iterations from a crash. */
  lemma {:induction false} NoSooner(s: State, cs: seq<Choice>, k: nat)
    requires s.run && IsRun(s, cs) && !Run(s, cs).run && Distant(s.suite, k)
    ensures |cs| >= k
    decreases |cs|
  {
    if k > 0 {
      var t := Made(s.suite, cs[0]);
      assert |t| >= 3 && Wrong(t) >= k - 1;
      if Level(t) == 4 {
        assert Wrong(t) == 0;
      } else {
        NoSooner(Next(s, t), cs[1..], k - 1);
      }
    }
  }

  const FIRST_ZEROS := Choice([], 0, 0, [0, 0, 0])

  /** After a first test of three zeros, no two iterations reach the crash. */
  lemma ThreeNeeded(cs: seq<Choice>)
    ensures IsRun(START_STATE, [FIRST_ZEROS])
    ensures var s := Run(START_STATE, [FIRST_ZEROS]); s.run && (IsRun(s, cs) && !Run(s, cs).run ==> |cs| >= 3)
  {
    var s := Next(START_STATE, [0, 0, 0]);
    assert [FIRST_ZEROS][1..] == [];
    assert IsRun(s, []);
    assert s.suite == {[0, 0, 0]} && Distant(s.suite, 3);
    if IsRun(s, cs) && !Run(s, cs).run {
      NoSooner(s, cs, 3);
    }
  }
}
