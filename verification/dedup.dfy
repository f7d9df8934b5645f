/**
 The filter-and-dedup fold of the JUnit merger. Cases whose name passes the
 filter are folded into a map from name to case: a name not yet present is
 inserted, and a stored case is replaced only when it was skipped and the new
 one ran. The result keeps, for every matched name, the first case of that name
 that ran, or the first case of that name when none ran.
 */
module Dedup {
  import opened JUnitReport

  type CaseMap = map<string, TestCase>

  // ---------------------------------------------------------------------------
  // The fold
  // ---------------------------------------------------------------------------

  /** One merge step for a case whose name passed the filter. */
  function Step(m: CaseMap, c: TestCase): (r: CaseMap)
    ensures r.Keys == m.Keys + {c.name}
    ensures forall k :: k in m && k != c.name ==> r[k] == m[k]
    ensures r[c.name] == c || (c.name in m && r[c.name] == m[c.name])
    // A case that ran is never displaced, and a skipped case never displaces anything.
    ensures c.name in m && (Ran(m[c.name]) || !Ran(c)) ==> r[c.name] == m[c.name]
    // After the step the name holds a run exactly when some case of that name ran.
    ensures Ran(r[c.name]) <==> Ran(c) || (c.name in m && Ran(m[c.name]))
  {
    if c.name !in m || (!Ran(m[c.name]) && Ran(c)) then m[c.name := c] else m
  }

  /** The filter test in front of a step: a case whose name fails the filter leaves the map alone. */
  function Offer(m: CaseMap, c: TestCase, matches: string -> bool): CaseMap {
    if matches(c.name) then Step(m, c) else m
  }

  /** Folds a sequence of (already filtered) cases into the map, front to back. */
  function MergeAll(m: CaseMap, cs: seq<TestCase>): (r: CaseMap)
    ensures forall k :: k in m ==> k in r && (Ran(m[k]) ==> r[k] == m[k])
    decreases |cs|
  {
    if |cs| == 0 then m
    else MergeAll(Step(m, cs[0]), cs[1..])
  }

  /** The inner loop over the cases of one suite. */
  function MergeSuite(m: CaseMap, cases: seq<TestCase>, matches: string -> bool): (r: CaseMap)
    ensures forall k :: k in m ==> k in r && (Ran(m[k]) ==> r[k] == m[k])
    decreases |cases|
  {
    if |cases| == 0 then m
    else MergeSuite(Offer(m, cases[0], matches), cases[1..], matches)
  }

  /** The loop over the suites of one file. */
  function MergeSuites(m: CaseMap, suites: seq<TestSuite>, matches: string -> bool): (r: CaseMap)
    ensures forall k :: k in m ==> k in r && (Ran(m[k]) ==> r[k] == m[k])
    decreases |suites|
  {
    if |suites| == 0 then m
    else MergeSuites(MergeSuite(m, suites[0].cases, matches), suites[1..], matches)
  }

  /** The cases that pass the filter, in order. */
  function Keep(cs: seq<TestCase>, matches: string -> bool): (r: seq<TestCase>)
    ensures forall c :: c in r <==> c in cs && matches(c.name)
    decreases |cs|
  {
    if |cs| == 0 then []
    else if matches(cs[0].name) then [cs[0]] + Keep(cs[1..], matches)
    else Keep(cs[1..], matches)
  }

  // ---------------------------------------------------------------------------
  // The nested loops are one fold over the filtered cases
  // ---------------------------------------------------------------------------

  lemma {:induction false} KeepAppend(a: seq<TestCase>, b: seq<TestCase>, matches: string -> bool)
    ensures Keep(a + b, matches) == Keep(a, matches) + Keep(b, matches)
    decreases |a|
  {
    if |a| > 0 {
      assert (a + b)[0] == a[0];
      assert (a + b)[1..] == a[1..] + b;
      KeepAppend(a[1..], b, matches);
    } else {
      assert a + b == b;
    }
  }

  lemma {:induction false} MergeAllAppend(m: CaseMap, a: seq<TestCase>, b: seq<TestCase>)
    ensures MergeAll(m, a + b) == MergeAll(MergeAll(m, a), b)
    decreases |a|
  {
    if |a| > 0 {
      assert (a + b)[0] == a[0];
      assert (a + b)[1..] == a[1..] + b;
      MergeAllAppend(Step(m, a[0]), a[1..], b);
    } else {
      assert a + b == b;
    }
  }

  lemma MergeAllSnoc(m: CaseMap, cs: seq<TestCase>, c: TestCase)
    ensures MergeAll(m, cs + [c]) == Step(MergeAll(m, cs), c)
  {
    MergeAllAppend(m, cs, [c]);
  }

  /** The loop over one suite's cases, with its filter test, folds exactly the matching cases. */
  lemma {:induction false} MergeSuiteIsMergeAll(m: CaseMap, cases: seq<TestCase>, matches: string -> bool)
    ensures MergeSuite(m, cases, matches) == MergeAll(m, Keep(cases, matches))
    decreases |cases|
  {
    if |cases| > 0 {
      MergeSuiteIsMergeAll(Offer(m, cases[0], matches), cases[1..], matches);
    }
  }

  /** The two nested loops over one file fold exactly the file's matching cases, in document order. */
  lemma {:induction false} MergeSuitesIsMergeAll(m: CaseMap, suites: seq<TestSuite>, matches: string -> bool)
    ensures MergeSuites(m, suites, matches) == MergeAll(m, Keep(AllCases(suites), matches))
    decreases |suites|
  {
    if |suites| > 0 {
      var m' := MergeSuite(m, suites[0].cases, matches);
      MergeSuiteIsMergeAll(m, suites[0].cases, matches);
      MergeSuitesIsMergeAll(m', suites[1..], matches);
      KeepAppend(suites[0].cases, AllCases(suites[1..]), matches);
      MergeAllAppend(m, Keep(suites[0].cases, matches), Keep(AllCases(suites[1..]), matches));
    }
  }

  // ---------------------------------------------------------------------------
  // The dedup policy, stated independently of the fold
  // ---------------------------------------------------------------------------

  ghost function Names(cs: seq<TestCase>): set<string> {
    set c | c in cs :: c.name
  }

  /** The fold adds exactly the names of the cases it is given, and no others. */
  lemma {:induction false} MergeAllKeys(m: CaseMap, cs: seq<TestCase>)
    ensures MergeAll(m, cs).Keys == m.Keys + Names(cs)
    decreases |cs|
  {
    if |cs| > 0 {
      MergeAllKeys(Step(m, cs[0]), cs[1..]);
      assert cs == [cs[0]] + cs[1..];
      NamesAppend([cs[0]], cs[1..]);
      assert Names([cs[0]]) == {cs[0].name};
    }
  }

  /** The loops over one file add exactly the names of its matching cases. */
  lemma MergeSuitesKeys(m: CaseMap, suites: seq<TestSuite>, matches: string -> bool)
    ensures MergeSuites(m, suites, matches).Keys == m.Keys + Names(Keep(AllCases(suites), matches))
  {
    MergeSuitesIsMergeAll(m, suites, matches);
    MergeAllKeys(m, Keep(AllCases(suites), matches));
  }

  lemma NamesAppend(a: seq<TestCase>, b: seq<TestCase>)
    ensures Names(a + b) == Names(a) + Names(b)
  {
    assert forall c :: c in a + b <==> c in a || c in b;
  }

  /** Position `i` holds the first case named `k` that ran. */
  ghost predicate FirstRunAt(cs: seq<TestCase>, k: string, i: int) {
    && 0 <= i < |cs| && cs[i].name == k && Ran(cs[i])
    && forall j :: 0 <= j < i ==> !(cs[j].name == k && Ran(cs[j]))
  }

  /** No case named `k` ran. */
  ghost predicate NeverRan(cs: seq<TestCase>, k: string) {
    forall j :: 0 <= j < |cs| && cs[j].name == k ==> !Ran(cs[j])
  }

  /** Position `i` holds the first case named `k`. */
  ghost predicate FirstSeenAt(cs: seq<TestCase>, k: string, i: int) {
    && 0 <= i < |cs| && cs[i].name == k
    && forall j :: 0 <= j < i ==> cs[j].name != k
  }

  /** `c` is the case the policy picks for `k`: the first run of `k`, or the first occurrence of `k` if it never ran. */
  ghost predicate Preferred(cs: seq<TestCase>, k: string, c: TestCase) {
    exists i :: 0 <= i < |cs| && cs[i] == c && (FirstRunAt(cs, k, i) || (NeverRan(cs, k) && FirstSeenAt(cs, k, i)))
  }

  /** `m` holds exactly the names of `cs`, each mapped to the case the policy picks. */
  ghost predicate Summarizes(cs: seq<TestCase>, m: CaseMap) {
    && m.Keys == Names(cs)
    && forall k :: k in m ==> Preferred(cs, k, m[k])
  }

  /** The policy picks at most one case per name. */
  lemma PreferredUnique(cs: seq<TestCase>, k: string, a: TestCase, b: TestCase)
    requires Preferred(cs, k, a) && Preferred(cs, k, b)
    ensures a == b
  {
    var i :| 0 <= i < |cs| && cs[i] == a && (FirstRunAt(cs, k, i) || (NeverRan(cs, k) && FirstSeenAt(cs, k, i)));
    var j :| 0 <= j < |cs| && cs[j] == b && (FirstRunAt(cs, k, j) || (NeverRan(cs, k) && FirstSeenAt(cs, k, j)));
    assert cs[i].name == k && cs[j].name == k;
  }

  lemma PreferredIsInput(cs: seq<TestCase>, k: string, c: TestCase)
    requires Preferred(cs, k, c)
    ensures c in cs && c.name == k
    ensures Ran(c) <==> !NeverRan(cs, k)
  {
  }

  /** A case of another name does not change the pick for `k`. */
  lemma PreferredOtherName(cs: seq<TestCase>, k: string, x: TestCase, c: TestCase)
    requires Preferred(cs, k, x) && c.name != k
    ensures Preferred(cs + [c], k, x)
  {
    var cs' := cs + [c];
    var i :| 0 <= i < |cs| && cs[i] == x && (FirstRunAt(cs, k, i) || (NeverRan(cs, k) && FirstSeenAt(cs, k, i)));
    assert forall j :: 0 <= j < |cs| ==> cs'[j] == cs[j];
    assert cs'[|cs|] == c;
    assert FirstRunAt(cs', k, i) || (NeverRan(cs', k) && FirstSeenAt(cs', k, i));
  }

  /** The first case of a new name is its pick. */
  lemma PreferredNewName(cs: seq<TestCase>, c: TestCase)
    requires c.name !in Names(cs)
    ensures Preferred(cs + [c], c.name, c)
  {
    var cs', n := cs + [c], |cs|;
    forall j | 0 <= j < n
      ensures cs'[j].name != c.name
    {
      assert cs'[j] == cs[j] && cs[j] in cs;
    }
    assert cs'[n] == c;
    assert FirstRunAt(cs', c.name, n) || (NeverRan(cs', c.name) && FirstSeenAt(cs', c.name, n));
  }

  /** A pick that ran stays the pick. */
  lemma PreferredKeepsRun(cs: seq<TestCase>, k: string, x: TestCase, c: TestCase)
    requires Preferred(cs, k, x) && Ran(x)
    ensures Preferred(cs + [c], k, x)
  {
    var cs' := cs + [c];
    var i :| 0 <= i < |cs| && cs[i] == x && (FirstRunAt(cs, k, i) || (NeverRan(cs, k) && FirstSeenAt(cs, k, i)));
    assert forall j :: 0 <= j < |cs| ==> cs'[j] == cs[j];
    assert FirstRunAt(cs', k, i);
  }

  /** A skipped pick gives way to the first case of its name that runs. */
  lemma PreferredRunReplacesSkip(cs: seq<TestCase>, x: TestCase, c: TestCase)
    requires Preferred(cs, c.name, x) && !Ran(x) && Ran(c)
    ensures Preferred(cs + [c], c.name, c)
  {
    var cs', n := cs + [c], |cs|;
    assert NeverRan(cs, c.name);
    assert forall j :: 0 <= j < n ==> cs'[j] == cs[j];
    assert cs'[n] == c;
    assert FirstRunAt(cs', c.name, n);
  }

  /** A skipped pick stays the pick when another skipped case of its name arrives. */
  lemma PreferredSkipKeepsSkip(cs: seq<TestCase>, x: TestCase, c: TestCase)
    requires Preferred(cs, c.name, x) && !Ran(x) && !Ran(c)
    ensures Preferred(cs + [c], c.name, x)
  {
    var cs', k := cs + [c], c.name;
    var i :| 0 <= i < |cs| && cs[i] == x && (FirstRunAt(cs, k, i) || (NeverRan(cs, k) && FirstSeenAt(cs, k, i)));
    assert forall j :: 0 <= j < |cs| ==> cs'[j] == cs[j];
    assert cs'[|cs|] == c;
    assert NeverRan(cs', k) && FirstSeenAt(cs', k, i);
  }

  /** One step keeps the summary up to date. */
  lemma StepSummarizes(cs: seq<TestCase>, m: CaseMap, c: TestCase)
    requires Summarizes(cs, m)
    ensures Summarizes(cs + [c], Step(m, c))
  {
    var cs' := cs + [c];
    var r := Step(m, c);
    assert Names(cs') == Names(cs) + {c.name} by {
      assert forall x :: x in cs' <==> x in cs || x == c;
    }
    forall k | k in r
      ensures Preferred(cs', k, r[k])
    {
      if k != c.name {
        PreferredOtherName(cs, k, m[k], c);
      } else if k !in m {
        PreferredNewName(cs, c);
      } else if Ran(m[k]) {
        PreferredKeepsRun(cs, k, m[k], c);
      } else if Ran(c) {
        PreferredRunReplacesSkip(cs, m[k], c);
      } else {
        PreferredSkipKeepsSkip(cs, m[k], c);
      }
    }
  }

  /**
   The fold over a sequence of cases from the empty map keeps one entry per distinct
   name, and that entry is the first case of the name that ran, or else its first case.
   */
  lemma {:induction false} MergeAllSummarizes(cs: seq<TestCase>)
    ensures Summarizes(cs, MergeAll(map[], cs))
    decreases |cs|
  {
    if |cs| == 0 {
      assert Names(cs) == {};
    } else {
      var p, c := cs[..|cs| - 1], cs[|cs| - 1];
      assert cs == p + [c];
      MergeAllSummarizes(p);
      MergeAllSnoc(map[], p, c);
      StepSummarizes(p, MergeAll(map[], p), c);
    }
  }

  /** Every stored value is an unmodified input case, under its own name. */
  ghost predicate KeyedByName(m: CaseMap) {
    forall k :: k in m ==> m[k].name == k
  }

  lemma {:induction false} MergeAllKeyedByName(m: CaseMap, cs: seq<TestCase>)
    requires KeyedByName(m)
    ensures KeyedByName(MergeAll(m, cs))
    ensures forall k :: k in MergeAll(m, cs) ==> MergeAll(m, cs)[k] in cs || (k in m && MergeAll(m, cs)[k] == m[k])
    decreases |cs|
  {
    if |cs| > 0 {
      MergeAllKeyedByName(Step(m, cs[0]), cs[1..]);
      assert forall x :: x in cs[1..] ==> x in cs;
    }
  }

  /** Names only accumulate, and a name that holds a case that ran keeps that very case from then on. */
  lemma {:induction false} RunNeverReplaced(m: CaseMap, cs: seq<TestCase>, k: string)
    ensures m.Keys <= MergeAll(m, cs).Keys
    ensures k in m && Ran(m[k]) ==> MergeAll(m, cs)[k] == m[k]
    decreases |cs|
  {
    if |cs| > 0 {
      RunNeverReplaced(Step(m, cs[0]), cs[1..], k);
    }
  }

  // ---------------------------------------------------------------------------
  // The written cases
  // ---------------------------------------------------------------------------

  /** The values of the map, in no particular order: the source ranges over a Go map. */
  function Output(m: CaseMap): (out: set<TestCase>)
    ensures forall k :: k in m ==> m[k] in out
    ensures forall c :: c in out ==> exists k :: k in m && m[k] == c
  {
    set k | k in m :: m[k]
  }

  /** With values keyed by their own names, the output holds exactly one case per stored name. */
  lemma OutputOnePerName(m: CaseMap)
    requires KeyedByName(m)
    ensures (set c | c in Output(m) :: c.name) == m.Keys
    ensures forall a, b :: a in Output(m) && b in Output(m) && a.name == b.name ==> a == b
  {
    var names := set c | c in Output(m) :: c.name;
    forall k | k in m
      ensures k in names
    {
      assert m[k] in Output(m);
    }
  }

  /** A map with one entry writes exactly that case. */
  lemma OutputSingleton(k: string, c: TestCase)
    ensures Output(map[k := c]) == {c}
  {
    assert map[k := c][k] == c;
  }

  // ---------------------------------------------------------------------------
  // Scenarios
  // ---------------------------------------------------------------------------

  lemma MergeTwo(a: TestCase, b: TestCase)
    ensures MergeAll(map[], [a, b]) == Step(Step(map[], a), b)
  {
    assert [a, b][1..] == [b];
    assert [b][1..] == [];
    assert MergeAll(map[], [a, b]) == MergeAll(Step(map[], a), [b]);
    assert MergeAll(Step(map[], a), [b]) == MergeAll(Step(Step(map[], a), b), []);
  }

  /** A skipped `Foo` followed by a `Foo` that ran: the run is kept. */
  lemma RunReplacesEarlierSkip(skipped: TestCase, ran: TestCase)
    requires skipped.name == ran.name && !Ran(skipped) && Ran(ran)
    ensures MergeAll(map[], [skipped, ran]) == map[ran.name := ran]
  {
    MergeTwo(skipped, ran);
  }

  /** Two skipped `Bar`s: the first is kept, once. */
  lemma FirstSkipKept(first: TestCase, second: TestCase)
    requires first.name == second.name && !Ran(first) && !Ran(second)
    ensures MergeAll(map[], [first, second]) == map[first.name := first]
  {
    MergeTwo(first, second);
  }

  /**
   The same scenario read through the library's own skip decoding: an empty
   `<skipped/>` reads as a run, so the skipped record is kept and the case
   that really ran is discarded.
   */
  lemma EmptySkipWinsAsWritten(name: string, ranOutput: string)
    ensures var skipped := TestCase(name, "", "", "", DecodeSkipAsWritten(Present("")));
            var ran := TestCase(name, "", ranOutput, "", DecodeSkipAsWritten(Absent));
            MergeAll(map[], [skipped, ran]) == map[name := skipped]
    ensures var skipped := TestCase(name, "", "", "", DecodeSkip(Present("")));
            var ran := TestCase(name, "", ranOutput, "", DecodeSkip(Absent));
            MergeAll(map[], [skipped, ran]) == map[name := ran]
  {
    MergeTwo(TestCase(name, "", "", "", DecodeSkipAsWritten(Present(""))), TestCase(name, "", ranOutput, "", DecodeSkipAsWritten(Absent)));
    MergeTwo(TestCase(name, "", "", "", DecodeSkip(Present(""))), TestCase(name, "", ranOutput, "", DecodeSkip(Absent)));
  }
}
