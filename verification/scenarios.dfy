/** Example scenarios of the service, among them the demonstration in `main`, replayed on the model. */
module Scenarios {

  import opened Wrappers
  import opened JavaInt
  import opened Names
  import opened UsernameService
  import opened ServiceProperties

  /** A name nobody holds is suggested back alone, at the cost of one check. */
  lemma NewUserShortCircuit()
    ensures SuggestAlternatives(Empty, "newuser").1 == ["newuser"]
    ensures SuggestAlternatives(Empty, "newuser").0.attempts == map["newuser" := 1]
  {
  }

  /** With bob, bob1, bob2 and bob3 taken, the suggestions for bob are bob4 and bob5, after six checks. */
  lemma BobFallback(d: Directory)
    requires d.registry.Keys == {"bob", "bob1", "bob2", "bob3"}
    ensures SuggestAlternatives(d, "bob").1 == ["bob4", "bob5"]
    ensures |Probes(d, "bob")| == 6
  {
    assert "bob" in d.registry;
    var c := BobCandidates();
    BobFilter(d.registry, c);
    SuggestCheckCount(d, "bob");
  }

  /** The candidates for bob: its five numeric forms and no dot form. */
  lemma BobCandidates() returns (c: seq<string>)
    ensures c == ["bob1", "bob2", "bob3", "bob4", "bob5"]
    ensures Candidates("bob") == c
  {
    c := ["bob1", "bob2", "bob3", "bob4", "bob5"];
    SuffixCandidatesSpelled("bob");
    assert '_' !in "bob";
    assert "bob" + "1" == "bob1" && "bob" + "2" == "bob2" && "bob" + "3" == "bob3";
    assert "bob" + "4" == "bob4" && "bob" + "5" == "bob5";
  }

  /** Filtering bob's candidates against a registry holding bob to bob3 keeps bob4 and bob5. */
  lemma BobFilter(registry: map<string, string>, c: seq<string>)
    requires registry.Keys == {"bob", "bob1", "bob2", "bob3"}
    requires c == ["bob1", "bob2", "bob3", "bob4", "bob5"]
    ensures Free(registry, c) == ["bob4", "bob5"]
  {
    var a, b := c[..3], c[3..];
    assert c == a + b;
    assert forall i :: 0 <= i < |a| ==> a[i] in registry;
    assert Free(registry, a) == [] by {
      assert Free(registry, a[2..]) == [];
      assert Free(registry, a[1..]) == [];
    }
    assert forall i :: 0 <= i < |b| ==> b[i] !in registry;
    FreeOfUntaken(registry, b);
    FreeAppend(registry, a, b);
  }

  /** With john_doe and john.doe taken, the five numeric forms are suggested and the dot form is not. */
  lemma UnderscoreTaken(d: Directory)
    requires d.registry.Keys == {"john_doe", "john.doe"}
    ensures SuggestAlternatives(d, "john_doe").1 == ["john_doe1", "john_doe2", "john_doe3", "john_doe4", "john_doe5"]
  {
    assert "john_doe" in d.registry;
    var c := JohnDoeCandidates();
    JohnDoeDotTaken(d.registry, c);
  }

  /** Filtering john_doe's candidates against a registry holding john_doe and john.doe drops only the dot form. */
  lemma JohnDoeDotTaken(registry: map<string, string>, c: seq<string>)
    requires registry.Keys == {"john_doe", "john.doe"}
    requires c == ["john_doe1", "john_doe2", "john_doe3", "john_doe4", "john_doe5", "john.doe"]
    ensures Free(registry, c) == ["john_doe1", "john_doe2", "john_doe3", "john_doe4", "john_doe5"]
  {
    var a, b := c[..5], c[5..];
    assert c == a + b;
    assert b == ["john.doe"];
    assert Free(registry, b) == [];
    assert forall i :: 0 <= i < |a| ==> a[i] !in registry;
    FreeOfUntaken(registry, a);
    FreeAppend(registry, a, b);
  }

  /** The candidates for john_doe: its five numeric forms, then john.doe. */
  lemma JohnDoeCandidates() returns (c: seq<string>)
    ensures c == ["john_doe1", "john_doe2", "john_doe3", "john_doe4", "john_doe5", "john.doe"]
    ensures Candidates("john_doe") == c
  {
    c := ["john_doe1", "john_doe2", "john_doe3", "john_doe4", "john_doe5", "john.doe"];
    var s := JohnDoeSuffixes("john_doe");
    JohnDoeDotted("john_doe", "john.doe");
    assert '_' in "john_doe" by {
      assert "john_doe"[4] == '_';
    }
    assert Candidates("john_doe") == s + ["john.doe"];
  }

  /** john_doe's numeric forms are john_doe1 to john_doe5. */
  lemma JohnDoeSuffixes(u: string) returns (s: seq<string>)
    requires u == "john_doe"
    ensures s == ["john_doe1", "john_doe2", "john_doe3", "john_doe4", "john_doe5"]
    ensures SuffixCandidates(u) == s
  {
    s := ["john_doe1", "john_doe2", "john_doe3", "john_doe4", "john_doe5"];
    SuffixCandidatesSpelled(u);
    assert u + "1" == "john_doe1" && u + "2" == "john_doe2" && u + "3" == "john_doe3";
    assert u + "4" == "john_doe4" && u + "5" == "john_doe5";
  }

  /** The dot form of john_doe is john.doe. */
  lemma JohnDoeDotted(u: string, v: string)
    requires u == "john_doe" && v == "john.doe"
    ensures Dotted(u) == v
  {
    var r := Dotted(u);
    assert forall i :: 0 <= i < 8 ==> r[i] == v[i];
  }

  /** The directory just before the demonstration's 10543 checks of admin. */
  function DemoPrefix(): Directory
  {
    var d0 := Register(Register(Empty, "john_doe", "U1001").0, "admin", "U0001").0;
    var d1 := CheckAvailability(d0, "john_doe").0;
    var d2 := CheckAvailability(d1, "jane_smith").0;
    SuggestAlternatives(d2, "john_doe").0
  }

  /** The demonstration's first two queries: john_doe is taken and jane_smith is free. */
  lemma DemoChecks(d0: Directory)
    requires d0 == Register(Register(Empty, "john_doe", "U1001").0, "admin", "U0001").0
    ensures d0.registry.Keys == {"john_doe", "admin"}
    ensures !CheckAvailability(d0, "john_doe").1
    ensures CheckAvailability(CheckAvailability(d0, "john_doe").0, "jane_smith").1
  {
  }

  /** The demonstration's suggestion: with john_doe and admin taken, all six candidates of john_doe are suggested. */
  lemma DemoSuggestion(d: Directory)
    requires d.registry.Keys == {"john_doe", "admin"}
    ensures SuggestAlternatives(d, "john_doe").1
      == ["john_doe1", "john_doe2", "john_doe3", "john_doe4", "john_doe5", "john.doe"]
  {
    assert "john_doe" in d.registry;
    var c := JohnDoeCandidates();
    JohnDoeAllFree(d.registry, c);
  }

  /** Filtering john_doe's candidates against a registry holding john_doe and admin keeps all six. */
  lemma JohnDoeAllFree(registry: map<string, string>, c: seq<string>)
    requires registry.Keys == {"john_doe", "admin"}
    requires c == ["john_doe1", "john_doe2", "john_doe3", "john_doe4", "john_doe5", "john.doe"]
    ensures Free(registry, c) == c
  {
    assert forall i :: 0 <= i < |c| ==> c[i] !in registry;
    FreeOfUntaken(registry, c);
  }

  /** A suggestion for john_doe never probes admin. */
  lemma JohnDoeProbes(d: Directory)
    requires d.registry.Keys == {"john_doe", "admin"}
    ensures "admin" !in Probes(d, "john_doe")
  {
    var c := JohnDoeCandidates();
    assert Probes(d, "john_doe") == ["john_doe"] + c;
  }

  /** A suggestion adds at most one attempt to any counter, and none to a name it does not probe. */
  lemma SuggestionCountBound(d: Directory, u: string, w: string)
    requires w !in Probes(d, u)
    ensures forall v :: Attempts(SuggestAlternatives(d, u).0, v) <= Attempts(d, v) + 1
    ensures Attempts(SuggestAlternatives(d, u).0, w) == Attempts(d, w)
  {
    SuggestCheckCount(d, u);
  }

  /** Before the 10543 checks of admin, no name has more than two attempts and admin has none. */
  lemma DemoPrefixCounts()
    ensures forall v :: Attempts(DemoPrefix(), v) <= 2
    ensures Attempts(DemoPrefix(), "admin") == 0
  {
    var d0 := Register(Register(Empty, "john_doe", "U1001").0, "admin", "U0001").0;
    DemoChecks(d0);
    var d1 := CheckAvailability(d0, "john_doe").0;
    var d2 := CheckAvailability(d1, "jane_smith").0;
    assert d2.registry == d0.registry;
    assert forall v :: Attempts(d2, v) <= 1;
    JohnDoeProbes(d2);
    SuggestionCountBound(d2, "john_doe", "admin");
    assert forall v :: Attempts(DemoPrefix(), v) <= Attempts(d2, v) + 1;
  }

  /**
   * A name checked `n` times from scratch, when every other counter stays
   * below `n`, is the one reported, with `n` attempts, in any iteration order.
   */
  lemma ReportAfterChecks(d: Directory, u: string, n: nat, order: seq<string>)
    requires 0 < n <= MAX
    requires Attempts(d, u) == 0
    requires forall v :: Attempts(d, v) < n
    requires IsEnumeration(order, CheckTimes(d, u, n).attempts.Keys)
    ensures GetMostAttempted(CheckTimes(d, u, n), order) == Report(Some(u), n)
  {
    RepeatedChecks(d, u, n);
    var e := CheckTimes(d, u, n);
    var r := GetMostAttempted(e, order);
    assert u in e.attempts && e.attempts[u] == n;
    assert r.user.Some?;
    assert Attempts(e, r.user.value) == r.count;
  }

  /**
   * The demonstration's report: after `n` checks of admin it names admin with
   * `n` attempts, in every iteration order of the counter map, as soon as `n`
   * exceeds the 2 attempts john_doe has; the demonstration's 10543 is one such `n`.
   */
  lemma DemoReport(n: nat)
    requires 2 < n <= MAX
    ensures forall order :: IsEnumeration(order, CheckTimes(DemoPrefix(), "admin", n).attempts.Keys) ==>
      GetMostAttempted(CheckTimes(DemoPrefix(), "admin", n), order) == Report(Some("admin"), n)
  {
    DemoPrefixCounts();
    forall order | IsEnumeration(order, CheckTimes(DemoPrefix(), "admin", n).attempts.Keys)
      ensures GetMostAttempted(CheckTimes(DemoPrefix(), "admin", n), order) == Report(Some("admin"), n)
    {
      ReportAfterChecks(DemoPrefix(), "admin", n, order);
    }
  }

  /** Before any check the report names nobody, with 0 attempts. */
  lemma EmptyReport()
    ensures GetMostAttempted(Empty, []) == Report(None, 0)
  {
  }
}
