/**
 * Properties that relate several calls on the username directory: races on
 * one name, repeated checks, the number of checks a suggestion costs, what
 * any sequence of calls preserves, and the order independence of the report.
 */
module ServiceProperties {

  import opened JavaInt
  import opened Names
  import opened UsernameService

  // ---------------------------------------------------------------- registration

  /** `registerUsername(u, ids[i])` for every i in turn: the calls of a race on one name, in the order they were linearised. */
  function RegisterAll(d: Directory, u: string, ids: seq<string>): (Directory, seq<bool>)
    decreases |ids|
  {
    if ids == [] then (d, [])
    else
      var (d1, ok) := Register(d, u, ids[0]);
      var (d2, oks) := RegisterAll(d1, u, ids[1..]);
      (d2, [ok] + oks)
  }

  /**
   * Registration exclusivity: of all the calls racing for `u`, only the first
   * can succeed, and it does exactly when `u` was free; the registry then holds
   * the winner's id, and an id already there is never overwritten.
   */
  lemma {:induction false} RegisterRace(d: Directory, u: string, ids: seq<string>)
    requires ids != []
    ensures |RegisterAll(d, u, ids).1| == |ids|
    ensures forall i :: 0 <= i < |ids| ==> (RegisterAll(d, u, ids).1[i] <==> i == 0 && Available(d, u))
    ensures RegisterAll(d, u, ids).0.registry == if Available(d, u) then d.registry[u := ids[0]] else d.registry
    ensures RegisterAll(d, u, ids).0.attempts == d.attempts
    decreases |ids|
  {
    var (d1, ok) := Register(d, u, ids[0]);
    if |ids| > 1 {
      RegisterRace(d1, u, ids[1..]);
    }
  }

  // ---------------------------------------------------------------- availability checks

  /** `n` calls of `checkAvailability(u)` in a row. */
  function CheckTimes(d: Directory, u: string, n: nat): Directory
    decreases n
  {
    if n == 0 then d else CheckTimes(CheckAvailability(d, u).0, u, n - 1)
  }

  /**
   * Attempt counting is additive: `n` checks of `u` add exactly `n` to its
   * counter (modulo 2^32, as Java's `int` does) and touch nothing else.
   */
  lemma {:induction false} RepeatedChecks(d: Directory, u: string, n: nat)
    ensures CheckTimes(d, u, n).registry == d.registry
    ensures Attempts(CheckTimes(d, u, n), u) == Wrap(Attempts(d, u) + n)
    ensures Attempts(d, u) + n <= MAX ==> Attempts(CheckTimes(d, u, n), u) == Attempts(d, u) + n
    ensures forall v :: v != u ==> Attempts(CheckTimes(d, u, n), v) == Attempts(d, v)
    ensures CheckTimes(d, u, n).attempts.Keys == if n == 0 then d.attempts.Keys else d.attempts.Keys + {u}
    decreases n
  {
    var a := Attempts(d, u);
    if n == 0 {
      WrapInRange(a);
    } else {
      var d1 := CheckAvailability(d, u).0;
      RepeatedChecks(d1, u, n - 1);
      assert Attempts(d1, u) == Wrap(a + 1);
      WrapOfWrap(a + 1, n - 1);
    }
    if a + n <= MAX {
      WrapInRange(a + n);
    }
  }

  // ---------------------------------------------------------------- suggestions

  /** A name listed once has multiplicity one. */
  lemma {:induction false} DistinctMultiplicity(s: seq<string>, v: string)
    requires Distinct(s)
    ensures multiset(s)[v] == if v in s then 1 else 0
    decreases |s|
  {
    if s != [] {
      assert s == [s[0]] + s[1..];
      assert Distinct(s[1..]);
      DistinctMultiplicity(s[1..], v);
    }
  }

  /**
   * A suggestion for a free name costs one check; for a taken name it costs
   * 1 + 5 checks, plus one when the name has an underscore. Each probed name
   * is checked once, so its counter moves by exactly one, and no other
   * counter and nothing in the registry changes.
   */
  lemma SuggestCheckCount(d: Directory, u: string)
    ensures |Probes(d, u)| == if Available(d, u) then 1 else if '_' in u then 7 else 6
    ensures SuggestAlternatives(d, u).0.registry == d.registry
    ensures forall v :: v in Probes(d, u) ==> Attempts(SuggestAlternatives(d, u).0, v) == Inc(Attempts(d, v))
    ensures forall v :: v !in Probes(d, u) ==> Attempts(SuggestAlternatives(d, u).0, v) == Attempts(d, v)
  {
    var e := SuggestAlternatives(d, u).0;
    ProbesDistinct(d, u);
    OnceEach(d, e, Probes(d, u));
  }

  /** Counters advanced once per occurrence in a list without repeats: each listed name moves by one, the rest stay. */
  lemma OnceEach(d: Directory, e: Directory, p: seq<string>)
    requires Distinct(p)
    requires forall v :: Attempts(e, v) == IncN(Attempts(d, v), multiset(p)[v])
    ensures forall v :: v in p ==> Attempts(e, v) == Inc(Attempts(d, v))
    ensures forall v :: v !in p ==> Attempts(e, v) == Attempts(d, v)
  {
    forall v
      ensures Attempts(e, v) == if v in p then Inc(Attempts(d, v)) else Attempts(d, v)
    {
      DistinctMultiplicity(p, v);
      if v in p {
        assert IncN(Attempts(d, v), 1) == IncN(Inc(Attempts(d, v)), 0);
      }
    }
  }

  /** A suggestion probes no name twice. */
  lemma ProbesDistinct(d: Directory, u: string)
    ensures Distinct(Probes(d, u))
  {
    if !Available(d, u) {
      CandidatesDistinct(u);
      assert Probes(d, u) == [u] + Candidates(u);
    }
  }

  /**
   * For a taken name, the suggestions are exactly the candidates the registry
   * does not hold: every suggestion is free, and every free candidate is suggested.
   */
  lemma SuggestionsAreFreeCandidates(d: Directory, u: string)
    requires !Available(d, u)
    ensures forall s :: s in SuggestAlternatives(d, u).1 <==> s in Candidates(u) && Available(d, s)
    ensures |SuggestAlternatives(d, u).1| <= if '_' in u then 6 else 5
  {
  }

  /** Filtering candidate lists piece by piece gives the filter of the whole list. */
  lemma {:induction false} FreeAppend(registry: map<string, string>, a: seq<string>, b: seq<string>)
    ensures Free(registry, a + b) == Free(registry, a) + Free(registry, b)
    decreases |a|
  {
    if a == [] {
      assert a + b == b;
    } else {
      assert (a + b)[0] == a[0];
      assert (a + b)[1..] == a[1..] + b;
      FreeAppend(registry, a[1..], b);
    }
  }

  /** When no candidate is taken, all are suggested, in their order. */
  lemma {:induction false} FreeOfUntaken(registry: map<string, string>, cands: seq<string>)
    requires forall i :: 0 <= i < |cands| ==> cands[i] !in registry
    ensures Free(registry, cands) == cands
    decreases |cands|
  {
    if cands != [] {
      FreeOfUntaken(registry, cands[1..]);
    }
  }

  // ---------------------------------------------------------------- any sequence of calls

  /** The state-changing calls of the service. */
  datatype Call = RegisterCall(u: string, id: string) | CheckCall(u: string) | SuggestCall(u: string)

  function Step(d: Directory, c: Call): Directory
  {
    match c
    case RegisterCall(u, id) => Register(d, u, id).0
    case CheckCall(u) => CheckAvailability(d, u).0
    case SuggestCall(u) => SuggestAlternatives(d, u).0
  }

  function Run(d: Directory, calls: seq<Call>): Directory
    decreases |calls|
  {
    if calls == [] then d else Run(Step(d, calls[0]), calls[1..])
  }

  /**
   * Whatever calls follow, a registered name stays registered to the same id,
   * only `registerUsername` adds names to the registry, and a counter once
   * created is never removed.
   */
  lemma {:induction false} RegistrationsPersist(d: Directory, calls: seq<Call>)
    ensures forall u :: u in d.registry ==> u in Run(d, calls).registry && Run(d, calls).registry[u] == d.registry[u]
    ensures forall u :: u in Run(d, calls).registry && u !in d.registry ==>
      exists i :: 0 <= i < |calls| && calls[i] == RegisterCall(u, Run(d, calls).registry[u])
    ensures d.attempts.Keys <= Run(d, calls).attempts.Keys
    decreases |calls|
  {
    if calls != [] {
      var d1 := Step(d, calls[0]);
      RegistrationsPersist(d1, calls[1..]);
      var e := Run(d, calls);
      forall u | u in e.registry && u !in d.registry
        ensures exists i :: 0 <= i < |calls| && calls[i] == RegisterCall(u, e.registry[u])
      {
        if u in d1.registry {
          assert calls[0] == RegisterCall(u, e.registry[u]);
        } else {
          var i :| 0 <= i < |calls[1..]| && calls[1..][i] == RegisterCall(u, e.registry[u]);
          assert calls[i + 1] == RegisterCall(u, e.registry[u]);
        }
      }
    }
  }

  // ---------------------------------------------------------------- most attempted

  /**
   * The reported count does not depend on the iteration order, and neither
   * does the reported user when the greatest count is held by one name alone.
   */
  lemma MostAttemptedOrderIndependent(d: Directory, o1: seq<string>, o2: seq<string>)
    requires IsEnumeration(o1, d.attempts.Keys) && IsEnumeration(o2, d.attempts.Keys)
    ensures GetMostAttempted(d, o1).count == GetMostAttempted(d, o2).count
    ensures (exists m :: m in d.attempts && forall k :: k in d.attempts && k != m ==> d.attempts[k] < d.attempts[m]) ==>
      GetMostAttempted(d, o1) == GetMostAttempted(d, o2)
  {
    var r1, r2 := GetMostAttempted(d, o1), GetMostAttempted(d, o2);
    if r1.user.Some? {
      assert r1.count <= r2.count;
    }
    if r2.user.Some? {
      assert r2.count <= r1.count;
    }
  }
}
