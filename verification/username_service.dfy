/**
 * The username directory: a registry of taken names (username to userId) and
 * a per-name counter of availability checks. Each operation is one atomic
 * step returning the new directory together with its result.
 */
module UsernameService {

  import opened Wrappers
  import opened JavaInt
  import opened Names

  /** Both maps the service owns. */
  datatype Directory = Directory(registry: map<string, string>, attempts: map<string, Int32>)

  /** A freshly constructed service. */
  const Empty: Directory := Directory(map[], map[])

  /** The counter of `u`; a name never checked reads as the 0 `computeIfAbsent` would create. */
  function Attempts(d: Directory, u: string): Int32
  {
    if u in d.attempts then d.attempts[u] else 0
  }

  /** A name is available exactly when the registry has no entry for it. */
  predicate Available(d: Directory, u: string)
  {
    u !in d.registry
  }

  // ---------------------------------------------------------------- registerUsername

  /** `registerUsername`: insert-if-absent; true exactly when the insertion happened. */
  function Register(d: Directory, u: string, id: string): (r: (Directory, bool))
    ensures r.1 <==> Available(d, u)
    ensures r.1 ==> r.0.registry == d.registry[u := id]
    ensures !r.1 ==> r.0 == d
    ensures r.0.attempts == d.attempts
  {
    if u in d.registry then (d, false)
    else (d.(registry := d.registry[u := id]), true)
  }

  // ---------------------------------------------------------------- checkAvailability

  /** `checkAvailability`: bumps the counter of `u` whatever the outcome, then reports availability. */
  function CheckAvailability(d: Directory, u: string): (r: (Directory, bool))
    ensures r.1 <==> Available(d, u)
    ensures r.0.registry == d.registry
    ensures r.0.attempts.Keys == d.attempts.Keys + {u}
    ensures Attempts(r.0, u) == Inc(Attempts(d, u))
    ensures forall v :: v != u ==> Attempts(r.0, v) == Attempts(d, v)
  {
    (d.(attempts := d.attempts[u := Inc(Attempts(d, u))]), u !in d.registry)
  }

  /** The available names among `cands`, in their order: the reference the checking loop is held to. */
  function Free(registry: map<string, string>, cands: seq<string>): (r: seq<string>)
    ensures forall x :: x in r <==> x in cands && x !in registry
    ensures |r| <= |cands|
    decreases |cands|
  {
    if cands == [] then []
    else (if cands[0] !in registry then [cands[0]] else []) + Free(registry, cands[1..])
  }

  /**
   * Checks every name of `cands` in turn, through `CheckAvailability`, and
   * collects the available ones. The registry is read but never written, so
   * the collected names are the `Free` ones; every name's counter moves on by
   * as many increments as it occurs in `cands`.
   */
  function CheckEach(d: Directory, cands: seq<string>): (r: (Directory, seq<string>))
    ensures r.0.registry == d.registry
    ensures r.1 == Free(d.registry, cands)
    ensures r.0.attempts.Keys == d.attempts.Keys + set c | c in cands
    ensures forall v :: Attempts(r.0, v) == IncN(Attempts(d, v), multiset(cands)[v])
    decreases |cands|
  {
    if cands == [] then (d, [])
    else
      var (d1, ok) := CheckAvailability(d, cands[0]);
      var (d2, rest) := CheckEach(d1, cands[1..]);
      CheckEachStep(d, d1, d2, cands);
      (d2, (if ok then [cands[0]] else []) + rest)
  }

  /** The inductive step of `CheckEach`'s counter contract. */
  lemma CheckEachStep(d: Directory, d1: Directory, d2: Directory, cands: seq<string>)
    requires cands != []
    requires d1 == CheckAvailability(d, cands[0]).0
    requires forall v :: Attempts(d2, v) == IncN(Attempts(d1, v), multiset(cands[1..])[v])
    ensures forall v :: Attempts(d2, v) == IncN(Attempts(d, v), multiset(cands)[v])
  {
    assert cands == [cands[0]] + cands[1..];
    forall v
      ensures Attempts(d2, v) == IncN(Attempts(d, v), multiset(cands)[v])
    {
      if v == cands[0] {
        assert multiset(cands)[v] == multiset(cands[1..])[v] + 1;
      } else {
        assert multiset(cands)[v] == multiset(cands[1..])[v];
      }
    }
  }

  // ---------------------------------------------------------------- suggestAlternatives

  /** The names `suggestAlternatives(u)` checks, in order: `u` alone when it is free, else `u` and all its candidates. */
  function Probes(d: Directory, u: string): seq<string>
  {
    if Available(d, u) then [u] else [u] + Candidates(u)
  }

  /**
   * `suggestAlternatives`: a free name is its own only suggestion; for a taken
   * name, the free candidates in the order tried. Every name probed gets
   * exactly the increments its checks cause and nothing else moves.
   */
  function SuggestAlternatives(d: Directory, u: string): (r: (Directory, seq<string>))
    ensures r.0.registry == d.registry
    ensures Available(d, u) ==> r.1 == [u]
    ensures !Available(d, u) ==> r.1 == Free(d.registry, Candidates(u))
    ensures r.0.attempts.Keys == d.attempts.Keys + set p | p in Probes(d, u)
    ensures forall v :: Attempts(r.0, v) == IncN(Attempts(d, v), multiset(Probes(d, u))[v])
  {
    var (d1, free) := CheckAvailability(d, u);
    if free then
      assert Probes(d, u) == [u];
      (d1, [u])
    else
      var (d2, found) := CheckEach(d1, Candidates(u));
      SuggestCounts(d, d1, d2, u);
      (d2, found)
  }

  /** Counter bookkeeping for a taken name: the first check plus those of `CheckEach`. */
  lemma SuggestCounts(d: Directory, d1: Directory, d2: Directory, u: string)
    requires !Available(d, u)
    requires d1 == CheckAvailability(d, u).0
    requires d2.attempts.Keys == d1.attempts.Keys + set c | c in Candidates(u)
    requires forall v :: Attempts(d2, v) == IncN(Attempts(d1, v), multiset(Candidates(u))[v])
    ensures d2.attempts.Keys == d.attempts.Keys + set p | p in Probes(d, u)
    ensures forall v :: Attempts(d2, v) == IncN(Attempts(d, v), multiset(Probes(d, u))[v])
  {
    var p := Probes(d, u);
    assert p == [u] + Candidates(u);
    assert p[1..] == Candidates(u);
    assert (set x | x in p) == {u} + set c | c in Candidates(u);
    CheckEachStep(d, d1, d2, p);
  }

  // ---------------------------------------------------------------- getMostAttempted

  /** The outcome of `getMostAttempted` before it is formatted: the winner, if any, and its count. */
  datatype Report = Report(user: Option<string>, count: Int32)

  /** `order` lists the keys of `keys` once each: an iteration order of the counter map. */
  predicate IsEnumeration(order: seq<string>, keys: set<string>)
  {
    && (forall k :: k in keys ==> k in order)
    && (forall i :: 0 <= i < |order| ==> order[i] in keys)
    && Distinct(order)
  }

  /**
   * The scan of `getMostAttempted` over `order`, starting from no user and 0
   * and taking an entry only when its count is strictly greater: the result is
   * at least every count seen, and names a user exactly when some count is positive.
   */
  function ScanMax(counts: map<string, Int32>, order: seq<string>): (r: Report)
    requires forall i :: 0 <= i < |order| ==> order[i] in counts
    ensures r.count >= 0
    ensures forall i :: 0 <= i < |order| ==> counts[order[i]] <= r.count
    ensures r.user.Some? ==> r.user.value in order && counts[r.user.value] == r.count > 0
    ensures r.user.None? ==> r.count == 0
    decreases |order|
  {
    if order == [] then Report(None, 0)
    else
      var prev := ScanMax(counts, order[..|order| - 1]);
      var k := order[|order| - 1];
      if counts[k] > prev.count then Report(Some(k), counts[k]) else prev
  }

  /** Ties go to the entry met first: no entry before the winner reaches its count. */
  lemma {:induction false} ScanMaxFirstOfTies(counts: map<string, Int32>, order: seq<string>, i: int)
    requires forall j :: 0 <= j < |order| ==> order[j] in counts
    requires 0 <= i < |order|
    requires ScanMax(counts, order).user == Some(order[i])
    requires Distinct(order)
    ensures forall j :: 0 <= j < i ==> counts[order[j]] < counts[order[i]]
    decreases |order|
  {
    var prev := ScanMax(counts, order[..|order| - 1]);
    var last := order[|order| - 1];
    if counts[last] > prev.count {
      assert i == |order| - 1;
    } else {
      assert i < |order| - 1;
      ScanMaxFirstOfTies(counts, order[..|order| - 1], i);
    }
  }

  /**
   * `getMostAttempted` for one iteration order of the counter map: a user with
   * the greatest count, and that count; no user and 0 when no count is
   * positive, in particular when nothing was ever checked.
   */
  function GetMostAttempted(d: Directory, order: seq<string>): (r: Report)
    requires IsEnumeration(order, d.attempts.Keys)
    ensures forall k :: k in d.attempts ==> d.attempts[k] <= r.count
    ensures r.user.Some? ==> r.user.value in d.attempts && d.attempts[r.user.value] == r.count
    ensures r.user.None? <==> forall k :: k in d.attempts ==> d.attempts[k] <= 0
    ensures r.user.None? ==> r.count == 0
    ensures d.attempts == map[] ==> r == Report(None, 0)
  {
    var r := ScanMax(d.attempts, order);
    assert forall k :: k in d.attempts ==> exists i :: 0 <= i < |order| && order[i] == k;
    r
  }
}
