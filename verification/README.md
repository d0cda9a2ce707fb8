# Username service — a Dafny model

A model of `UsernameService`, an in-memory username directory. The service owns
two maps: a **registry** from username to userId and an **attempt counter** from
username to the number of availability checks made on it. It offers four
operations:

- `registerUsername` inserts a name only if it is absent.
- `checkAvailability` bumps the name's counter and then reports whether the name is unregistered.
- `suggestAlternatives` proposes free names. It returns the name itself when that is free. Otherwise it tries the numeric suffixes 1 to 5, then the underscore-to-dot rewrite. Every candidate goes through `checkAvailability`.
- `getMostAttempted` scans the counter map for the largest count.

Each operation is one atomic step: a pure function from a `Directory` (both maps)
to the new `Directory` and the result.

Files:

- `wrappers.dfy`: `Option`, standing in for Java's possibly-null reference.
- `java_int.dfy`: Java's 32-bit `int` and the wrap-around of `AtomicInteger.incrementAndGet`.
- `names.dfy`: the candidate names. These are the suffix form `u + i` and the dot form `u.replace("_", ".")`.
- `username_service.dfy`: the directory and the four operations.
- `service_properties.dfy`: properties that span several calls. These cover registration races, repeated checks, the cost of a suggestion, what any sequence of calls preserves, and the order independence of the report.
- `scenarios.dfy`: example scenarios and the demonstration in `main`.

## Model

| member | source | states |
|---|---|---|
| `UsernameService.Register` | Usernamechecker_158.java:19-22 | Succeeds exactly when the name is unregistered. On success the registry gains `u ↦ id`. On failure nothing changes. The counters are never touched. |
| `ServiceProperties.RegisterRace` | Usernamechecker_158.java:19-22 | Any number of registrations of one name race in some order. Only the first can win, and it wins exactly when the name was free. The registry then holds the winner's id, and an existing id is never overwritten. |
| `UsernameService.CheckAvailability` | Usernamechecker_158.java:25-32 | The answer is true exactly when the name is unregistered. The name's counter is incremented whatever the answer; an absent counter counts as 0. Every other counter and the registry are unchanged. |
| `ServiceProperties.RepeatedChecks` | Usernamechecker_158.java:27-29 | `n` checks of a name add exactly `n` to its counter, modulo 2^32 as Java's `int` does. Without overflow that is exactly `n` more. Nothing else changes. |
| `JavaInt.Inc` | Usernamechecker_158.java:29 | `incrementAndGet` is the 32-bit truncation of one more. Below the maximum it is exactly one more. |
| `JavaInt.IncNIsWrappedSum` | Usernamechecker_158.java:27-29 | `n` successive increments equal the 32-bit truncation of the sum. |
| `Names.Dotted` | Usernamechecker_158.java:53 | The dot form has the same length as the name. Every underscore becomes a dot, every other character is kept, and no underscore remains. |
| `Names.SuffixCandidatesSpelled` | Usernamechecker_158.java:44-45 | The numeric candidates are the name followed by the text "1" to "5", in that order. |
| `Names.WithSuffix` | Usernamechecker_158.java:45 | `username + i` for a one-digit `i` is the name followed by exactly one character, the decimal digit of `i`. |
| `Names.SuffixCandidates` | Usernamechecker_158.java:44-45 | The loop tries exactly five suffix forms, the `k`-th being the name with digit `k + 1` appended. |
| `Names.Candidates` | Usernamechecker_158.java:44-56 | The candidates of a taken name are the five suffix forms in loop order, followed by the dot form exactly when the name contains `_`. So there are 6 candidates with an underscore and 5 without. |
| `Names.CandidatesDistinct` | Usernamechecker_158.java:38-56 | The original name, its five suffix forms and its dot form are pairwise different, so no suggestion checks a name twice. |
| `UsernameService.Free` | Usernamechecker_158.java:46-48 | The reference filter: a name is kept exactly when it is a candidate and unregistered. |
| `UsernameService.CheckEach` | Usernamechecker_158.java:44-56 | Checking candidates one by one leaves the registry alone. It collects exactly the reference filter of the candidates. Each counter advances by as many increments as the name occurs among the candidates. |
| `UsernameService.SuggestAlternatives` | Usernamechecker_158.java:35-60 | A free name is suggested alone. For a taken name the result is the free candidates, suffixes 1 to 5 then the dot form, in that order. The registry is unchanged, and each counter advances once per probe of its name. |
| `ServiceProperties.SuggestCheckCount` | Usernamechecker_158.java:38-56 | A suggestion costs 1 check for a free name. For a taken name it costs 6, or 7 with an underscore. Each probed name's counter rises by exactly one and all other counters are unchanged. |
| `ServiceProperties.SuggestionsAreFreeCandidates` | Usernamechecker_158.java:43-57 | For a taken name, every suggestion is an unregistered candidate and every unregistered candidate is suggested. There are at most 5, or 6 with an underscore. |
| `ServiceProperties.FreeAppend` | Usernamechecker_158.java:43-57 | Filtering the suffixes and then the dot form gives the filter of the whole candidate list. |
| `ServiceProperties.FreeOfUntaken` | Usernamechecker_158.java:46-48 | When no candidate is registered, all candidates are suggested in order. |
| `ServiceProperties.RegistrationsPersist` | Usernamechecker_158.java:19-60 | Across any sequence of registrations, checks and suggestions: a registered name keeps its id, and a new registry entry comes from a registration of exactly that name and id. Counters are never removed. |
| `UsernameService.ScanMax` | Usernamechecker_158.java:63-72 | The scan from (no user, 0) with strict `>` yields a count at least every count in the order. It names a user exactly when it found a positive count, and that user holds the reported count. |
| `UsernameService.ScanMaxFirstOfTies` | Usernamechecker_158.java:67-71 | Among equal counts, the entry met first in the iteration order wins. |
| `UsernameService.GetMostAttempted` | Usernamechecker_158.java:63-74 | For any iteration order of the counter map, the reported user has the greatest count, which is reported with it. No user and 0 are reported exactly when no count is positive, in particular when nothing was ever checked. |
| `ServiceProperties.MostAttemptedOrderIndependent` | Usernamechecker_158.java:67-72 | The reported count does not depend on the iteration order. Neither does the user, when one name alone has the greatest count, whatever ties there are below it. |
| `Scenarios.NewUserShortCircuit` | Usernamechecker_158.java:38-41 | A free name is suggested back alone with one attempt recorded. |
| `Scenarios.BobFallback` | Usernamechecker_158.java:43-49 | With bob, bob1, bob2 and bob3 taken, bob gets bob4 and bob5 after six checks. |
| `Scenarios.BobCandidates` | Usernamechecker_158.java:44-52 | bob's candidates are bob1 to bob5, with no dot form since bob has no underscore. |
| `Scenarios.BobFilter` | Usernamechecker_158.java:44-49 | Filtering bob's candidates against {bob, bob1, bob2, bob3} keeps bob4 and bob5, in that order. |
| `Scenarios.UnderscoreTaken` | Usernamechecker_158.java:51-57 | With john_doe and john.doe taken, only john_doe1 to john_doe5 are suggested. |
| `Scenarios.JohnDoeCandidates` | Usernamechecker_158.java:44-53 | john_doe's candidates are john_doe1 to john_doe5 and then john.doe. |
| `Scenarios.JohnDoeSuffixes` | Usernamechecker_158.java:44-45 | john_doe's numeric forms are john_doe1 to john_doe5. |
| `Scenarios.JohnDoeDotted` | Usernamechecker_158.java:52-53 | The dot form of john_doe is john.doe. |
| `Scenarios.JohnDoeDotTaken` | Usernamechecker_158.java:46-56 | Filtering john_doe's candidates against {john_doe, john.doe} drops only john.doe. |
| `Scenarios.JohnDoeAllFree` | Usernamechecker_158.java:46-56 | Against {john_doe, admin}, all six john_doe candidates survive the filter. |
| `Scenarios.JohnDoeProbes` | Usernamechecker_158.java:38-56 | A suggestion for john_doe never checks admin. |
| `Scenarios.SuggestionCountBound` | Usernamechecker_158.java:38-56 | For any directory, a suggestion raises any counter by at most one and leaves a name it does not probe unchanged. |
| `Scenarios.DemoChecks` | Usernamechecker_158.java:81-88 | In the demonstration, john_doe is reported taken and jane_smith free. |
| `Scenarios.DemoSuggestion` | Usernamechecker_158.java:90-91 | In the demonstration, john_doe's suggestions are john_doe1 to john_doe5 and john.doe. |
| `Scenarios.DemoPrefixCounts` | Usernamechecker_158.java:81-91 | Before the loop of admin checks, no counter exceeds 2 and admin has none. |
| `Scenarios.ReportAfterChecks` | Usernamechecker_158.java:63-72 | A name checked `n` times from scratch, with every other count below `n`, is reported with `n` attempts in any iteration order. |
| `Scenarios.DemoReport` | Usernamechecker_158.java:93-99 | After `n` checks of admin, with `n` above john_doe's 2 attempts, the report names admin with `n` attempts in every iteration order. The demonstration's 10543 is one such `n`. |
| `Scenarios.EmptyReport` | Usernamechecker_158.java:63-74 | Before any check, the report names nobody, with 0 attempts. |

## Left out

- Concurrency. `ConcurrentHashMap.putIfAbsent`, `computeIfAbsent` and `AtomicInteger.incrementAndGet` only make each single-key step atomic. The model treats every operation as one sequential step, and a race is modelled as some linearisation of its calls (`RegisterAll`). The weakly consistent scan of `getMostAttempted` during concurrent increments is not modelled.
- Hash iteration order. `getMostAttempted` iterates the counter map in an unspecified order. The model takes that order as a parameter `order`, which lists every counter key once. Properties are stated for every such order.
- Report formatting. `mostAttempted + " (" + max + " attempts)"` is not built. The model returns the pair `Report(user, count)`, and Java's `"null"` rendering of a missing user is `None`.
- Null arguments. `ConcurrentHashMap` throws `NullPointerException` for a null username or userId. Model strings are never null.
- Counter growth. The counters are Java `int`s and wrap from 2^31-1 to -2^31, as the code does. They are not ever-increasing counts. After a wrap a counter can be negative. `getMostAttempted` then ignores it, because it only takes counts greater than its starting 0, so a non-empty map can report no user.
- Console output of `main`. Its scenario is covered by the `Demo*` lemmas instead.
