# Error-Prone try/catch checkers: ExceptionSpecificity and Interruption

This project models two Error-Prone bug checkers from `baseline-error-prone` that inspect
a Java `try` statement's catch clauses. It proves properties of both.

- **ExceptionSpecificity** walks the catch clauses in order and records the types caught
  so far. At the first catch of exactly `Exception` or `Throwable` it decides:
  - nothing, when the try block or a resource throws checked exceptions;
  - otherwise it narrows the caught type. `Throwable` becomes `RuntimeException | Error`
    and `Exception` becomes `RuntimeException`.
  - Replacements already covered by an earlier catch are dropped. When none is left,
    the whole catch clause is deleted.
- **Interruption** classifies each catch type against `InterruptedException`:
  - it is a subtype, a supertype, or does not match;
  - a union type is classified through its alternatives.

  Catches that do not match are passed by. The first catch that matches decides:
  - It gets a fix only when its block is non-empty and ends with a `throw`, it does not
    call `interrupt()`, and no comment in the try says "interruption reset".
  - Otherwise the try gets no finding. Later catches are not examined.
  - An unclassifiable catch before it ends the search with no finding.

  The fix puts `Thread.currentThread().interrupt();` before the catch's first statement.
  When the caught type is a supertype, the call is guarded by an `instanceof` test.

Files:
- `java_trees.dfy` (module `JavaTrees`) holds the trees and types both checkers read.
- `exception_specificity.dfy` (module `ExceptionSpecificity`) is imperative where the
  source is. `MatchTry` and `DeduplicateCatchTypes` are methods with loops. They are
  proved equal to the specification functions `Outcome` and `Deduplicated`.
- `interruption.dfy` (module `Interruption`) is pure. The catch search is a recursive
  function. A lemma proves it equal to a "first catch that is not passed by" reference
  definition.

javac's type relations are parameters of type `(CatchType, CatchType) -> bool`. These are
`Types.isSubtype` for ExceptionSpecificity and `Types.isAssignable` for Interruption.
Lemmas about concrete code take the few hierarchy facts they need as preconditions, for
example that `RuntimeException` is a subtype of itself.

## Model

| member | source | states |
|---|---|---|
| ExceptionSpecificity.MatchTry | baseline-error-prone/src/main/java/com/palantir/baseline/errorprone/ExceptionSpecificity.java:58-106 | The loop over catches (unknown types skipped, union alternatives and class types recorded, early return at the first `Exception`/`Throwable`) returns exactly the specified finding `Outcome` |
| ExceptionSpecificity.DeduplicateCatchTypes | baseline-error-prone/src/main/java/com/palantir/baseline/errorprone/ExceptionSpecificity.java:108-122 | The loop keeps exactly the order-preserving filter of the proposals by "not a subtype of any caught type" |
| ExceptionSpecificity.FirstBroad | baseline-error-prone/src/main/java/com/palantir/baseline/errorprone/ExceptionSpecificity.java:75-77 | Finds the index of the first catch of exactly `Exception` or `Throwable`, or reports that there is none |
| ExceptionSpecificity.DeduplicatedIsSubsequence | baseline-error-prone/src/main/java/com/palantir/baseline/errorprone/ExceptionSpecificity.java:113-121 | Deduplication returns a subsequence of the proposed replacements, in their order |
| ExceptionSpecificity.DeduplicatedMembership | baseline-error-prone/src/main/java/com/palantir/baseline/errorprone/ExceptionSpecificity.java:116-118 | A proposal is kept if and only if it is not a subtype of any already-caught type |
| ExceptionSpecificity.CaughtBeforeMembership | baseline-error-prone/src/main/java/com/palantir/baseline/errorprone/ExceptionSpecificity.java:66-73 | A type counts as caught before index k exactly when an earlier catch has it as its class type or as a union alternative. A catch clause whose own type is unknown adds nothing |
| ExceptionSpecificity.OutcomeTargetsFirstBroadCatch | baseline-error-prone/src/main/java/com/palantir/baseline/errorprone/ExceptionSpecificity.java:75-105 | A finding exists if and only if there is an `Exception`/`Throwable` catch and no checked exception is thrown. The finding is always about the first such catch, so a try gets at most one finding |
| ExceptionSpecificity.ReplacementsAreUncoveredProposals | baseline-error-prone/src/main/java/com/palantir/baseline/errorprone/ExceptionSpecificity.java:84-95 | A type replacement is non-empty and is an ordered subsequence of the proposals (`[RuntimeException, Error]` or `[RuntimeException]`). It lists exactly the proposals not covered by an earlier catch |
| ExceptionSpecificity.DeleteCatchIffAllCovered | baseline-error-prone/src/main/java/com/palantir/baseline/errorprone/ExceptionSpecificity.java:89-90 | The catch clause is deleted if and only if every proposal is already covered by an earlier catch |
| ExceptionSpecificity.OutcomeDependsOnlyOnEarlierCatches | baseline-error-prone/src/main/java/com/palantir/baseline/errorprone/ExceptionSpecificity.java:75-101 | Two tries with the same catches up to the first `Exception`/`Throwable` catch, and the same checked-exception status, get the same finding. Catches after that one are never examined |
| ExceptionSpecificity.ThrowableIsNarrowed | baseline-error-prone/src/test/java/com/palantir/baseline/errorprone/ExceptionSpecificityTest.java:24-48 | With nothing caught earlier, `catch (Throwable t)` becomes the union `RuntimeException`, `Error` (joined by a bar), rendered through `ReplacementText` |
| ExceptionSpecificity.ReplacementTextJoins | baseline-error-prone/src/main/java/com/palantir/baseline/errorprone/ExceptionSpecificity.java:92-94 | The rendered replacement is the qualified names joined by a spaced bar: one name renders alone, and two non-empty lists render as the first list's text, the spaced bar, then the second list's text |
| ExceptionSpecificity.EarlierCatchIsDeduplicated | baseline-error-prone/src/test/java/com/palantir/baseline/errorprone/ExceptionSpecificityTest.java:50-106 | After `catch (RuntimeException e)`, a `Throwable` catch becomes `Error` and an `Exception` catch is deleted |
| ExceptionSpecificity.ResourcesThatThrowBlockTheFix | baseline-error-prone/src/main/java/com/palantir/baseline/errorprone/ExceptionSpecificity.java:124-148 | A resource whose initialiser throws, or whose `close` declares a thrown type, blocks the rewrite, and so does a block that throws a checked exception. A resource whose `close` declares nothing does not block it |
| Interruption.GetFix | baseline-error-prone/src/main/java/com/palantir/baseline/errorprone/Interruption.java:143-154 | The fix for a subtype catch is `Thread.currentThread().interrupt();` plus a newline. For a supertype catch the call is guarded by `if (<param> instanceof InterruptedException) { … }`. Either way the fix is a whole line |
| Interruption.GetCatchType | baseline-error-prone/src/main/java/com/palantir/baseline/errorprone/Interruption.java:101-130 | Assignable to `InterruptedException` gives INTERRUPTED_SUBTYPE, and this test comes first. Otherwise a non-union that `InterruptedException` is assignable to gives INTERRUPTED_SUPERTYPE, and neither direction gives DOES_NOT_MATCH. Only a union can be unclassifiable |
| Interruption.ClassifyAll | baseline-error-prone/src/main/java/com/palantir/baseline/errorprone/Interruption.java:112-118 | Classifies every union alternative position by position, or reports an alternative that cannot be classified |
| Interruption.UnionClassification | baseline-error-prone/src/main/java/com/palantir/baseline/errorprone/Interruption.java:107-125 | A union is unclassifiable exactly when an alternative is not a type or is unclassifiable. If all alternatives agree, the union gets their shared class. If they differ, or there are none, it is INTERRUPTED_SUPERTYPE |
| Interruption.CombineAgreesWithUniqueKinds | baseline-error-prone/src/main/java/com/palantir/baseline/errorprone/Interruption.java:119-125 | The "all agree" combination equals the source's rule on the set of distinct classifications: its only element when the set has size one, INTERRUPTED_SUPERTYPE otherwise |
| Interruption.MatchesExactlyInterruptedKinds | baseline-error-prone/src/main/java/com/palantir/baseline/errorprone/Interruption.java:139-141 | `matches()` holds exactly for INTERRUPTED_SUBTYPE and INTERRUPTED_SUPERTYPE |
| Interruption.SupertypeFixGuardsSubtypeFix | baseline-error-prone/src/main/java/com/palantir/baseline/errorprone/Interruption.java:147-151 | The supertype fix is the subtype fix's call wrapped in an `instanceof InterruptedException` guard on the catch parameter |
| Interruption.FirstDecisiveFrom | baseline-error-prone/src/main/java/com/palantir/baseline/errorprone/Interruption.java:66-75 | Finds the first catch from k on that is not DOES_NOT_MATCH (so it matches or is unclassifiable), or reports that every one is passed by |
| Interruption.MatchFromStopsAtFirstDecisive | baseline-error-prone/src/main/java/com/palantir/baseline/errorprone/Interruption.java:66-75 | The search skips DOES_NOT_MATCH catches and gives its verdict at the first catch that is not skipped. With no such catch it gives no finding |
| Interruption.MatchTryDecidedByFirstMatchingCatch | baseline-error-prone/src/main/java/com/palantir/baseline/errorprone/Interruption.java:64-99 | A fix is reported if and only if the first catch not passed by is classifiable and matching, and it has no `interrupt()` call, no "interruption reset" comment, and a non-empty block ending in `throw`. The fix is that catch's `getFix` text, placed before its first statement, and nothing else |
| Interruption.RethrowingCatchesAreFixed | baseline-error-prone/src/main/java/com/palantir/baseline/errorprone/Interruption.java:84-93 | A rethrowing `catch (InterruptedException e)` gets the plain interrupt call. A rethrowing `catch (Exception e)` gets the call guarded by `e instanceof InterruptedException` |

## Left out

- javac's type model is left out. `Types.isSubtype`, `Types.isAssignable` and `getTypeFromString` become relation parameters. Union assignability is whatever the relation says, so no particular rule is assumed.
- `MoreASTHelpers.getThrownCheckedExceptions` is not part of this model. Its answer is a boolean per try block and per resource initialiser.
- `MoreASTHelpers.getCloseMethod` is not part of this model either. Its answer is the optional list of the close method's thrown types.
- Comment scanning with `ErrorProneTokens` and the `Thread.interrupt()` method matcher become boolean inputs on the try and on each catch clause.
- `SuggestedFixes.qualifyType` becomes the `qualify` parameter of `ReplacementText`. Import insertion is not modelled.
- The `SuggestedFix` and `Description` builders become the `Finding` datatypes. These record the catch index and the replacement types, deletion, or prefix text. Source positions and edit application are not modelled.
- The `@BugPattern` and `@AutoService` metadata are framework registration and are left out.
- The Refaster AssertJ rules are left out. Only their tests are in the repository, and the rules are templates for the Refaster engine.
- ExceptionSpecificityTest lines 145-176 are not modelled. That test expects a failure, so rewriting `instanceof` checks is not promised.
- Interruption.GetFix: the `IllegalStateException` for DOES_NOT_MATCH is a precondition instead. The final "Unknown InterruptedCatchType" throw cannot be reached with three enum values.
- ExceptionSpecificity.CaughtBeforeMembership: a union's alternatives are recorded whatever they are, even an unknown one. The source gets only javac `Type`s from `getAlternativeTypes()`, so this case does not arise there.
- Interruption.GetCatchType: for a catch parameter without a type, the source passes null to javac's `isAssignable`. The model just asks the relation parameter, so javac's behaviour on null is not modelled.
- Interruption.MatchTry is a recursive function over the catch index, not a loop. The source loop changes no state and only searches for the first match.
