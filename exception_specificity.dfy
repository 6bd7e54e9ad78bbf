/** The ExceptionSpecificity checker: a catch of exactly `Exception` or `Throwable`
    whose try cannot throw a checked exception is narrowed to the unchecked types
    (`RuntimeException`, and `Error` for `Throwable`) that no earlier catch already
    covers, or deleted when every one of them is covered. */
module ExceptionSpecificity {
  import opened JavaTrees

  /** Proposed replacements for `catch (Throwable t)`, in order. */
  const THROWABLE_REPLACEMENTS: seq<TypeName> := [RUNTIME_EXCEPTION, ERROR]
  /** Proposed replacements for `catch (Exception e)`. */
  const EXCEPTION_REPLACEMENTS: seq<TypeName> := [RUNTIME_EXCEPTION]

  /** The checker's verdict on one try statement. ReplaceType replaces the type of the
      catch parameter at catchIndex by the union of `replacements`; DeleteCatch removes
      that whole catch clause. */
  datatype Finding =
    | NoMatch
    | ReplaceType(catchIndex: nat, replacements: seq<TypeName>)
    | DeleteCatch(catchIndex: nat)

  // ---------------------------------------------------------------------------
  // Checked exceptions

  /** A resource throws checked exceptions when its initialiser does, or when its type
      is a class whose `close` method declares any thrown type. */
  predicate ResourceThrowsCheckedExceptions(r: Resource)
  {
    if r.initializerThrowsChecked then true
    else match r.rtype
      case Untyped => false
      case NotAClass => false
      case ClassType(close) => close.Some? && |close.value| > 0
  }

  /** The try block or any of the resources throws checked exceptions. */
  predicate ThrowsCheckedExceptions(t: TryStmt)
  {
    t.blockThrowsChecked || exists r :: r in t.resources && ResourceThrowsCheckedExceptions(r)
  }

  // ---------------------------------------------------------------------------
  // Specification of the checker

  /** A catch type the checker acts on: exactly `Exception` or exactly `Throwable`. */
  predicate IsBroad(c: CatchType)
  {
    c == Simple(EXCEPTION) || c == Simple(THROWABLE)
  }

  /** The replacements proposed for a broad catch type, before deduplication. */
  function Proposals(c: CatchType): (proposed: seq<TypeName>)
    requires IsBroad(c)
  {
    if c == Simple(THROWABLE) then THROWABLE_REPLACEMENTS else EXCEPTION_REPLACEMENTS
  }

  /** The types a (non-broad) catch clause adds to the caught types: a class type
      itself, every alternative of a union, nothing for an unknown type. */
  function Recorded(c: CatchType): (recorded: seq<CatchType>)
  {
    match c
    case Unknown => []
    case Union(alternatives) => alternatives
    case Simple(_) => [c]
  }

  /** The types caught by the first k catch clauses, in order. */
  function CaughtBefore(catches: seq<CatchClause>, k: nat): (caught: seq<CatchType>)
    requires k <= |catches|
  {
    if k == 0 then [] else CaughtBefore(catches, k - 1) + Recorded(catches[k - 1].paramType)
  }

  /** The index of the first broad catch clause, if there is one. */
  function FirstBroad(catches: seq<CatchClause>): (r: Option<nat>)
    ensures r.Some? ==> r.value < |catches| && IsBroad(catches[r.value].paramType)
    ensures r.Some? ==> forall j :: 0 <= j < r.value ==> !IsBroad(catches[j].paramType)
    ensures r.None? <==> forall j :: 0 <= j < |catches| ==> !IsBroad(catches[j].paramType)
  {
    if catches == [] then None
    else if IsBroad(catches[0].paramType) then Some(0)
    else match FirstBroad(catches[1..])
      case None => None
      case Some(i) => Some(i + 1)
  }

  /** A proposed replacement is covered when it is a subtype of a type already caught. */
  predicate Covered(p: TypeName, caught: seq<CatchType>, isSubtype: TypeRelation)
  {
    exists c :: c in caught && isSubtype(Simple(p), c)
  }

  /** The proposals that no caught type covers, in their original order. */
  function Deduplicated(proposed: seq<TypeName>, caught: seq<CatchType>, isSubtype: TypeRelation): (kept: seq<TypeName>)
  {
    if proposed == [] then []
    else
      var head := if Covered(proposed[0], caught, isSubtype) then [] else [proposed[0]];
      head + Deduplicated(proposed[1..], caught, isSubtype)
  }

  /** What the checker reports: nothing without a broad catch or when checked exceptions
      can be thrown; otherwise, for the first broad catch, its deduplicated proposals, or
      the deletion of the clause when none is left. */
  function Outcome(t: TryStmt, isSubtype: TypeRelation): (f: Finding)
  {
    match FirstBroad(t.catches)
    case None => NoMatch
    case Some(i) =>
      if ThrowsCheckedExceptions(t) then NoMatch
      else
        var kept := Deduplicated(Proposals(t.catches[i].paramType), CaughtBefore(t.catches, i), isSubtype);
        if kept == [] then DeleteCatch(i) else ReplaceType(i, kept)
  }

  /** `a` is `b` with some elements dropped and the rest in their original order. */
  ghost predicate IsSubsequence<T>(a: seq<T>, b: seq<T>)
    decreases |b|
  {
    if a == [] then true
    else if b == [] then false
    else (a[0] == b[0] && IsSubsequence(a[1..], b[1..])) || IsSubsequence(a, b[1..])
  }

  // ---------------------------------------------------------------------------
  // The checker

  /** Walks the catch clauses in order, recording the types caught so far, and decides
      at the first catch of exactly `Exception` or `Throwable`. */
  method MatchTry(t: TryStmt, isSubtype: TypeRelation) returns (f: Finding)
    ensures f == Outcome(t, isSubtype)
  {
    var encounteredTypes: seq<CatchType> := [];
    var k := 0;
    while k < |t.catches|
      invariant k <= |t.catches|
      invariant encounteredTypes == CaughtBefore(t.catches, k)
      invariant forall j :: 0 <= j < k ==> !IsBroad(t.catches[j].paramType)
    {
      var catchType := t.catches[k].paramType;
      if catchType == Unknown {
        k := k + 1;
        continue;
      }
      if catchType.Union? {
        encounteredTypes := encounteredTypes + catchType.alternatives;
        k := k + 1;
        continue;
      }
      var isException := catchType == Simple(EXCEPTION);
      var isThrowable := catchType == Simple(THROWABLE);
      if isException || isThrowable {
        if !ThrowsCheckedExceptions(t) {
          var replacements := DeduplicateCatchTypes(
            if isThrowable then THROWABLE_REPLACEMENTS else EXCEPTION_REPLACEMENTS,
            encounteredTypes,
            isSubtype);
          if replacements == [] {
            return DeleteCatch(k);
          }
          return ReplaceType(k, replacements);
        }
        return NoMatch;
      }
      encounteredTypes := encounteredTypes + [catchType];
      k := k + 1;
    }
    return NoMatch;
  }

  /** Keeps, in order, each proposed replacement that is not a subtype of any caught type
      (a catch of a type already caught would not compile). */
  method DeduplicateCatchTypes(proposed: seq<TypeName>, caught: seq<CatchType>, isSubtype: TypeRelation)
    returns (replacements: seq<TypeName>)
    ensures replacements == Deduplicated(proposed, caught, isSubtype)
  {
    replacements := [];
    var i := 0;
    while i < |proposed|
      invariant i <= |proposed|
      invariant replacements + Deduplicated(proposed[i..], caught, isSubtype)
        == Deduplicated(proposed, caught, isSubtype)
    {
      var p := proposed[i];
      ghost var rest := proposed[i..];
      assert rest[0] == p && rest[1..] == proposed[i + 1..];
      if !Covered(p, caught, isSubtype) {
        assert Deduplicated(rest, caught, isSubtype) == [p] + Deduplicated(proposed[i + 1..], caught, isSubtype);
        replacements := replacements + [p];
      } else {
        assert Deduplicated(rest, caught, isSubtype) == Deduplicated(proposed[i + 1..], caught, isSubtype);
      }
      i := i + 1;
    }
    assert proposed[i..] == [];
  }

  /** The text that replaces the catch parameter's type: the qualified replacement names
      joined by " | ". `qualify` stands for the name qualification done while building
      the fix. */
  function ReplacementText(replacements: seq<TypeName>, qualify: TypeName -> string): (text: string)
  {
    if replacements == [] then ""
    else if |replacements| == 1 then qualify(replacements[0])
    else qualify(replacements[0]) + " | " + ReplacementText(replacements[1..], qualify)
  }

  /** Joining is associative: the text for two non-empty lists is the first list's text,
      the separator, then the second list's text; a single name renders alone. */
  lemma {:induction false} ReplacementTextJoins(a: seq<TypeName>, b: seq<TypeName>, qualify: TypeName -> string)
    requires a != [] && b != []
    ensures ReplacementText(a + b, qualify) == ReplacementText(a, qualify) + " | " + ReplacementText(b, qualify)
    ensures ReplacementText([a[0]], qualify) == qualify(a[0])
  {
    if |a| > 1 {
      assert (a + b)[1..] == a[1..] + b;
      ReplacementTextJoins(a[1..], b, qualify);
    } else {
      assert (a + b)[1..] == b;
    }
  }

  // ---------------------------------------------------------------------------
  // Properties of deduplication

  /** Deduplication only drops proposals; the survivors keep their order. */
  lemma {:induction false} DeduplicatedIsSubsequence(proposed: seq<TypeName>, caught: seq<CatchType>, isSubtype: TypeRelation)
    ensures IsSubsequence(Deduplicated(proposed, caught, isSubtype), proposed)
  {
    if proposed != [] {
      var rest := Deduplicated(proposed[1..], caught, isSubtype);
      DeduplicatedIsSubsequence(proposed[1..], caught, isSubtype);
      var d := Deduplicated(proposed, caught, isSubtype);
      if Covered(proposed[0], caught, isSubtype) {
        assert d == rest;
      } else {
        assert d == [proposed[0]] + rest;
        assert d[1..] == rest;
      }
    }
  }

  /** A proposal survives deduplication exactly when no caught type covers it. */
  lemma {:induction false} DeduplicatedMembership(proposed: seq<TypeName>, caught: seq<CatchType>, isSubtype: TypeRelation)
    ensures forall p ::
      p in Deduplicated(proposed, caught, isSubtype) <==> p in proposed && !Covered(p, caught, isSubtype)
  {
    if proposed != [] {
      DeduplicatedMembership(proposed[1..], caught, isSubtype);
      assert proposed == [proposed[0]] + proposed[1..];
    }
  }

  // ---------------------------------------------------------------------------
  // Properties of the checker

  /** Unknown types are never recorded as caught; a class type and every alternative
      of a union are. */
  lemma {:induction false} CaughtBeforeMembership(catches: seq<CatchClause>, k: nat, c: CatchType)
    requires k <= |catches|
    ensures c in CaughtBefore(catches, k) <==>
      exists j :: 0 <= j < k && ((catches[j].paramType == c && c.Simple?)
                                 || (catches[j].paramType.Union? && c in catches[j].paramType.alternatives))
  {
    if k > 0 {
      CaughtBeforeMembership(catches, k - 1, c);
    }
  }

  /** The checker reports something exactly when there is a broad catch and neither the
      block nor a resource throws checked exceptions; the report is about the first broad
      catch, so a try gets at most one finding. */
  lemma OutcomeTargetsFirstBroadCatch(t: TryStmt, isSubtype: TypeRelation)
    ensures Outcome(t, isSubtype) != NoMatch <==>
      FirstBroad(t.catches).Some? && !ThrowsCheckedExceptions(t)
    ensures Outcome(t, isSubtype) != NoMatch ==>
      var i := Outcome(t, isSubtype).catchIndex;
      i < |t.catches| && IsBroad(t.catches[i].paramType)
      && forall j :: 0 <= j < i ==> !IsBroad(t.catches[j].paramType)
  {
  }

  /** A narrowed type lists, in order, exactly the proposals that no earlier catch covers,
      and at least one of them. */
  lemma ReplacementsAreUncoveredProposals(t: TryStmt, isSubtype: TypeRelation, i: nat, r: seq<TypeName>)
    requires Outcome(t, isSubtype) == ReplaceType(i, r)
    ensures i < |t.catches| && IsBroad(t.catches[i].paramType)
    ensures r != [] && IsSubsequence(r, Proposals(t.catches[i].paramType))
    ensures forall p :: p in r <==>
      p in Proposals(t.catches[i].paramType) && !Covered(p, CaughtBefore(t.catches, i), isSubtype)
  {
    DeduplicatedIsSubsequence(Proposals(t.catches[i].paramType), CaughtBefore(t.catches, i), isSubtype);
    DeduplicatedMembership(Proposals(t.catches[i].paramType), CaughtBefore(t.catches, i), isSubtype);
  }

  /** The first broad catch clause is deleted exactly when earlier catches already cover
      every proposed replacement. */
  lemma DeleteCatchIffAllCovered(t: TryStmt, isSubtype: TypeRelation, i: nat)
    requires FirstBroad(t.catches) == Some(i) && !ThrowsCheckedExceptions(t)
    ensures Outcome(t, isSubtype) == DeleteCatch(i) <==>
      forall p :: p in Proposals(t.catches[i].paramType) ==> Covered(p, CaughtBefore(t.catches, i), isSubtype)
  {
    var proposed := Proposals(t.catches[i].paramType);
    var kept := Deduplicated(proposed, CaughtBefore(t.catches, i), isSubtype);
    DeduplicatedMembership(proposed, CaughtBefore(t.catches, i), isSubtype);
    if kept != [] {
      assert kept[0] in kept;
    }
  }

  /** The finding depends only on the catches up to the first broad one (and on whether
      checked exceptions are thrown): catches after it are never examined. */
  lemma {:induction false} OutcomeDependsOnlyOnEarlierCatches(t1: TryStmt, t2: TryStmt, isSubtype: TypeRelation, i: nat)
    requires FirstBroad(t1.catches) == Some(i)
    requires i < |t2.catches| && forall j :: 0 <= j <= i ==> t1.catches[j] == t2.catches[j]
    requires ThrowsCheckedExceptions(t1) == ThrowsCheckedExceptions(t2)
    ensures Outcome(t1, isSubtype) == Outcome(t2, isSubtype)
  {
    assert FirstBroad(t2.catches) == Some(i);
    CaughtBeforeSamePrefix(t1.catches, t2.catches, i);
  }

  /** Catch lists that agree on their first k clauses have caught the same types there. */
  lemma {:induction false} CaughtBeforeSamePrefix(a: seq<CatchClause>, b: seq<CatchClause>, k: nat)
    requires k <= |a| && k <= |b|
    requires forall j :: 0 <= j < k ==> a[j] == b[j]
    ensures CaughtBefore(a, k) == CaughtBefore(b, k)
  {
    if k > 0 {
      CaughtBeforeSamePrefix(a, b, k - 1);
    }
  }

  // ---------------------------------------------------------------------------
  // The refactoring tests, as lemmas

  function CatchOf(name: string, c: CatchType): (clause: CatchClause)
  {
    CatchClause(name, c, false, [Statement(false, "System.out.println(\"foo\");")])
  }

  /** `catch (Throwable t)` after a block that throws nothing checked becomes
      `catch (RuntimeException | Error t)`. */
  lemma ThrowableIsNarrowed(isSubtype: TypeRelation, qualify: TypeName -> string)
    requires qualify(RUNTIME_EXCEPTION) == "RuntimeException" && qualify(ERROR) == "Error"
    ensures var t := TryStmt([], false, [CatchOf("t", Simple(THROWABLE))], false);
      Outcome(t, isSubtype) == ReplaceType(0, [RUNTIME_EXCEPTION, ERROR])
      && ReplacementText(Outcome(t, isSubtype).replacements, qualify) == "RuntimeException | Error"
  {
    var t := TryStmt([], false, [CatchOf("t", Simple(THROWABLE))], false);
    assert FirstBroad(t.catches) == Some(0);
    assert !ThrowsCheckedExceptions(t);
    assert CaughtBefore(t.catches, 0) == [];
    assert Deduplicated([ERROR], [], isSubtype) == [ERROR];
    assert Deduplicated(THROWABLE_REPLACEMENTS, [], isSubtype) == THROWABLE_REPLACEMENTS;
    assert ReplacementText([ERROR], qualify) == "Error";
  }

  /** `catch (Throwable t)` after `catch (RuntimeException e)` becomes `catch (Error t)`;
      `catch (Exception t)` after it is deleted. */
  lemma EarlierCatchIsDeduplicated(isSubtype: TypeRelation)
    requires isSubtype(Simple(RUNTIME_EXCEPTION), Simple(RUNTIME_EXCEPTION))
    requires !isSubtype(Simple(ERROR), Simple(RUNTIME_EXCEPTION))
    ensures Outcome(TryStmt([], false, [CatchOf("e", Simple(RUNTIME_EXCEPTION)), CatchOf("t", Simple(THROWABLE))], false), isSubtype)
      == ReplaceType(1, [ERROR])
    ensures Outcome(TryStmt([], false, [CatchOf("e", Simple(RUNTIME_EXCEPTION)), CatchOf("t", Simple(EXCEPTION))], false), isSubtype)
      == DeleteCatch(1)
  {
    var caught := [Simple(RUNTIME_EXCEPTION)];
    assert Covered(RUNTIME_EXCEPTION, caught, isSubtype) by {
      assert caught[0] in caught;
    }
    assert !Covered(ERROR, caught, isSubtype);
    var t1 := TryStmt([], false, [CatchOf("e", Simple(RUNTIME_EXCEPTION)), CatchOf("t", Simple(THROWABLE))], false);
    var t2 := TryStmt([], false, [CatchOf("e", Simple(RUNTIME_EXCEPTION)), CatchOf("t", Simple(EXCEPTION))], false);
    assert CaughtBefore(t1.catches, 1) == caught;
    assert CaughtBefore(t2.catches, 1) == caught;
    assert FirstBroad(t1.catches) == Some(1);
    assert FirstBroad(t2.catches) == Some(1);
    assert Deduplicated([ERROR], caught, isSubtype) == [ERROR];
    assert Deduplicated(THROWABLE_REPLACEMENTS, caught, isSubtype) == [ERROR];
    assert Deduplicated(EXCEPTION_REPLACEMENTS, caught, isSubtype) == [];
  }

  /** A resource whose initialiser or `close` method throws blocks the rewrite; a resource
      whose `close` declares nothing does not. */
  lemma ResourcesThatThrowBlockTheFix(isSubtype: TypeRelation)
    ensures Outcome(TryStmt([Resource(false, ClassType(Some([])))], false, [CatchOf("t", Simple(THROWABLE))], false), isSubtype)
      == ReplaceType(0, THROWABLE_REPLACEMENTS)
    ensures Outcome(TryStmt([Resource(true, ClassType(Some([])))], false, [CatchOf("t", Simple(THROWABLE))], false), isSubtype)
      == NoMatch
    ensures Outcome(TryStmt([Resource(false, ClassType(Some(["java.io.IOException"])))], false, [CatchOf("t", Simple(THROWABLE))], false), isSubtype)
      == NoMatch
    ensures Outcome(TryStmt([], true, [CatchOf("e", Simple(EXCEPTION))], false), isSubtype) == NoMatch
  {
    var safe := Resource(false, ClassType(Some([])));
    var t := TryStmt([safe], false, [CatchOf("t", Simple(THROWABLE))], false);
    assert !ThrowsCheckedExceptions(t);
    assert FirstBroad(t.catches) == Some(0);
    assert CaughtBefore(t.catches, 0) == [];
    assert Deduplicated([ERROR], [], isSubtype) == [ERROR];
    assert Deduplicated(THROWABLE_REPLACEMENTS, [], isSubtype) == THROWABLE_REPLACEMENTS;
    var closing := Resource(false, ClassType(Some(["java.io.IOException"])));
    assert ThrowsCheckedExceptions(TryStmt([closing], false, [CatchOf("t", Simple(THROWABLE))], false)) by {
      assert closing in [closing];
    }
    var creating := Resource(true, ClassType(Some([])));
    assert ThrowsCheckedExceptions(TryStmt([creating], false, [CatchOf("t", Simple(THROWABLE))], false)) by {
      assert creating in [creating];
    }
  }
}
