/** The Interruption checker. Catch clauses that cannot catch an `InterruptedException`
    are passed by; an unclassifiable one ends the search with no finding. The first
    catch that can catch one decides: when its block is non-empty and ends with a
    `throw`, it does not call `interrupt()` and no comment of the try says "interruption
    reset", the fix inserts `Thread.currentThread().interrupt();` (guarded by an
    `instanceof` test when the caught type is a supertype) before its first statement;
    otherwise there is no finding. */
module Interruption {
  import opened JavaTrees

  /** How a catch type relates to `InterruptedException`. */
  datatype InterruptedCatchType =
    | DoesNotMatch
    | InterruptedSubtype    // InterruptedException or one of its subtypes
    | InterruptedSupertype  // a type that also catches an InterruptedException, such as Exception

  /** The checker's verdict on one try statement: PrefixFix inserts `text` before
      `statement`, the first statement of the catch clause at catchIndex. */
  datatype Finding =
    | NoMatch
    | PrefixFix(catchIndex: nat, statement: Statement, text: string)

  const INTERRUPTED: CatchType := Simple(INTERRUPTED_EXCEPTION)
  const INTERRUPT_CALL: string := "Thread.currentThread().interrupt();"

  // ---------------------------------------------------------------------------
  // Classification of catch types

  /** Whether a catch of this kind can swallow an interruption. */
  predicate Matches(kind: InterruptedCatchType)
  {
    kind != DoesNotMatch
  }

  /** The statement text that restores the interrupt flag in a catch clause whose
      parameter is called paramName. */
  function GetFix(kind: InterruptedCatchType, paramName: string): (fix: string)
    requires Matches(kind)
    ensures |fix| > 0 && fix[|fix| - 1] == '\n'
    ensures kind == InterruptedSubtype ==> fix == INTERRUPT_CALL + "\n"
    ensures kind == InterruptedSupertype ==>
      fix == "if (" + paramName + " instanceof InterruptedException) { " + INTERRUPT_CALL + " }\n"
  {
    match kind
    case InterruptedSubtype => INTERRUPT_CALL + "\n"
    case InterruptedSupertype =>
      "if (" + paramName + " instanceof InterruptedException) { " + INTERRUPT_CALL + " }\n"
  }

  /** Classifies a catch type against `InterruptedException`. A union that
      `InterruptedException` is assignable to is classified through its alternatives;
      None means that it cannot be classified. */
  function GetCatchType(t: CatchType, isAssignable: TypeRelation): (r: Option<InterruptedCatchType>)
    decreases t, 1
    ensures isAssignable(t, INTERRUPTED) ==> r == Some(InterruptedSubtype)
    ensures !isAssignable(t, INTERRUPTED) && !isAssignable(INTERRUPTED, t) ==> r == Some(DoesNotMatch)
    ensures !isAssignable(t, INTERRUPTED) && isAssignable(INTERRUPTED, t) && !t.Union? ==>
      r == Some(InterruptedSupertype)
    ensures r.None? ==> t.Union? && isAssignable(INTERRUPTED, t)
  {
    if isAssignable(t, INTERRUPTED) then Some(InterruptedSubtype)
    else if isAssignable(INTERRUPTED, t) then
      if !t.Union? then Some(InterruptedSupertype)
      else if exists i :: 0 <= i < |t.alternatives| && t.alternatives[i] == Unknown then None
      else
        match ClassifyAll(t.alternatives, isAssignable)
        case None => None
        case Some(kinds) => Some(Combine(kinds))
    else Some(DoesNotMatch)
  }

  /** The classifications of all alternatives of a union, or None if one of them
      cannot be classified. */
  function ClassifyAll(alternatives: seq<CatchType>, isAssignable: TypeRelation): (r: Option<seq<InterruptedCatchType>>)
    decreases alternatives, 0
    ensures r.Some? ==> |r.value| == |alternatives|
    ensures r.Some? ==>
      forall i :: 0 <= i < |alternatives| ==> GetCatchType(alternatives[i], isAssignable) == Some(r.value[i])
    ensures r.None? ==> exists i :: 0 <= i < |alternatives| && GetCatchType(alternatives[i], isAssignable).None?
  {
    if alternatives == [] then Some([])
    else match GetCatchType(alternatives[0], isAssignable)
      case None => None
      case Some(kind) =>
        match ClassifyAll(alternatives[1..], isAssignable)
        case None => None
        case Some(kinds) => Some([kind] + kinds)
  }

  /** The classification of a union from those of its alternatives: the one they all
      share, or InterruptedSupertype when they differ (or there are none). */
  function Combine(kinds: seq<InterruptedCatchType>): (kind: InterruptedCatchType)
  {
    if |kinds| > 0 && forall i :: 0 <= i < |kinds| ==> kinds[i] == kinds[0] then kinds[0]
    else InterruptedSupertype
  }

  // ---------------------------------------------------------------------------
  // The checker

  /** Whether the classification of the catch at index j lets the search pass it by. */
  predicate Skipped(t: TryStmt, isAssignable: TypeRelation, j: nat)
    requires j < |t.catches|
  {
    GetCatchType(t.catches[j].paramType, isAssignable) == Some(DoesNotMatch)
  }

  /** A matching catch clause gets a fix when it does not already call `interrupt()`,
      no comment of the try says "interruption reset", and its block is non-empty and
      ends with a `throw`. */
  predicate Fixable(t: TryStmt, i: nat)
    requires i < |t.catches|
  {
    var c := t.catches[i];
    !c.containsInterrupt && !t.hasInterruptionResetComment
    && |c.statements| > 0 && c.statements[|c.statements| - 1].isThrow
  }

  /** The search over the catch clauses from index k on: an unclassifiable catch ends it
      without a finding, a catch that does not match is passed by, and the first
      matching catch decides. */
  function MatchFrom(t: TryStmt, isAssignable: TypeRelation, k: nat): (f: Finding)
    requires k <= |t.catches|
    decreases |t.catches| - k
  {
    if k == |t.catches| then NoMatch
    else
      var c := t.catches[k];
      match GetCatchType(c.paramType, isAssignable)
      case None => NoMatch
      case Some(kind) =>
        if !Matches(kind) then MatchFrom(t, isAssignable, k + 1)
        else if c.containsInterrupt then NoMatch
        else if t.hasInterruptionResetComment then NoMatch
        else if |c.statements| > 0 && c.statements[|c.statements| - 1].isThrow then
          PrefixFix(k, c.statements[0], GetFix(kind, c.paramName))
        else NoMatch
  }

  /** The checker's verdict on a try statement. */
  function MatchTry(t: TryStmt, isAssignable: TypeRelation): (f: Finding)
  {
    MatchFrom(t, isAssignable, 0)
  }

  /** The index of the first catch clause from k on that is not passed by, if any. */
  function FirstDecisiveFrom(t: TryStmt, isAssignable: TypeRelation, k: nat): (r: Option<nat>)
    requires k <= |t.catches|
    decreases |t.catches| - k
    ensures r.Some? ==> k <= r.value < |t.catches| && !Skipped(t, isAssignable, r.value)
    ensures r.Some? ==> forall j :: k <= j < r.value ==> Skipped(t, isAssignable, j)
    ensures r.None? <==> forall j :: k <= j < |t.catches| ==> Skipped(t, isAssignable, j)
  {
    if k == |t.catches| then None
    else if !Skipped(t, isAssignable, k) then Some(k)
    else FirstDecisiveFrom(t, isAssignable, k + 1)
  }

  // ---------------------------------------------------------------------------
  // Properties

  /** `matches()` holds of exactly the two interrupted kinds. */
  lemma MatchesExactlyInterruptedKinds(kind: InterruptedCatchType)
    ensures Matches(kind) <==> kind == InterruptedSubtype || kind == InterruptedSupertype
  {
  }

  /** The supertype fix is the subtype fix's call wrapped in an `instanceof` guard on the
      catch parameter, and both fixes contain the call. */
  lemma SupertypeFixGuardsSubtypeFix(paramName: string)
    ensures var call := GetFix(InterruptedSubtype, paramName);
      GetFix(InterruptedSupertype, paramName)
        == "if (" + paramName + " instanceof InterruptedException) { " + call[..|call| - 1] + " }\n"
  {
    var call := GetFix(InterruptedSubtype, paramName);
    assert call[..|call| - 1] == INTERRUPT_CALL;
  }

  /** Combine computes what the source gets from the set of distinct classifications: its
      only element when there is exactly one, InterruptedSupertype otherwise. */
  lemma CombineAgreesWithUniqueKinds(kinds: seq<InterruptedCatchType>)
    ensures var unique := set i | 0 <= i < |kinds| :: kinds[i];
      (|unique| == 1 ==> unique == {Combine(kinds)})
      && (|unique| != 1 ==> Combine(kinds) == InterruptedSupertype)
  {
    var unique := set i | 0 <= i < |kinds| :: kinds[i];
    if |kinds| > 0 {
      if forall i :: 0 <= i < |kinds| ==> kinds[i] == kinds[0] {
        assert unique == {kinds[0]};
      } else {
        var i :| 0 <= i < |kinds| && kinds[i] != kinds[0];
        assert {kinds[0], kinds[i]} <= unique;
        assert |{kinds[0], kinds[i]}| == 2;
        SubsetCardinality({kinds[0], kinds[i]}, unique);
      }
    } else {
      assert unique == {};
    }
  }

  lemma SubsetCardinality<T>(a: set<T>, b: set<T>)
    requires a <= b
    ensures |a| <= |b|
  {
    assert b == a + (b - a);
  }

  /** A union that `InterruptedException` is assignable to (and that is not itself
      assignable to it) cannot be classified exactly when an alternative is not a type or
      cannot be classified; when all alternatives agree the union gets their
      classification, and otherwise InterruptedSupertype. */
  lemma UnionClassification(alternatives: seq<CatchType>, isAssignable: TypeRelation)
    requires !isAssignable(Union(alternatives), INTERRUPTED) && isAssignable(INTERRUPTED, Union(alternatives))
    ensures GetCatchType(Union(alternatives), isAssignable).None? <==>
      (exists i :: 0 <= i < |alternatives| && alternatives[i] == Unknown)
      || (exists i :: 0 <= i < |alternatives| && GetCatchType(alternatives[i], isAssignable).None?)
    ensures forall kind ::
      (&& |alternatives| > 0
       && (forall i :: 0 <= i < |alternatives| ==> alternatives[i] != Unknown)
       && (forall i :: 0 <= i < |alternatives| ==> GetCatchType(alternatives[i], isAssignable) == Some(kind)))
      ==> GetCatchType(Union(alternatives), isAssignable) == Some(kind)
    ensures (&& (forall i :: 0 <= i < |alternatives| ==> alternatives[i] != Unknown)
             && (forall i :: 0 <= i < |alternatives| ==> GetCatchType(alternatives[i], isAssignable).Some?)
             && (exists i, j :: 0 <= i < |alternatives| && 0 <= j < |alternatives|
                  && GetCatchType(alternatives[i], isAssignable) != GetCatchType(alternatives[j], isAssignable)))
      ==> GetCatchType(Union(alternatives), isAssignable) == Some(InterruptedSupertype)
    ensures alternatives == [] ==> GetCatchType(Union(alternatives), isAssignable) == Some(InterruptedSupertype)
  {
  }

  /** The search from k ends at the first catch from k on that is not passed by: no
      finding if there is none or it cannot be classified, else that catch's verdict. */
  lemma {:induction false} MatchFromStopsAtFirstDecisive(t: TryStmt, isAssignable: TypeRelation, k: nat)
    requires k <= |t.catches|
    decreases |t.catches| - k
    ensures FirstDecisiveFrom(t, isAssignable, k).None? ==> MatchFrom(t, isAssignable, k) == NoMatch
    ensures FirstDecisiveFrom(t, isAssignable, k).Some? ==>
      MatchFrom(t, isAssignable, k) == MatchFrom(t, isAssignable, FirstDecisiveFrom(t, isAssignable, k).value)
  {
    if k < |t.catches| && Skipped(t, isAssignable, k) {
      MatchFromStopsAtFirstDecisive(t, isAssignable, k + 1);
    }
  }

  /** The checker reports a fix exactly when the first catch clause that is not passed by
      can be classified, matches, and is fixable; the fix is that catch's `getFix` text,
      placed before its first statement. In particular a try whose catches all do not
      match, or whose first non-passed catch cannot be classified, gets no finding. */
  lemma MatchTryDecidedByFirstMatchingCatch(t: TryStmt, isAssignable: TypeRelation)
    ensures MatchTry(t, isAssignable) != NoMatch <==>
      && FirstDecisiveFrom(t, isAssignable, 0).Some?
      && var i := FirstDecisiveFrom(t, isAssignable, 0).value;
         GetCatchType(t.catches[i].paramType, isAssignable).Some? && Fixable(t, i)
    ensures MatchTry(t, isAssignable) != NoMatch ==>
      var f := MatchTry(t, isAssignable);
      && FirstDecisiveFrom(t, isAssignable, 0) == Some(f.catchIndex)
      && var c := t.catches[f.catchIndex];
         var kind := GetCatchType(c.paramType, isAssignable);
         && kind.Some? && Matches(kind.value)
         && f.statement == c.statements[0]
         && f.text == GetFix(kind.value, c.paramName)
  {
    MatchFromStopsAtFirstDecisive(t, isAssignable, 0);
  }

  // ---------------------------------------------------------------------------
  // Examples

  /** `catch (InterruptedException e) { throw new RuntimeException(e); }` gets the plain
      interrupt call; `catch (Exception e)` rethrowing gets it guarded by `instanceof`. */
  lemma RethrowingCatchesAreFixed(isAssignable: TypeRelation)
    requires isAssignable(INTERRUPTED, INTERRUPTED)
    requires !isAssignable(Simple(EXCEPTION), INTERRUPTED) && isAssignable(INTERRUPTED, Simple(EXCEPTION))
    ensures var rethrow := Statement(true, "throw new RuntimeException(e);");
      MatchTry(TryStmt([], false, [CatchClause("e", INTERRUPTED, false, [rethrow])], false), isAssignable)
        == PrefixFix(0, rethrow, "Thread.currentThread().interrupt();\n")
    ensures var rethrow := Statement(true, "throw new RuntimeException(e);");
      MatchTry(TryStmt([], false, [CatchClause("e", Simple(EXCEPTION), false, [rethrow])], false), isAssignable)
        == PrefixFix(0, rethrow, "if (" + "e" + " instanceof InterruptedException) { " + INTERRUPT_CALL + " }\n")
  {
    var rethrow := Statement(true, "throw new RuntimeException(e);");
    var t1 := TryStmt([], false, [CatchClause("e", INTERRUPTED, false, [rethrow])], false);
    var t2 := TryStmt([], false, [CatchClause("e", Simple(EXCEPTION), false, [rethrow])], false);
    assert GetCatchType(t1.catches[0].paramType, isAssignable) == Some(InterruptedSubtype);
    assert GetCatchType(t2.catches[0].paramType, isAssignable) == Some(InterruptedSupertype);
    assert MatchFrom(t1, isAssignable, 0) == PrefixFix(0, rethrow, GetFix(InterruptedSubtype, "e"));
    assert MatchFrom(t2, isAssignable, 0) == PrefixFix(0, rethrow, GetFix(InterruptedSupertype, "e"));
  }
}
