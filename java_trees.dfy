/** The slice of javac's syntax trees and types that the two try/catch checkers
    look at. Everything javac computes (types, thrown checked exceptions, comment
    scanning, method matching) is reduced to plain values and oracle parameters. */
module JavaTrees {

  /** A fully qualified Java type name, as `Class.getName()` gives it. */
  type TypeName = string

  const EXCEPTION: TypeName := "java.lang.Exception"
  const THROWABLE: TypeName := "java.lang.Throwable"
  const RUNTIME_EXCEPTION: TypeName := "java.lang.RuntimeException"
  const ERROR: TypeName := "java.lang.Error"
  const INTERRUPTED_EXCEPTION: TypeName := "java.lang.InterruptedException"

  datatype Option<T> = None | Some(value: T)

  /** The type javac attributes to a catch parameter.
      Simple: a class type, identified by its name.
      Union: a multi-catch type `A | B`, with its alternatives in source order.
      Unknown: no type (`ASTHelpers.getType` returned null) or, as a union
      alternative, a type mirror that is not a javac `Type`. */
  datatype CatchType = Simple(name: TypeName) | Union(alternatives: seq<CatchType>) | Unknown

  /** A relation between types computed by javac (`Types.isSubtype`,
      `Types.isAssignable`); it is a parameter of every check that consults it. */
  type TypeRelation = (CatchType, CatchType) -> bool

  /** What javac knows about the declared type of a try-with-resources resource. */
  datatype ResourceType =
    | Untyped                                      // the resource has no attributed type
    | NotAClass                                    // its type symbol is not a class symbol
    | ClassType(closeThrows: Option<seq<TypeName>>) // thrown types of its `close` method, if one is found

  /** A resource of a try-with-resources statement. `initializerThrowsChecked` says
      whether evaluating the resource declaration throws any checked exception. */
  datatype Resource = Resource(initializerThrowsChecked: bool, rtype: ResourceType)

  /** A statement of a catch block: whether it is a `throw` statement, and its text. */
  datatype Statement = Statement(isThrow: bool, text: string)

  /** A catch clause: its parameter's name and type, whether its body contains a
      call of `Thread.interrupt()`, and the statements of its block. */
  datatype CatchClause = CatchClause(
    paramName: string,
    paramType: CatchType,
    containsInterrupt: bool,
    statements: seq<Statement>)

  /** A try statement: its resources, whether its block throws any checked exception,
      its catch clauses in source order, and whether a comment in its source text
      contains "interruption reset". */
  datatype TryStmt = TryStmt(
    resources: seq<Resource>,
    blockThrowsChecked: bool,
    catches: seq<CatchClause>,
    hasInterruptionResetComment: bool)
}
