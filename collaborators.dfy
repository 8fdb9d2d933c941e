/**
 * What the core consults but does not own: the project-wide symbol index,
 * Scope's type-name normalisers, the configuration flags, the output
 * collaborator's findings and the checks that are not part of this model.
 * All of them are parameters: the model claims nothing about them beyond
 * how the core uses their answers.
 */
module Collaborators {
  import opened Common
  import opened Ast
  import opened Scopes

  /** A function or method as the symbol index describes it. */
  datatype Callable = Callable(returnType: string, docBlockReturnType: string, refParams: seq<bool>)

  /** A class property as the symbol index describes it. */
  datatype Property = Property(typ: string)

  datatype Env = Env(
    /** SymbolTable::getAbstractedFunction */
    functionNamed: string -> Option<Callable>,
    /** SymbolTable::getAbstractedMethod(class, name) */
    methodNamed: (string, string) -> Option<Callable>,
    /** Util::findAbstractedMethodAndHostingClass: the method and the class declaring it */
    methodAndHost: (string, string) -> Option<(Callable, string)>,
    /** Util::findAbstractedProperty: the property and the class declaring it */
    propertyAndHost: (string, string) -> Option<(Property, string)>,
    /** SymbolTable::isDefined for global constants */
    isDefined: string -> bool,
    /** Scope::constFromName */
    constFromName: string -> string,
    /** Scope::constFromDocBlock(type, hostingClass, class) */
    constFromDocBlock: (string, string, string) -> string,
    /** Scope::constFromDocBlock(type) with its default arguments */
    constFromInlineDocBlock: string -> string,
    useDocBlockForReturnValues: bool,
    useDocBlockForProperties: bool,
    useDocBlockForInlineVars: bool,
    /** What a check outside this model reports when run on a node */
    externalCheck: (string, string, Node, Option<Node>, Option<VarView>) -> seq<Finding>)

  datatype ErrorKind = UnreachableCode | UnknownVariable | UnusedVariable | OtherKind(name: string)

  /** One call of the output collaborator's emitError. */
  datatype Finding = Finding(source: string, file: string, line: int, kind: ErrorKind, message: string)
}
