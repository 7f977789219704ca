/** The exceptions the core throws, as values. */
module Errors {
  import opened Wrappers
  import opened XmlTree

  /** The message of a `JRunXmlException`. */
  datatype XmlProblem =
    | AddedTwice                               // "Attempted to add a node's macros twice"
    | DefineWithoutName                        // "Define nodes must have a name"
    | DefineWithoutValue                       // "Define nodes must have a value"
    | AttributeNotExpanded(attribName: string) // "Could not expand macro value for attribute ..."
    | PropertyNotExpanded(propertyName: string)// "Could not expand macro value for property ..."
    | NoExecutablePath                         // "No executable path was specified"
    | TemplateNotFound(templateName: string)   // "Could not find template ..."

  datatype Error =
    /** `JRunXmlException`: a problem located at a node, possibly wrapping a cause. */
    | XmlError(node: NodeId, problem: XmlProblem, inner: Option<Error>)
    /** `JException` "Macro ... is undefined". */
    | UndefinedMacro(macroName: string)
    /** `JInvalidOperationException` from assigning a finalized macro value. */
    | MacroFinalized
    /** `JArgumentNullException`. */
    | ArgumentNull(paramName: string)
    /** `JArgumentEmptyException`. */
    | ArgumentEmpty(paramName: string)
    /** The `NullReferenceException` of looking a macro up in a collection that never received a Define. */
    | NullReference
    /** Recursion deeper than the model's fuel: where the source would keep recursing. */
    | OutOfFuel
    /** `JException` "Could not start process ...". */
    | ProcessStartFailed(executable: string)
    /** `JRunException` "Error parsing XML Node ...", carrying the dotted node path. */
    | RunError(nodePath: string, cause: Error)
    /** `JException` "Could not execute shortcut ... for profile ... in xml file ...". */
    | ShortcutFailed(shortcut: string, profile: string, file: string, cause: Error)
    /** `JException` "Could not get all shortcut names for profile ... in xml file ...". */
    | NamesFailed(profile: string, file: string, cause: Error)
    /** What `XmlDocument.Load` throws when the file cannot be read or parsed. */
    | LoadFailed(file: string)

  type Res<T> = Result<T, Error>
}
