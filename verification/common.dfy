/** Identities and the exception-carrying completion type shared by every module.

    Every engine operation returns the state it leaves behind together with a
    completion: the source's exceptions never roll back state that was already
    changed, so a thrown error travels with the post-state, not instead of it.
 */
module Common {

  /** Abstract identity of a host node (element, document or other node). */
  type NodeId = nat

  /** Abstract identity of an application constructor function. */
  type CtorId = nat

  /** Abstract identity of an application lifecycle callback function. */
  type FnId = nat

  /** Abstract identity of a promise handed out by `whenDefined`. */
  type PromiseId = nat

  datatype Option<+T> = None | Some(value: T)

  /** The exceptions the engine throws, one per `throw` site of the source. */
  datatype Exception =
    // define
    | NotAConstructor          // TypeError: constructor is not a constructor
    | InvalidName              // SyntaxError: the element name is not valid
    | DuplicateName            // an element with this name is already defined
    | DuplicateConstructor     // this constructor is already registered
    | ExtendsCustomName        // extends must be a native element
    | PrototypeNotObject       // TypeError: constructor.prototype must be an object
    | PrototypeNull            // TypeError: reading a callback off a null prototype
    // element constructor
    | NoDefinitionForConstructor   // no definition found for element
    | AutonomousNotHtmlElement     // TypeError: autonomous element must inherit from HTMLElement
    | AlreadyConstructed           // nested construction before calling super()
    // upgrade
    | IdentityMismatch         // the constructor returned another object
    // reactions: `definition.lifecycleCallbacks` read off an undefined definition
    | MissingDefinition
    // createElement
    | NoDefinitionForElement
    // TypeError: `push` read off the missing construction stack of an
    // object that is not a definition
    | NoConstructionStack
    // anything the application's own constructor code throws
    | AppError(code: nat)

  /** How a call ended: it returned a value, or it threw. */
  datatype Completion<+T> = Normal(value: T) | Throw(error: Exception)
}
