/** Failure-carrying wrappers shared by every component of the binding engine,
    and the taxonomy of errors the engine throws. */
module Wrappers {

  datatype Option<T> = None | Some(value: T)

  /** The exceptions the engine raises. Each constructor names the throw site it stands for. */
  datatype Error =
    | ImmutableViolation      // write or delete through the read-only state view, or delete on the store
    | InvalidKey              // Module.setState with a non-string key
    | NotCallable             // a listener, handler or callback that is not a function
    | DuplicateBinding        // (element, eventName) already bound
    | MissingBinding          // detaching an (element, eventName) pair that is not bound
    | TypeMismatch            // a target that is not an HTMLElement
    | InvalidName             // an event name that is not a non-empty, non-blank string
    | UnknownOperator         // "Invalid operator used in the directive."
    | ChainHardStop(handler: string)   // the `#` operator on an invalid result
    | MinimumOneHandler       // a control directive without a first handler
    | NotAsync(handler: string)        // the `@` operator on a handler that is not an AsyncFunction
    | AbstractModule          // constructing Module itself
    | MissingInitializeModule // a subclass of Module without initializeModule
    | AlreadyRegistered(name: string)
    | NotRegistered(name: string)
    | InvalidInitialState     // "Initial state must be an object."
    | InvalidState            // ModuleControl given something without getState
    | InvalidArgument         // the injection helpers' argument checks
    | TypeError               // a TypeError the JavaScript runtime itself raises
    | RangeError              // a RangeError the JavaScript runtime itself raises
    | SyntaxError             // a SyntaxError DOMException (a dataset key with `-` before a lowercase letter)
    | InvalidCharacterError   // an InvalidCharacterError DOMException (a dataset key naming no valid attribute)

  datatype Result<T> = Ok(value: T) | Err(error: Error)

  datatype Outcome = Pass | Fail(error: Error)
}
