/** The exception hierarchy of book-loader (every class derives from
    BookLoaderError), plus the foreign exceptions the core lets through. */
module Errors {

  datatype Error =
    | AuthorizationError(reason: string)
    | ACSMFulfillmentError(reason: string)
    | DRMRemovalError(reason: string)
    | CalibreNotFoundError(reason: string)
    | WorkflowError(reason: string)
    | KoboLibraryNotFoundError(reason: string)
    | KoboDecryptionError(reason: string)
      /** `ValueError`, raised by the conversion engine on an unknown name */
    | ValueError(reason: string)
      /** any exception from a library the core does not define */
    | Foreign(reason: string)
}
