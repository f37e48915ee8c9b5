/**
 * `handleSharingErrors` of web/apps/photos/src/components/Collections/CollectionShare.tsx:
 * the message shown for a failed sharing call. `parseSharingErrorCodes` and
 * the `CustomError` constants are not part of this model; a parsed error is
 * one of the three codes the switch names or some other message.
 */
module SharingErrors {

  datatype ParsedError =
    | BadRequest            // CustomError.BAD_REQUEST
    | SubscriptionNeeded    // CustomError.SUBSCRIPTION_NEEDED
    | NotFound              // CustomError.NOT_FOUND
    | Other(message: string)

  /** The messages of the drawer, by their translation keys. */
  datatype Message =
    | SharingWithSelf
    | SharingAlreadyShared(email: string)
    | SharingAlbumNotAllowed
    | SharingDisabledForFreeAccounts
    | SharingUserDoesNotExist
    | GenericErrorRetry(detail: string)   // "generic_error_retry" followed by the parsed message
    | CanNotBeEmpty                       // the password field's "can not be empty"

  /**
   * `handleSharingErrors`: each known code has its own message, and only an
   * unknown error falls back to the generic retry text, which carries it.
   */
  function HandleSharingErrors(e: ParsedError): (m: Message)
    ensures m.GenericErrorRetry? <==> e.Other?
    ensures e.Other? ==> m.detail == e.message
    ensures m.SharingAlbumNotAllowed? <==> e.BadRequest?
    ensures m.SharingDisabledForFreeAccounts? <==> e.SubscriptionNeeded?
    ensures m.SharingUserDoesNotExist? <==> e.NotFound?
  {
    match e
    case BadRequest => SharingAlbumNotAllowed
    case SubscriptionNeeded => SharingDisabledForFreeAccounts
    case NotFound => SharingUserDoesNotExist
    case Other(message) => GenericErrorRetry(message)
  }

  /** Different errors give different messages, so the message identifies the error. */
  lemma HandleSharingErrorsInjective(e1: ParsedError, e2: ParsedError)
    requires HandleSharingErrors(e1) == HandleSharingErrors(e2)
    ensures e1 == e2
  {
  }
}
