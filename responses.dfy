/**
 * What a view answers: a status code and either a value or an error. Errors
 * are the exceptions Django REST framework turns into responses, plus the
 * explicit 403 responses of the message endpoints.
 */
module Responses {

  /** Why a serializer rejected its input (each becomes a 400 response). */
  datatype Reason =
    | MissingRecipient   // `recipient` absent from the chat data
    | UnknownRecipient   // `recipient` names no user
    | SelfChat           // `recipient` is the requester
    | MissingChat        // a message saved without a chat
    | MissingText        // `text` absent from a full (PUT) update
    | BlankText          // `text` given but empty
    | UnknownUser        // `likes` or `dislikes` name a user that does not exist

  datatype Error =
    | ValidationError(reason: Reason)  // `serializers.ValidationError`
    | NotFound                         // `Http404` from a lookup
    | PermissionDenied                 // `rest_framework.exceptions.PermissionDenied`
    | Forbidden                        // an explicit `Response(status=403)`
    | ServerError                      // an unhandled exception inside a transaction

  const HTTP_200_OK := 200
  const HTTP_201_CREATED := 201
  const HTTP_204_NO_CONTENT := 204
  const HTTP_400_BAD_REQUEST := 400
  const HTTP_403_FORBIDDEN := 403
  const HTTP_404_NOT_FOUND := 404
  const HTTP_500_INTERNAL_SERVER_ERROR := 500

  /** The status code each error is answered with. */
  function StatusOf(e: Error): (code: int)
    ensures code == HTTP_400_BAD_REQUEST <==> e.ValidationError?
    ensures code == HTTP_403_FORBIDDEN <==> e.PermissionDenied? || e.Forbidden?
    ensures code == HTTP_404_NOT_FOUND <==> e.NotFound?
    ensures code == HTTP_500_INTERNAL_SERVER_ERROR <==> e.ServerError?
  {
    match e
    case ValidationError(_) => HTTP_400_BAD_REQUEST
    case NotFound => HTTP_404_NOT_FOUND
    case PermissionDenied => HTTP_403_FORBIDDEN
    case Forbidden => HTTP_403_FORBIDDEN
    case ServerError => HTTP_500_INTERNAL_SERVER_ERROR
  }
}
