/** The status codes of `amqp_status_enum` that the modelled functions return. */
module Statuses {
  datatype Status =
    | Ok
    | NoMemory
    | BadAmqpData
    | UnknownClass
    | UnknownMethod
    | ConnectionClosed
    | BadUrl
    | SocketError
    | InvalidParameter
    | TableTooBig
    | Timeout
    | HeartbeatTimeout
    | UnexpectedState
}
