/** The error codes of the library that the modelled calls return. */
module Status {
  datatype Status =
    | Ok
    | BadParam
    | NoCtx
    | Terminus
    | CipherFail
    | AuthFail
    | ReplayFail
    | ReplayOld
    | KeyExpired
}
