/** The messages the auth service throws and the exceptions that carry them
    (src/modules/auth/auth.service.ts, lines 11-18). */
module AuthErrors {

  const EmailOrPasswordIsIncorrect: string := "EMAIL_OR_PASSWORD_IS_INCORRECT"
  const EmailHasBeenLocked: string := "EMAIL_HAS_BEEN_LOCKED"
  /** Same literal as EmailOrPasswordIsIncorrect; the two differ only in the
      exception class that carries them. */
  const EmailOrPasswordIsNotMatch: string := "EMAIL_OR_PASSWORD_IS_INCORRECT"
  const EmailIsExist: string := "EMAIL_IS_EXIST"

  /** What login and register throw. `TypeError` stands for the runtime error
      JavaScript raises when a missing `failedLoginTime` is dereferenced. */
  datatype Exception =
    | Unauthorized(message: string)
    | BadRequest(message: string)
    | TypeError
}
