/**
 * The sign-in page: how a sign-in error is turned into a message, and the guard
 * in front of a password-reset request.
 */
module Auth {
  import opened Wrappers
  import opened Text
  import opened Notices

  const InvalidCredentials: string := "Invalid login credentials"
  const NotConfirmed: string := "Email not confirmed"

  /** How `signIn` answers: success, an error with its message, or a thrown exception. */
  datatype SignInAnswer = SignedIn | SignInError(message: string) | SignInThrew

  /**
   * The message for a sign-in error: wrong credentials first, then an unconfirmed
   * email, and otherwise the backend's own message after a fixed prefix.
   */
  function SignInErrorText(message: string): (t: string)
    ensures Contains(message, InvalidCredentials) ==> t == "Email ou password incorretos"
    ensures !Contains(message, InvalidCredentials) && Contains(message, NotConfirmed) ==>
              t == "Por favor, verifique o email antes de fazer login"
    ensures !Contains(message, InvalidCredentials) && !Contains(message, NotConfirmed) ==>
              t == "Erro ao fazer login: " + message
  {
    if Contains(message, InvalidCredentials) then "Email ou password incorretos"
    else if Contains(message, NotConfirmed) then "Por favor, verifique o email antes de fazer login"
    else "Erro ao fazer login: " + message
  }

  /** `handleSignIn`: an error becomes an error toast; success a notice and the home page. */
  function HandleSignIn(answer: SignInAnswer): (r: Reaction)
    ensures r.called
    ensures r.navigate.Some? <==> answer == SignedIn
    ensures answer == SignedIn ==> r == Reaction(true, ToastSuccess("Login realizado com sucesso!"), Some("/"))
    ensures answer.SignInError? ==> r.toast == ToastError(SignInErrorText(answer.message))
    ensures answer == SignInThrew ==> r.toast == ToastError("Erro inesperado ao fazer login")
  {
    match answer
    case SignedIn => Reaction(true, ToastSuccess("Login realizado com sucesso!"), Some("/"))
    case SignInError(message) => Reaction(true, ToastError(SignInErrorText(message)), None)
    case SignInThrew => Reaction(true, ToastError("Erro inesperado ao fazer login"), None)
  }

  /**
   * The credentials test comes first: an error that names both an invalid login
   * and an unconfirmed email is reported as an invalid login.
   */
  lemma CredentialsTestTakesPrecedence()
    ensures var m := "Invalid login credentials; Email not confirmed";
      && Contains(m, NotConfirmed)
      && SignInErrorText(m) == "Email ou password incorretos"
  {
    var m := "Invalid login credentials; Email not confirmed";
    assert m[..|InvalidCredentials|] == InvalidCredentials;
    assert OccursAt(m, NotConfirmed, 27);
    OccursContains(m, NotConfirmed, 27);
  }

  /** An error message that names neither case is shown in full after the prefix. */
  lemma OtherErrorsKeepBackendText(message: string)
    requires !Contains(message, InvalidCredentials) && !Contains(message, NotConfirmed)
    ensures var t := SignInErrorText(message);
      |t| == |"Erro ao fazer login: "| + |message| && t[|t| - |message|..] == message
  {
  }

  /** How `resetPassword` answers. */
  datatype ResetAnswer = ResetSent | ResetError(message: string) | ResetThrew

  /** `handleResetPassword`: with no email the request is refused before anything is sent. */
  function RequestReset(email: string, answer: ResetAnswer): (r: Reaction)
    ensures r.called <==> email != ""
    ensures email == "" ==> r.toast == ToastError("Por favor, insira o seu email primeiro")
    ensures r.navigate.None?
    ensures r.toast.ToastSuccess? <==> email != "" && answer == ResetSent
  {
    if email == "" then Reaction(false, ToastError("Por favor, insira o seu email primeiro"), None)
    else
      match answer
      case ResetSent =>
        Reaction(true, ToastSuccess("Email de recuperação enviado! Verifique a sua caixa de entrada."), None)
      case ResetError(message) => Reaction(true, ToastError("Erro ao enviar email de recuperação: " + message), None)
      case ResetThrew => Reaction(true, ToastError("Erro inesperado ao enviar email de recuperação"), None)
  }
}
