/**
 * The page that sets a new password from a recovery link: how the link's
 * parameters are validated, and the validations done before the password update is requested.
 */
module ResetPassword {
  import opened Wrappers
  import opened Notices

  const MinPasswordLength: nat := 6

  /**
   * JavaScript's `s.length`: the number of UTF-16 code units, so a character
   * outside the Basic Multilingual Plane counts twice.
   */
  function Utf16Length(s: string): (n: nat)
    ensures |s| <= n <= 2 * |s|
    ensures (forall i :: 0 <= i < |s| ==> s[i] <= '\U{FFFF}') ==> n == |s|
  {
    if s == [] then 0
    else Utf16Length(s[..|s| - 1]) + (if s[|s| - 1] <= '\U{FFFF}' then 1 else 2)
  }

  /** `URLSearchParams.get`: the value of a parameter, or null when it is absent. */
  type Param = Option<string>

  /** JavaScript's `!x` on a parameter: absent or empty. */
  predicate Missing(p: Param) {
    p.None? || p.value == ""
  }

  /**
   * The recovery-link check: the link is refused, with a toast and a redirect to
   * the sign-in page, when it carries neither an access token nor a token hash and
   * its type is not "recovery".
   */
  function CheckRecoveryLink(accessToken: Param, tokenHash: Param, linkType: Param): (r: Option<Reaction>)
    ensures r.None? <==> !Missing(accessToken) || !Missing(tokenHash) || linkType == Some("recovery")
    ensures r.Some? ==> r.value == Reaction(false, ToastError("Link de recuperação inválido ou expirado"), Some("/auth"))
  {
    if Missing(accessToken) && Missing(tokenHash) && linkType != Some("recovery") then
      Some(Reaction(false, ToastError("Link de recuperação inválido ou expirado"), Some("/auth")))
    else None
  }

  /** How the backend answers `updateUser`: success, an error with a message, or a thrown exception. */
  datatype UpdateAnswer = UpdateOk | UpdateError(message: string) | UpdateThrew

  /** A reaction together with the loading flag after the handler. */
  datatype ResetAttempt = ResetAttempt(reaction: Reaction, loading: bool)

  /**
   * `handleResetPassword`: the passwords must match, then be at least six code
   * units long; only then is the update requested, under the loading flag.
   */
  function HandleResetPassword(password: string, confirm: string, answer: UpdateAnswer, loading: bool)
    : (r: ResetAttempt)
    ensures r.reaction.called <==> password == confirm && Utf16Length(password) >= MinPasswordLength
    ensures password != confirm ==> r.reaction.toast == ToastError("As passwords não coincidem")
    ensures password == confirm && Utf16Length(password) < MinPasswordLength ==>
              r.reaction.toast == ToastError("A password deve ter pelo menos 6 caracteres")
    ensures r.reaction.navigate.Some? <==> r.reaction.called && answer == UpdateOk
    ensures r.reaction.navigate.Some? ==> r.reaction.navigate == Some("/")
    ensures r.reaction.called ==> !r.loading
    ensures !r.reaction.called ==> r.loading == loading
  {
    if password != confirm then
      ResetAttempt(Reaction(false, ToastError("As passwords não coincidem"), None), loading)
    else if Utf16Length(password) < MinPasswordLength then
      ResetAttempt(Reaction(false, ToastError("A password deve ter pelo menos 6 caracteres"), None), loading)
    else
      match answer
      case UpdateError(message) =>
        ResetAttempt(Reaction(true, ToastError("Erro ao redefinir password: " + message), None), false)
      case UpdateOk =>
        ResetAttempt(Reaction(true, ToastSuccess("Password redefinida com sucesso!"), Some("/")), false)
      case UpdateThrew =>
        ResetAttempt(Reaction(true, ToastError("Erro inesperado ao redefinir password"), None), false)
  }

  /** Starting from an idle page, the loading flag is off again after every attempt. */
  lemma LoadingClearedAfterAttempt(password: string, confirm: string, answer: UpdateAnswer)
    ensures !HandleResetPassword(password, confirm, answer, false).loading
  {
  }

  /** A success toast is shown exactly when the update was requested and succeeded. */
  lemma SuccessOnlyAfterUpdate(password: string, confirm: string, answer: UpdateAnswer, loading: bool)
    ensures HandleResetPassword(password, confirm, answer, loading).reaction.toast.ToastSuccess?
        <==> password == confirm && Utf16Length(password) >= MinPasswordLength && answer == UpdateOk
  {
  }

  /**
   * Six characters are not always enough: five characters one of which lies outside
   * the Basic Multilingual Plane already make a length of six.
   */
  lemma LengthCountsCodeUnits()
    ensures var p := "abcd\U{1F600}";
      && |p| == 5
      && HandleResetPassword(p, p, UpdateOk, false).reaction.called
  {
    var p := "abcd\U{1F600}";
    assert p[..4] == "abcd";
    assert p[..4][..3] == "abc";
    assert p[..4][..3][..2] == "ab";
    assert p[..4][..3][..2][..1] == "a";
    assert Utf16Length(p) == 6;
  }
}
