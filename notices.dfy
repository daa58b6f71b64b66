/** What a page tells the user after an action: a toast, and where it navigates. */
module Notices {
  import opened Wrappers

  /** An error or a success toast with its text. */
  datatype Toast = ToastError(text: string) | ToastSuccess(text: string)

  /**
   * The visible result of a handler: whether it called the backend, the toast it
   * showed, the route it navigated to, if any.
   */
  datatype Reaction = Reaction(called: bool, toast: Toast, navigate: Option<string>)
}
