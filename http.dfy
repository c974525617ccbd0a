/** What a handler hands back to the web framework: a JSON body or an
    HTTP error for the JSON API, a rendered template, a redirect (with what
    it does to the `user_id` cookie) or an HTTP error for the form pages. */
module Http {
  import opened Wrappers

  const SeeOther := 303
  const NotFound := 404

  const LoginUrl := "/auth/login.html"
  const TodosUrl := "/todos/html"

  const ToDoNotFound := "ToDo not found"

  /** The effect of a response on the client's `user_id` cookie. */
  datatype CookieAction =
    | KeepCookie
    | SetUserId(userId: int, maxAge: Option<int>)
    | DeleteUserId

  datatype Page =
    | Render(template: string, error: Option<string>)
    | Redirect(url: string, status: int, cookie: CookieAction)
    | PageError(status: int, detail: string)

  datatype Api<T> =
    | Json(body: T)
    | JsonError(status: int, detail: string)

  /** The body `{"detail": ...}` of a JSON delete. */
  datatype Detail = Detail(detail: string)
}
