/** The publish and delete actions of `src/app/write/hooks/use-publish.ts`. Each action is
    split at its `await`: the first half runs the gates and, if they pass, raises the
    store's `loading` flag and issues the request; the second half takes the request's
    outcome, lowers the flag whatever happened, and picks the toast. */
module Publish {
  import opened Wrappers

  datatype Mode = Create | Edit

  /** The part of the editor form the actions read. */
  datatype Form = Form(slug: string, title: string, md: string, summary: string, tags: seq<string>)

  datatype HttpMethod = Post | Put | Delete

  /** The JSON body of a publish request. */
  datatype PublishBody = PublishBody(slug: string, title: string, content: string, summary: string, tags: seq<string>, status: string)

  datatype Request = Request(verb: HttpMethod, url: string, body: Option<PublishBody>)

  /** How a request ended: `res.json()` (or the fetch) threw with a message, or a response
      arrived with its `ok` flag and the `error` field of its JSON. */
  datatype Outcome = Threw(message: string) | Answered(ok: bool, error: string)

  datatype Toast = Success(text: string) | Failure(text: string)

  const SignInFirst := "请先登录"
  const MissingFields := "请填写标题、slug 和内容"
  const MissingSlug := "缺少 slug，无法删除"
  const ArticlesPath := "/api/articles"

  /** `a || b` on strings. */
  function Or(a: string, b: string): (r: string)
    ensures a != [] ==> r == a
    ensures a == [] ==> r == b
  {
    if a != [] then a else b
  }

  /** The slug an edit addresses: `originalSlug || form.slug`. */
  function TargetSlug(originalSlug: string, form: Form): string {
    Or(originalSlug, form.slug)
  }

  /** The request `onPublish` sends: PUT to the article's own URL when editing, POST to the
      collection otherwise; the body always publishes, with the form's markdown as content. */
  function PublishRequest(form: Form, mode: Mode, originalSlug: string): (req: Request)
    ensures mode == Edit ==> req.verb == Put && req.url == ArticlesPath + "/" + TargetSlug(originalSlug, form)
    ensures mode == Create ==> req.verb == Post && req.url == ArticlesPath
    ensures req.body == Some(PublishBody(form.slug, form.title, form.md, form.summary, form.tags, "published"))
  {
    var url := if mode == Edit then ArticlesPath + "/" + TargetSlug(originalSlug, form) else ArticlesPath;
    var verb := if mode == Edit then Put else Post;
    Request(verb, url, Some(PublishBody(form.slug, form.title, form.md, form.summary, form.tags, "published")))
  }

  /** The toast after a request: success on an `ok` response, else the response's `error`,
      the thrown message, or the fallback text when those are empty. */
  function Verdict(outcome: Outcome, success: string, fallback: string): (t: Toast)
    ensures t.Success? <==> outcome.Answered? && outcome.ok
    ensures t.Success? ==> t.text == success
    ensures outcome.Answered? && !outcome.ok ==> t.text == (if outcome.error != [] then outcome.error else fallback)
    ensures outcome.Threw? ==> t.text == (if outcome.message != [] then outcome.message else fallback)
  {
    match outcome
    case Answered(true, _) => Success(success)
    case Answered(false, error) => Failure(Or(error, fallback))
    case Threw(message) => Failure(Or(message, fallback))
  }

  /** The write store's state the hook reads, with the `loading` flag it sets. */
  class WriteStore {
    var loading: bool
    var form: Form
    var mode: Mode
    var originalSlug: string

    constructor(form: Form, mode: Mode, originalSlug: string)
      ensures !loading && this.form == form && this.mode == mode && this.originalSlug == originalSlug
    {
      loading := false;
      this.form := form;
      this.mode := mode;
      this.originalSlug := originalSlug;
    }

    /** `onPublish` up to the fetch. A non-admin, or a form missing its slug, title or
        markdown, gets an error toast and no request, and `loading` is left alone; otherwise
        `loading` is raised and the request is sent. */
    method BeginPublish(isAdmin: bool) returns (req: Option<Request>, toast: Option<Toast>)
      modifies this
      ensures form == old(form) && mode == old(mode) && originalSlug == old(originalSlug)
      ensures !isAdmin ==> req.None? && toast == Some(Failure(SignInFirst)) && loading == old(loading)
      ensures isAdmin && (form.slug == [] || form.title == [] || form.md == []) ==>
                req.None? && toast == Some(Failure(MissingFields)) && loading == old(loading)
      ensures isAdmin && form.slug != [] && form.title != [] && form.md != [] ==>
                req == Some(PublishRequest(form, mode, originalSlug)) && toast.None? && loading
    {
      if !isAdmin {
        return None, Some(Failure(SignInFirst));
      }
      if form.slug == [] || form.title == [] || form.md == [] {
        return None, Some(Failure(MissingFields));
      }
      loading := true;
      req := Some(PublishRequest(form, mode, originalSlug));
      toast := None;
    }

    /** `onPublish` after the fetch: the `finally` lowers `loading` on every outcome. */
    method FinishPublish(outcome: Outcome) returns (toast: Toast)
      modifies this
      ensures !loading && form == old(form) && mode == old(mode) && originalSlug == old(originalSlug)
      ensures toast == Verdict(outcome, if mode == Edit then "更新成功" else "发布成功", "操作失败")
    {
      toast := Verdict(outcome, if mode == Edit then "更新成功" else "发布成功", "操作失败");
      loading := false;
    }

    /** `onDelete` up to the fetch: the target is `originalSlug || form.slug`; a non-admin or
        an empty target gets an error toast and no request. */
    method BeginDelete(isAdmin: bool) returns (req: Option<Request>, toast: Option<Toast>)
      modifies this
      ensures form == old(form) && mode == old(mode) && originalSlug == old(originalSlug)
      ensures !isAdmin ==> req.None? && toast == Some(Failure(SignInFirst)) && loading == old(loading)
      ensures isAdmin && TargetSlug(originalSlug, form) == [] ==>
                req.None? && toast == Some(Failure(MissingSlug)) && loading == old(loading)
      ensures isAdmin && TargetSlug(originalSlug, form) != [] ==>
                req == Some(Request(Delete, ArticlesPath + "/" + TargetSlug(originalSlug, form), None)) && toast.None? && loading
    {
      if !isAdmin {
        return None, Some(Failure(SignInFirst));
      }
      var target := TargetSlug(originalSlug, form);
      if target == [] {
        return None, Some(Failure(MissingSlug));
      }
      loading := true;
      req := Some(Request(Delete, ArticlesPath + "/" + target, None));
      toast := None;
    }

    /** `onDelete` after the fetch. */
    method FinishDelete(outcome: Outcome) returns (toast: Toast)
      modifies this
      ensures !loading && form == old(form) && mode == old(mode) && originalSlug == old(originalSlug)
      ensures toast == Verdict(outcome, "删除成功", "删除失败")
    {
      toast := Verdict(outcome, "删除成功", "删除失败");
      loading := false;
    }
  }
}
