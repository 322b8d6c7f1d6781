/** The article list endpoint of `src/app/api/articles/route.ts`: `GET` lists articles,
    `POST` creates one for a signed-in user. The request is given by its parts (the
    `session` cookie, the `status` query parameter, the parsed JSON body). */
module ArticlesRoute {
  import opened Wrappers
  import opened Text
  import opened Articles
  import opened Sorting
  import Session

  datatype Body =
    | ArticleBody(article: Article)
    | ArticlesBody(articles: seq<Article>)
    | ErrorBody(error: string)

  datatype Response = Response(status: nat, body: Body)

  /** The JSON body of a create request; each field is absent when missing. */
  datatype CreateRequest = CreateRequest(
    slug: Option<string>, title: Option<string>, summary: Option<string>,
    tags: Option<seq<string>>, content: Option<string>, status: Option<string>)

  const NotSignedIn := "请先登录"
  const SessionExpired := "登录已过期，请重新登录"
  const MissingFields := "请填写标题、slug 和内容"
  const CreateFailed := "创建文章失败"
  const LocalDevelopment := "本地开发环境不支持，请部署到 Cloudflare 后测试"
  const ListFailed := "Failed to get articles"

  /** `!data.slug || !data.title || !data.content` is false. */
  predicate Complete(req: CreateRequest) {
    Truthy(req.slug).Some? && Truthy(req.title).Some? && Truthy(req.content).Some?
  }

  /** The input handed to `createArticle`: the author is the session's user, never a body
      field, and no cover image is passed. */
  function ArticleInput(req: CreateRequest, username: string): (data: NewArticle)
    requires Complete(req)
    ensures data.author == Some(username) && data.coverImage.None?
    ensures data.slug == req.slug.value && data.title == req.title.value && data.content == req.content.value
    ensures data.summary == req.summary && data.tags == req.tags && data.status == req.status
  {
    NewArticle(req.slug.value, req.title.value, req.summary, Some(username), req.tags, req.content.value, None, req.status)
  }

  /** The 500 response for a failure with `message`: a missing binding (any message mentioning
      "not available") gets the local-development notice, any other message is passed on,
      and an empty one is replaced by the generic text. */
  function FailureResponse(message: string): (r: Response)
    ensures r.status == 500
    ensures Contains(message, "not available") ==> r.body == ErrorBody(LocalDevelopment)
    ensures !Contains(message, "not available") && message != [] ==> r.body == ErrorBody(message)
    ensures message == [] ==> r.body == ErrorBody(CreateFailed)
  {
    var m := if message != [] then message else CreateFailed;
    if Contains(m, "not available") then Response(500, ErrorBody(LocalDevelopment))
    else Response(500, ErrorBody(m))
  }

  /** `GET` with the `status` query parameter, passed on as `status || undefined`: an absent
      or empty one lists every status, any other lists the rows with exactly that status. */
  method Get(store: ArticleStore, status: Option<string>) returns (r: Response)
    requires store.Valid()
    ensures r.status == 200 || r == Response(500, ErrorBody(ListFailed))
    ensures r.status == 200 ==> r.body.ArticlesBody?
    ensures r.status == 200 ==> forall a :: a in r.body.articles ==> a.slug in store.Selected(Truthy(status))
    ensures r.status == 200 && store.hasDb ==>
              forall s :: s in store.Selected(Truthy(status)) ==> exists a :: a in r.body.articles && a.slug == s
    ensures r.status == 200 ==>
              forall a :: a in r.body.articles ==> a.slug in store.rows && RowToArticle(store.rows[a.slug], store.tagsJson) == Some(a)
    ensures r.status == 200 ==>
              forall i, j :: 0 <= i < j < |r.body.articles| ==> r.body.articles[i].slug != r.body.articles[j].slug
    ensures r.status == 200 ==>
              forall i, j :: 0 <= i < j < |r.body.articles| ==> LexLe(r.body.articles[j].createdAt, r.body.articles[i].createdAt)
    ensures !store.hasDb ==> r == Response(200, ArticlesBody([]))
    ensures store.hasDb ==>
              (r.status == 500 <==> exists s :: s in store.Selected(Truthy(status)) && RowToArticle(store.rows[s], store.tagsJson).None?)
  {
    var listed := store.GetArticles(Truthy(status));
    match listed
    case Ok(articles) => r := Response(200, ArticlesBody(articles));
    case Err(_) => r := Response(500, ErrorBody(ListFailed));
  }

  /** `POST`. `body` is `request.json()`, `Err` with the parser's message when it throws.
      Without a session cookie, or with one that does not verify at `now`, the answer is 401;
      an incomplete body is 400; in none of these cases is anything stored. Otherwise the
      article is created with the session user as author, and a failure becomes a 500. */
  method Post(store: ArticleStore, sessionCookie: Option<string>, body: Result<CreateRequest>,
              now: int, ctx: Session.Context, isoNow: Timestamp, sqlNow: Timestamp)
    returns (r: Response)
    requires store.Valid()
    modifies store
    ensures store.Valid()
    ensures Truthy(sessionCookie).None? ==> r == Response(401, ErrorBody(NotSignedIn)) && unchanged(store)
    ensures Truthy(sessionCookie).Some? && Session.VerifySession(sessionCookie.value, now, ctx).None? ==>
              r == Response(401, ErrorBody(SessionExpired)) && unchanged(store)
    ensures Truthy(sessionCookie).Some? && Session.VerifySession(sessionCookie.value, now, ctx).Some? ==>
              && (body.Err? ==> r == FailureResponse(body.message) && unchanged(store))
              && (body.Ok? && !Complete(body.value) ==> r == Response(400, ErrorBody(MissingFields)) && unchanged(store))
    ensures Truthy(sessionCookie).Some? && Session.VerifySession(sessionCookie.value, now, ctx).Some? && body.Ok? && Complete(body.value) ==>
              var data := ArticleInput(body.value, Session.VerifySession(sessionCookie.value, now, ctx).value.username);
              && (!old(store.hasDb) || !old(store.hasBucket) ==> r == Response(500, ErrorBody(LocalDevelopment)) && unchanged(store))
              && (old(store.hasDb) && old(store.hasBucket) ==>
                    store.blobs == old(store.blobs)[ContentKey(data.slug) := Markdown(data.content)])
              && (old(store.hasDb) && old(store.hasBucket) && data.slug in old(store.rows) ==>
                    r.status == 500 && store.rows == old(store.rows))
              && (old(store.hasDb) && old(store.hasBucket) && data.slug !in old(store.rows) ==>
                    && store.rows == old(store.rows)[data.slug := NewRow(data, old(store.nextId), isoNow, sqlNow, store.tagsJson)]
                    && r == (match RowToArticle(store.rows[data.slug], store.tagsJson)
                             case Some(a) => Response(200, ArticleBody(a))
                             case None => FailureResponse("JSON.parse failed on tags")))
    ensures r.status == 200 ==> r.body.ArticleBody?
  {
    if Truthy(sessionCookie).None? {
      return Response(401, ErrorBody(NotSignedIn));
    }
    var user := Session.VerifySession(sessionCookie.value, now, ctx);
    if user.None? {
      return Response(401, ErrorBody(SessionExpired));
    }
    if body.Err? {
      return FailureResponse(body.message);
    }
    var req := body.value;
    if !Complete(req) {
      return Response(400, ErrorBody(MissingFields));
    }
    var created := store.CreateArticle(ArticleInput(req, user.value.username), isoNow, sqlNow);
    MissingBindingNotice();
    match created
    case Ok(article) => r := Response(200, ArticleBody(article));
    case Err(message) => r := FailureResponse(message);
  }

  /** A missing binding surfaces as a 500 with the local-development notice. */
  lemma MissingBindingNotice()
    ensures FailureResponse("Database or bucket not available") == Response(500, ErrorBody(LocalDevelopment))
  {
    var m := "Database or bucket not available";
    assert m[19..19 + |"not available"|] == "not available";
    ContainsAt(m, "not available", 19);
  }
}
