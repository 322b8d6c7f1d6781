/** The article store of `src/lib/articles.ts`: D1's `articles` table as a slug-keyed map of
    rows and the R2 bucket as a key-keyed map of blobs. The bindings may be absent (local
    development); timestamps are given as text; the `tags` column holds JSON text produced
    and read by the codec `tagsJson`. */
module Articles {
  import opened Wrappers
  import opened Bytes
  import opened Json
  import opened Sorting

  type Timestamp = string

  /** A row of `articles` as D1 returns it: SQL NULL is `None`. */
  datatype ArticleRow = ArticleRow(
    id: int, slug: string, title: string, summary: Option<string>, author: string,
    tags: Option<string>, coverKey: Option<string>, contentKey: string, status: string,
    views: int, createdAt: Timestamp, updatedAt: Timestamp, publishedAt: Option<Timestamp>)

  /** The `Article` handed to callers: absent optional fields are `None`. */
  datatype Article = Article(
    id: int, slug: string, title: string, summary: Option<string>, author: string,
    tags: seq<string>, coverKey: Option<string>, contentKey: string, status: string,
    views: int, createdAt: Timestamp, updatedAt: Timestamp, publishedAt: Option<Timestamp>)

  datatype Blob = Markdown(text: string) | Jpeg(data: seq<uint8>)

  const DefaultAuthor: string := "Villode"
  const Draft: string := "draft"
  const Published: string := "published"

  /** `x || undefined` on a nullable text column: NULL and the empty string are both absent. */
  function Truthy(x: Option<string>): (r: Option<string>)
    ensures r.Some? <==> x.Some? && x.value != []
    ensures r.Some? ==> r == x
  {
    if x.Some? && x.value != [] then x else None
  }

  /** `rowToArticle`; `None` when `JSON.parse` of a non-empty `tags` text throws. */
  function RowToArticle(row: ArticleRow, tagsJson: Codec<seq<string>>): (r: Option<Article>)
    ensures r.Some? <==> Truthy(row.tags).None? || tagsJson.parse(row.tags.value).Some?
    ensures r.Some? ==> && r.value.slug == row.slug && r.value.id == row.id
                        && r.value.title == row.title && r.value.author == row.author
                        && r.value.contentKey == row.contentKey && r.value.status == row.status
                        && r.value.views == row.views && r.value.createdAt == row.createdAt
                        && r.value.updatedAt == row.updatedAt
    ensures r.Some? ==> && (r.value.summary.None? <==> row.summary.None? || row.summary.value == [])
                        && (r.value.coverKey.None? <==> row.coverKey.None? || row.coverKey.value == [])
                        && (r.value.publishedAt.None? <==> row.publishedAt.None? || row.publishedAt.value == [])
                        && (row.tags.None? || row.tags.value == [] ==> r.value.tags == [])
    ensures r.Some? ==> && (r.value.summary.Some? ==> r.value.summary == row.summary)
                        && (r.value.coverKey.Some? ==> r.value.coverKey == row.coverKey)
                        && (r.value.publishedAt.Some? ==> r.value.publishedAt == row.publishedAt)
                        && (row.tags.Some? && row.tags.value != [] ==> Some(r.value.tags) == tagsJson.parse(row.tags.value))
  {
    var tags := if Truthy(row.tags).Some? then tagsJson.parse(row.tags.value) else Some([]);
    if tags.None? then None
    else
      Some(Article(row.id, row.slug, row.title, Truthy(row.summary), row.author, tags.value,
                   Truthy(row.coverKey), row.contentKey, row.status, row.views, row.createdAt,
                   row.updatedAt, Truthy(row.publishedAt)))
  }

  function ContentKey(slug: string): string { "articles/" + slug + "/content.md" }
  function CoverKey(slug: string): string { "articles/" + slug + "/cover.jpg" }
  function ImageKey(slug: string, filename: string): string { "articles/" + slug + "/images/" + filename }

  /** Different slugs store their bodies, and their covers, under different keys. */
  lemma BlobKeysInjective(s1: string, s2: string)
    ensures ContentKey(s1) == ContentKey(s2) ==> s1 == s2
    ensures CoverKey(s1) == CoverKey(s2) ==> s1 == s2
  {
    if ContentKey(s1) == ContentKey(s2) {
      assert |s1| == |s2|;
      assert s1 == ContentKey(s1)[9..9 + |s1|];
    }
    if CoverKey(s1) == CoverKey(s2) {
      assert |s1| == |s2|;
      assert s1 == CoverKey(s1)[9..9 + |s1|];
    }
  }

  /** A body key never equals a cover key, whatever the two slugs. */
  lemma ContentCoverDistinct(s1: string, s2: string)
    ensures ContentKey(s1) != CoverKey(s2)
  {
    var c := ContentKey(s1);
    var k := CoverKey(s2);
    assert c[|c| - 1] == 'd';
    assert k[|k| - 1] == 'g';
  }

  /** `getArticles(status)` filters on status when it is truthy. */
  predicate StatusMatches(row: ArticleRow, status: Option<string>) {
    status.None? || status.value == [] || row.status == status.value
  }

  /** `ORDER BY created_at DESC`. */
  function NewestFirst(): (ArticleRow, ArticleRow) -> bool {
    (a: ArticleRow, b: ArticleRow) => LexLe(b.createdAt, a.createdAt)
  }

  lemma NewestFirstIsPreorder()
    ensures TotalPreorder(NewestFirst())
  {
    DescendingByTextIsPreorder(NewestFirst(), (r: ArticleRow) => r.createdAt);
  }

  /** The input to `createArticle`. */
  datatype NewArticle = NewArticle(
    slug: string, title: string, summary: Option<string>, author: Option<string>,
    tags: Option<seq<string>>, content: string, coverImage: Option<seq<uint8>>,
    status: Option<string>)

  /** The row `createArticle` inserts: empty summary is NULL, author and status have
      defaults, `published_at` is set exactly when the status is `published`. */
  function NewRow(data: NewArticle, id: int, isoNow: Timestamp, sqlNow: Timestamp, tagsJson: Codec<seq<string>>): (row: ArticleRow)
    ensures row.slug == data.slug && row.title == data.title && row.id == id && row.views == 0
    ensures row.contentKey == ContentKey(data.slug)
    ensures row.coverKey == (if data.coverImage.Some? then Some(CoverKey(data.slug)) else None)
    ensures row.summary == Truthy(data.summary)
    ensures row.author == (if data.author.Some? && data.author.value != [] then data.author.value else DefaultAuthor)
    ensures row.status == (if data.status.Some? && data.status.value != [] then data.status.value else Draft)
    ensures row.publishedAt == (if (data.status.Some? && data.status.value == Published) then Some(isoNow) else None)
    ensures row.tags == (if data.tags.Some? then Some(tagsJson.stringify(data.tags.value)) else None)
  {
    ArticleRow(
      id, data.slug, data.title, Truthy(data.summary),
      if data.author.Some? && data.author.value != [] then data.author.value else DefaultAuthor,
      if data.tags.Some? then Some(tagsJson.stringify(data.tags.value)) else None,
      if data.coverImage.Some? then Some(CoverKey(data.slug)) else None,
      ContentKey(data.slug),
      if data.status.Some? && data.status.value != [] then data.status.value else Draft,
      0, sqlNow, sqlNow,
      if (data.status.Some? && data.status.value == Published) then Some(isoNow) else None)
  }

  /** The input to `updateArticle`: every field optional. */
  datatype ArticleUpdate = ArticleUpdate(
    title: Option<string>, summary: Option<string>, tags: Option<seq<string>>,
    content: Option<string>, coverImage: Option<seq<uint8>>, status: Option<string>)

  /** The columns the partial update can assign. */
  datatype Column = UpdatedAt | Title | Summary | Tags | Status | PublishedAt

  /** One `SET` item: `col = ?` takes the next bound value, `col = CURRENT_TIMESTAMP` none. */
  datatype Assignment = FromParam(col: Column) | FromClock(col: Column)

  datatype SqlValue = Text(text: string) | Null

  /** The positions of the `?` items in a SET list. */
  function ParamPositions(updates: seq<Assignment>): set<nat> {
    set i: nat | i < |updates| && updates[i].FromParam?
  }

  /** The number of `?` items in a SET list. */
  function Placeholders(updates: seq<Assignment>): (n: nat)
    ensures n == |ParamPositions(updates)|
  {
    if updates == [] then 0
    else
      var init := Init(updates);
      var last := |updates| - 1;
      assert ParamPositions(updates) == ParamPositions(init) + (if updates[last].FromParam? then {last} else {});
      assert last !in ParamPositions(init);
      Placeholders(init) + (if Last(updates).FromParam? then 1 else 0)
  }

  function Init<T>(s: seq<T>): seq<T>
    requires s != []
  {
    s[..|s| - 1]
  }

  function Last<T>(s: seq<T>): T
    requires s != []
  {
    s[|s| - 1]
  }

  /** What one SET item writes: a bound value, or `CURRENT_TIMESTAMP`. */
  datatype Written = Bound(value: SqlValue) | Clock

  /** The SET clause as the engine reads it: each column mapped to what it is set to, the
      `?` items taking the bound values in order. */
  function SetClause(updates: seq<Assignment>, values: seq<SqlValue>): map<Column, Written>
    requires Placeholders(updates) == |values|
    decreases |updates|
  {
    if updates == [] then map[]
    else if Last(updates).FromParam? then
      SetClause(Init(updates), Init(values))[Last(updates).col := Bound(Last(values))]
    else
      SetClause(Init(updates), values)[Last(updates).col := Clock]
  }

  /** A written value as column text; SQL NULL is `None`. */
  function WrittenText(w: Written, sqlNow: Timestamp): Option<string> {
    match w
    case Clock => Some(sqlNow)
    case Bound(Text(text)) => Some(text)
    case Bound(Null) => None
  }

  /** A NOT NULL text column after the clause: unchanged unless the clause writes text to it. */
  function NotNullColumn(clause: map<Column, Written>, col: Column, previous: string, sqlNow: Timestamp): string {
    if col in clause && WrittenText(clause[col], sqlNow).Some? then WrittenText(clause[col], sqlNow).value else previous
  }

  /** A nullable text column after the clause. */
  function NullableColumn(clause: map<Column, Written>, col: Column, previous: Option<string>, sqlNow: Timestamp): Option<string> {
    if col in clause then WrittenText(clause[col], sqlNow) else previous
  }

  /** What `UPDATE articles SET <clause> WHERE slug = ?` does to the matching row. */
  function Execute(row: ArticleRow, clause: map<Column, Written>, sqlNow: Timestamp): ArticleRow {
    row.(updatedAt := NotNullColumn(clause, UpdatedAt, row.updatedAt, sqlNow),
         title := NotNullColumn(clause, Title, row.title, sqlNow),
         summary := NullableColumn(clause, Summary, row.summary, sqlNow),
         tags := NullableColumn(clause, Tags, row.tags, sqlNow),
         status := NotNullColumn(clause, Status, row.status, sqlNow),
         publishedAt := NullableColumn(clause, PublishedAt, row.publishedAt, sqlNow))
  }

  /** Whether `updateArticle` has anything to write to the row (`values.length > 0`). */
  predicate TouchesRow(data: ArticleUpdate) {
    (data.title.Some? && data.title.value != []) || data.summary.Some?
    || data.tags.Some? || (data.status.Some? && data.status.value != [])
  }

  /** The row the partial update should leave, field by field: unsupplied fields unchanged,
      an empty title ignored, an empty summary cleared, `published_at` stamped only when the
      status becomes `published` and it was absent, `updated_at` stamped whenever anything
      is written. */
  function UpdatedRow(row: ArticleRow, data: ArticleUpdate, existingPublished: bool, sqlNow: Timestamp, tagsJson: Codec<seq<string>>): (r: ArticleRow)
    ensures r.id == row.id && r.slug == row.slug && r.author == row.author && r.views == row.views
    ensures r.coverKey == row.coverKey && r.contentKey == row.contentKey && r.createdAt == row.createdAt
    ensures existingPublished ==> r.publishedAt == row.publishedAt
    ensures r.publishedAt != row.publishedAt ==> r.publishedAt == Some(sqlNow) && data.status == Some(Published)
    ensures !TouchesRow(data) ==> r == row
  {
    if !TouchesRow(data) then row
    else
      row.(updatedAt := sqlNow,
           title := if data.title.Some? && data.title.value != [] then data.title.value else row.title,
           summary := if data.summary.Some? then Truthy(data.summary) else row.summary,
           tags := if data.tags.Some? then Some(tagsJson.stringify(data.tags.value)) else row.tags,
           status := if data.status.Some? && data.status.value != [] then data.status.value else row.status,
           publishedAt := if data.status.Some? && data.status.value == Published && !existingPublished then Some(sqlNow) else row.publishedAt)
  }

  /** `updates.push(a)` together with the value that item binds, if it binds one. */
  method Push(updates: seq<Assignment>, values: seq<SqlValue>, a: Assignment, x: SqlValue)
    returns (updates': seq<Assignment>, values': seq<SqlValue>)
    requires Placeholders(updates) == |values|
    ensures updates' == updates + [a] && values' == (if a.FromParam? then values + [x] else values)
    ensures Placeholders(updates') == |values'|
    ensures SetClause(updates', values') == SetClause(updates, values)[a.col := if a.FromParam? then Bound(x) else Clock]
  {
    updates' := updates + [a];
    values' := if a.FromParam? then values + [x] else values;
    assert Init(updates') == updates && Last(updates') == a;
    if a.FromParam? {
      assert Init(values') == values && Last(values') == x;
    }
  }

  /** The builder of `updateArticle`: the SET list and its bound values, pushed in order.
      Every `?` has its value, the row UPDATE runs exactly when a row field is supplied, and
      running it leaves the row `UpdatedRow` describes. */
  method BuildUpdate(data: ArticleUpdate, existingPublished: bool, tagsJson: Codec<seq<string>>)
    returns (updates: seq<Assignment>, values: seq<SqlValue>)
    ensures Placeholders(updates) == |values|
    ensures |values| > 0 <==> TouchesRow(data)
    ensures forall row, sqlNow :: |values| > 0 ==>
              Execute(row, SetClause(updates, values), sqlNow) == UpdatedRow(row, data, existingPublished, sqlNow, tagsJson)
  {
    updates := [FromClock(UpdatedAt)];
    values := [];
    assert Init(updates) == [] && Last(updates) == FromClock(UpdatedAt);
    updates, values := PushTitle(updates, values, data);
    updates, values := PushSummary(updates, values, data);
    updates, values := PushTags(updates, values, data, tagsJson);
    updates, values := PushStatus(updates, values, data, existingPublished);
    IntendedClausePlanned(data, existingPublished, tagsJson);
    forall row, sqlNow | |values| > 0
      ensures Execute(row, SetClause(updates, values), sqlNow) == UpdatedRow(row, data, existingPublished, sqlNow, tagsJson)
    {
      ExecutePlannedClause(row, SetClause(updates, values), data, existingPublished, sqlNow, tagsJson);
    }
  }

  /** `if (data.title)`: push `title = ?` with the title. */
  method PushTitle(updates: seq<Assignment>, values: seq<SqlValue>, data: ArticleUpdate)
    returns (updates': seq<Assignment>, values': seq<SqlValue>)
    requires Placeholders(updates) == |values|
    ensures Placeholders(updates') == |values'|
    ensures |values'| == |values| + (if data.title.Some? && data.title.value != [] then 1 else 0)
    ensures SetClause(updates', values') == TitleStep(SetClause(updates, values), data)
  {
    updates', values' := updates, values;
    if data.title.Some? && data.title.value != [] {
      updates', values' := Push(updates, values, FromParam(Title), Text(data.title.value));
    }
  }

  /** `if (data.summary !== undefined)`: push `summary = ?` with the summary, `''` as NULL. */
  method PushSummary(updates: seq<Assignment>, values: seq<SqlValue>, data: ArticleUpdate)
    returns (updates': seq<Assignment>, values': seq<SqlValue>)
    requires Placeholders(updates) == |values|
    ensures Placeholders(updates') == |values'|
    ensures |values'| == |values| + (if data.summary.Some? then 1 else 0)
    ensures SetClause(updates', values') == SummaryStep(SetClause(updates, values), data)
  {
    updates', values' := updates, values;
    if data.summary.Some? {
      var v := if data.summary.value != [] then Text(data.summary.value) else Null;
      updates', values' := Push(updates, values, FromParam(Summary), v);
    }
  }

  /** `if (data.tags)`: push `tags = ?` with the JSON text of the tags. */
  method PushTags(updates: seq<Assignment>, values: seq<SqlValue>, data: ArticleUpdate, tagsJson: Codec<seq<string>>)
    returns (updates': seq<Assignment>, values': seq<SqlValue>)
    requires Placeholders(updates) == |values|
    ensures Placeholders(updates') == |values'|
    ensures |values'| == |values| + (if data.tags.Some? then 1 else 0)
    ensures SetClause(updates', values') == TagsStep(SetClause(updates, values), data, tagsJson)
  {
    updates', values' := updates, values;
    if data.tags.Some? {
      updates', values' := Push(updates, values, FromParam(Tags), Text(tagsJson.stringify(data.tags.value)));
    }
  }

  /** `if (data.status)`: push `status = ?`, and `published_at = CURRENT_TIMESTAMP` on first
      publication. */
  method PushStatus(updates: seq<Assignment>, values: seq<SqlValue>, data: ArticleUpdate, existingPublished: bool)
    returns (updates': seq<Assignment>, values': seq<SqlValue>)
    requires Placeholders(updates) == |values|
    ensures Placeholders(updates') == |values'|
    ensures |values'| == |values| + (if data.status.Some? && data.status.value != [] then 1 else 0)
    ensures SetClause(updates', values') == StatusStep(SetClause(updates, values), data, existingPublished)
  {
    updates', values' := updates, values;
    if data.status.Some? && data.status.value != [] {
      updates', values' := Push(updates, values, FromParam(Status), Text(data.status.value));
      if data.status.value == Published && !existingPublished {
        updates', values' := Push(updates', values', FromClock(PublishedAt), Null);
      }
    }
  }

  ghost function TitleStep(clause: map<Column, Written>, data: ArticleUpdate): map<Column, Written> {
    if data.title.Some? && data.title.value != [] then clause[Title := Bound(Text(data.title.value))] else clause
  }

  ghost function SummaryStep(clause: map<Column, Written>, data: ArticleUpdate): map<Column, Written> {
    if data.summary.Some? then
      clause[Summary := Bound(if data.summary.value != [] then Text(data.summary.value) else Null)]
    else clause
  }

  ghost function TagsStep(clause: map<Column, Written>, data: ArticleUpdate, tagsJson: Codec<seq<string>>): map<Column, Written> {
    if data.tags.Some? then clause[Tags := Bound(Text(tagsJson.stringify(data.tags.value)))] else clause
  }

  ghost function StatusStep(clause: map<Column, Written>, data: ArticleUpdate, existingPublished: bool): map<Column, Written> {
    if data.status.Some? && data.status.value != [] then
      if data.status.value == Published && !existingPublished then
        clause[Status := Bound(Text(data.status.value))][PublishedAt := Clock]
      else clause[Status := Bound(Text(data.status.value))]
    else clause
  }

  /** The SET clause the builder produces, step by step from `updated_at = CURRENT_TIMESTAMP`. */
  ghost function IntendedClause(data: ArticleUpdate, existingPublished: bool, tagsJson: Codec<seq<string>>): map<Column, Written> {
    StatusStep(TagsStep(SummaryStep(TitleStep(map[UpdatedAt := Clock], data), data), data, tagsJson), data, existingPublished)
  }

  lemma IntendedClausePlanned(data: ArticleUpdate, existingPublished: bool, tagsJson: Codec<seq<string>>)
    ensures PlannedClause(IntendedClause(data, existingPublished, tagsJson), data, existingPublished, tagsJson)
  {
    var c1 := TitleStep(map[UpdatedAt := Clock], data);
    assert c1.Keys <= {UpdatedAt, Title} && UpdatedAt in c1 && c1[UpdatedAt] == Clock && TitlePlanned(c1, data);
    var c2 := SummaryStep(c1, data);
    assert c2.Keys <= {UpdatedAt, Title, Summary} && UpdatedAt in c2 && c2[UpdatedAt] == Clock;
    assert TitlePlanned(c2, data) && SummaryPlanned(c2, data);
    var c3 := TagsStep(c2, data, tagsJson);
    assert c3.Keys <= {UpdatedAt, Title, Summary, Tags} && UpdatedAt in c3 && c3[UpdatedAt] == Clock;
    assert TitlePlanned(c3, data) && SummaryPlanned(c3, data) && TagsPlanned(c3, data, tagsJson);
    var c4 := StatusStep(c3, data, existingPublished);
    assert UpdatedAt in c4 && c4[UpdatedAt] == Clock;
    assert TitlePlanned(c4, data);
    assert SummaryPlanned(c4, data);
    assert TagsPlanned(c4, data, tagsJson);
    assert StatusPlanned(c4, data, existingPublished);
  }

  /** Column by column, the SET clause `updateArticle` intends: `updated_at` always stamped,
      each supplied field bound to its value, `published_at` stamped on first publication. */
  ghost predicate PlannedClause(clause: map<Column, Written>, data: ArticleUpdate, existingPublished: bool, tagsJson: Codec<seq<string>>) {
    && UpdatedAt in clause && clause[UpdatedAt] == Clock
    && TitlePlanned(clause, data) && SummaryPlanned(clause, data) && TagsPlanned(clause, data, tagsJson)
    && StatusPlanned(clause, data, existingPublished)
  }

  ghost predicate TitlePlanned(clause: map<Column, Written>, data: ArticleUpdate) {
    && (Title in clause <==> data.title.Some? && data.title.value != [])
    && (Title in clause ==> clause[Title] == Bound(Text(data.title.value)))
  }

  ghost predicate SummaryPlanned(clause: map<Column, Written>, data: ArticleUpdate) {
    && (Summary in clause <==> data.summary.Some?)
    && (Summary in clause ==> clause[Summary] == Bound(if data.summary.value != [] then Text(data.summary.value) else Null))
  }

  ghost predicate TagsPlanned(clause: map<Column, Written>, data: ArticleUpdate, tagsJson: Codec<seq<string>>) {
    && (Tags in clause <==> data.tags.Some?)
    && (Tags in clause ==> clause[Tags] == Bound(Text(tagsJson.stringify(data.tags.value))))
  }

  ghost predicate StatusPlanned(clause: map<Column, Written>, data: ArticleUpdate, existingPublished: bool) {
    && (Status in clause <==> data.status.Some? && data.status.value != [])
    && (Status in clause ==> clause[Status] == Bound(Text(data.status.value)))
    && (PublishedAt in clause <==> data.status.Some? && data.status.value == Published && !existingPublished)
    && (PublishedAt in clause ==> clause[PublishedAt] == Clock)
  }

  lemma ExecutePlannedClause(row: ArticleRow, clause: map<Column, Written>, data: ArticleUpdate, existingPublished: bool,
                             sqlNow: Timestamp, tagsJson: Codec<seq<string>>)
    requires PlannedClause(clause, data, existingPublished, tagsJson) && TouchesRow(data)
    ensures Execute(row, clause, sqlNow) == UpdatedRow(row, data, existingPublished, sqlNow, tagsJson)
  {
    var r := Execute(row, clause, sqlNow);
    var e := UpdatedRow(row, data, existingPublished, sqlNow, tagsJson);
    assert r.updatedAt == e.updatedAt;
    assert r.title == e.title;
    assert r.summary == e.summary;
    assert r.tags == e.tags;
    assert r.status == e.status;
    assert r.publishedAt == e.publishedAt;
  }

  /** The two bindings and their contents. `rows` is keyed by slug; every id is below
      `nextId`, the next AUTOINCREMENT value. */
  class ArticleStore {
    var hasDb: bool
    var hasBucket: bool
    var rows: map<string, ArticleRow>
    var blobs: map<string, Blob>
    var nextId: int
    const tagsJson: Codec<seq<string>>

    ghost predicate Valid()
      reads this
    {
      forall s :: s in rows ==> rows[s].slug == s && rows[s].id < nextId
    }

    constructor(hasDb: bool, hasBucket: bool, tagsJson: Codec<seq<string>>)
      ensures Valid()
      ensures this.hasDb == hasDb && this.hasBucket == hasBucket && this.tagsJson == tagsJson
      ensures rows == map[] && blobs == map[] && nextId == 1
    {
      this.hasDb := hasDb;
      this.hasBucket := hasBucket;
      this.tagsJson := tagsJson;
      rows := map[];
      blobs := map[];
      nextId := 1;
    }

    /** `getArticleBySlug`: no database or no row is `null`; a row whose tags do not parse
        makes the call throw. */
    function GetArticleBySlug(slug: string): (r: Result<Option<Article>>)
      reads this
      ensures r == Ok(None) <==> !hasDb || slug !in rows
      ensures r.Err? <==> hasDb && slug in rows && RowToArticle(rows[slug], tagsJson).None?
      ensures r.Ok? && r.value.Some? ==> hasDb && slug in rows && RowToArticle(rows[slug], tagsJson) == r.value
    {
      if !hasDb || slug !in rows then Ok(None)
      else match RowToArticle(rows[slug], tagsJson)
        case None => Err("JSON.parse failed on tags")
        case Some(a) => Ok(Some(a))
    }

    /** The slugs `getArticles(status)` selects. */
    ghost function Selected(status: Option<string>): set<string>
      reads this
    {
      set s | s in rows && StatusMatches(rows[s], status)
    }

    /** `getArticles(status)`: the selected rows, newest first, as articles. */
    method GetArticles(status: Option<string>) returns (r: Result<seq<Article>>)
      requires Valid()
      ensures !hasDb ==> r == Ok([])
      ensures hasDb ==> (r.Err? <==> exists s :: s in Selected(status) && RowToArticle(rows[s], tagsJson).None?)
      ensures r.Ok? ==> forall a :: a in r.value ==> a.slug in Selected(status) && RowToArticle(rows[a.slug], tagsJson) == Some(a)
      ensures r.Ok? && hasDb ==> forall s :: s in Selected(status) ==> exists a :: a in r.value && a.slug == s
      ensures r.Ok? ==> forall i, j :: 0 <= i < j < |r.value| ==> r.value[i].slug != r.value[j].slug
      ensures r.Ok? ==> forall i, j :: 0 <= i < j < |r.value| ==> LexLe(r.value[j].createdAt, r.value[i].createdAt)
    {
      if !hasDb {
        return Ok([]);
      }
      var selected := SelectRows(status);
      NewestFirstIsPreorder();
      var ordered := Sort(selected, NewestFirst());
      SortSorted(selected, NewestFirst());
      ReorderedSelection(rows, Selected(status), selected, ordered);
      r := ToArticles(ordered, tagsJson);
      if r.Err? {
        FailedSelection(rows, Selected(status), ordered, tagsJson);
      } else {
        ListedArticles(rows, Selected(status), ordered, r.value, tagsJson);
      }
    }

    /** `SELECT * FROM articles [WHERE status = ...]`: every selected row once, in the
        engine's order. */
    method SelectRows(status: Option<string>) returns (selected: seq<ArticleRow>)
      requires Valid()
      ensures ListsSelection(rows, Selected(status), selected)
    {
      var pending := rows.Keys;
      selected := [];
      while pending != {}
        invariant pending <= rows.Keys
        invariant forall k :: 0 <= k < |selected| ==>
                    selected[k].slug in Selected(status) && rows[selected[k].slug] == selected[k] && selected[k].slug !in pending
        invariant forall s :: s in Selected(status) && s !in pending ==> rows[s] in selected
        invariant NoDuplicates(selected)
        decreases pending
      {
        var s :| s in pending;
        pending := pending - {s};
        if StatusMatches(rows[s], status) {
          assert rows[s] !in selected;
          assert multiset(selected + [rows[s]]) == multiset(selected) + multiset{rows[s]};
          selected := selected + [rows[s]];
        }
      }
    }

    /** `createArticle`: the body (and the cover, if given) is put in the bucket before the
        row is inserted; the result is the row read back. */
    method CreateArticle(data: NewArticle, isoNow: Timestamp, sqlNow: Timestamp) returns (r: Result<Article>)
      requires Valid()
      modifies this
      ensures Valid()
      ensures hasDb == old(hasDb) && hasBucket == old(hasBucket)
      ensures !hasDb || !hasBucket ==> r == Err("Database or bucket not available") && unchanged(this)
      ensures hasDb && hasBucket ==>
                blobs == (if data.coverImage.Some?
                          then old(blobs)[ContentKey(data.slug) := Markdown(data.content)][CoverKey(data.slug) := Jpeg(data.coverImage.value)]
                          else old(blobs)[ContentKey(data.slug) := Markdown(data.content)])
      ensures hasDb && hasBucket && data.slug in old(rows) ==> r.Err? && rows == old(rows) && nextId == old(nextId)
      ensures hasDb && hasBucket && data.slug !in old(rows) ==>
                && rows == old(rows)[data.slug := NewRow(data, old(nextId), isoNow, sqlNow, tagsJson)]
                && nextId == old(nextId) + 1
                && r == (match RowToArticle(rows[data.slug], tagsJson)
                         case Some(a) => Ok(a)
                         case None => Err("JSON.parse failed on tags"))
    {
      if !hasDb || !hasBucket {
        return Err("Database or bucket not available");
      }
      blobs := blobs[ContentKey(data.slug) := Markdown(data.content)];
      if data.coverImage.Some? {
        blobs := blobs[CoverKey(data.slug) := Jpeg(data.coverImage.value)];
      }
      if data.slug in rows {
        return Err("UNIQUE constraint failed: articles.slug");
      }
      rows := rows[data.slug := NewRow(data, nextId, isoNow, sqlNow, tagsJson)];
      nextId := nextId + 1;
      var article := GetArticleBySlug(data.slug);
      match article
      case Err(message) => r := Err(message);
      case Ok(found) =>
        r := Ok(found.value);
    }

    /** `updateArticle`: body and cover go to the bucket, the cover key and then the
        partial UPDATE to the row; the result is the row read back. */
    method UpdateArticle(slug: string, data: ArticleUpdate, sqlNow: Timestamp) returns (r: Result<Option<Article>>)
      requires Valid()
      modifies this
      ensures Valid()
      ensures hasDb == old(hasDb) && hasBucket == old(hasBucket) && nextId == old(nextId)
      ensures !hasDb || !hasBucket || slug !in old(rows) ==> r == Ok(None) && unchanged(this)
      ensures hasDb && hasBucket && slug in old(rows) && RowToArticle(old(rows)[slug], tagsJson).None? ==>
                r.Err? && unchanged(this)
      ensures hasDb && hasBucket && slug in old(rows) && RowToArticle(old(rows)[slug], tagsJson).Some? ==>
                var previous := old(rows)[slug];
                var covered := if data.coverImage.Some? then previous.(coverKey := Some(CoverKey(slug))) else previous;
                && rows == old(rows)[slug := UpdatedRow(covered, data, Truthy(previous.publishedAt).Some?, sqlNow, tagsJson)]
                && blobs == UpdatedBlobs(old(blobs), slug, previous.contentKey, data)
                && r == GetArticleBySlug(slug)
    {
      if !hasDb || !hasBucket {
        return Ok(None);
      }
      var existing := GetArticleBySlug(slug);
      if existing.Err? {
        return Err(existing.message);
      }
      if existing.value.None? {
        return Ok(None);
      }
      ApplyUpdate(slug, existing.value.value, data, sqlNow);
      r := GetArticleBySlug(slug);
    }

    /** The writes of `updateArticle` once the article is found: body, cover, cover key,
        then the partial UPDATE when it has values. */
    method ApplyUpdate(slug: string, article: Article, data: ArticleUpdate, sqlNow: Timestamp)
      requires Valid() && slug in rows && RowToArticle(rows[slug], tagsJson) == Some(article)
      modifies this
      ensures Valid()
      ensures hasDb == old(hasDb) && hasBucket == old(hasBucket) && nextId == old(nextId)
      ensures var previous := old(rows)[slug];
              var covered := if data.coverImage.Some? then previous.(coverKey := Some(CoverKey(slug))) else previous;
              && rows == old(rows)[slug := UpdatedRow(covered, data, Truthy(previous.publishedAt).Some?, sqlNow, tagsJson)]
              && blobs == UpdatedBlobs(old(blobs), slug, previous.contentKey, data)
    {
      var row, newBlobs := UpdateWrites(rows[slug], blobs, slug, article, data, sqlNow, tagsJson);
      rows := rows[slug := row];
      blobs := newBlobs;
    }

    /** `deleteArticle`: the body and cover blobs and then the row are removed. */
    method DeleteArticle(slug: string) returns (r: Result<bool>)
      requires Valid()
      modifies this
      ensures Valid()
      ensures hasDb == old(hasDb) && hasBucket == old(hasBucket) && nextId == old(nextId)
      ensures !hasDb || !hasBucket || slug !in old(rows) ==> r == Ok(false) && unchanged(this)
      ensures hasDb && hasBucket && slug in old(rows) && RowToArticle(old(rows)[slug], tagsJson).None? ==>
                r.Err? && unchanged(this)
      ensures hasDb && hasBucket && slug in old(rows) && RowToArticle(old(rows)[slug], tagsJson).Some? ==>
                var previous := old(rows)[slug];
                && r == Ok(true)
                && rows == old(rows) - {slug}
                && blobs == (if Truthy(previous.coverKey).Some?
                             then old(blobs) - {previous.contentKey} - {previous.coverKey.value}
                             else old(blobs) - {previous.contentKey})
    {
      if !hasDb || !hasBucket {
        return Ok(false);
      }
      var existing := GetArticleBySlug(slug);
      if existing.Err? {
        return Err(existing.message);
      }
      if existing.value.None? {
        return Ok(false);
      }
      var article := existing.value.value;
      blobs := blobs - {article.contentKey};
      if article.coverKey.Some? {
        blobs := blobs - {article.coverKey.value};
      }
      rows := rows - {slug};
      r := Ok(true);
    }

    /** `incrementViews`: that row's `views` goes up by one; nothing else changes. */
    method IncrementViews(slug: string)
      requires Valid()
      modifies this
      ensures Valid()
      ensures hasDb == old(hasDb) && hasBucket == old(hasBucket) && nextId == old(nextId) && blobs == old(blobs)
      ensures rows.Keys == old(rows).Keys
      ensures forall s :: s in rows ==>
                rows[s] == if hasDb && s == slug then old(rows)[s].(views := old(rows)[s].views + 1) else old(rows)[s]
    {
      if hasDb && slug in rows {
        rows := rows[slug := rows[slug].(views := rows[slug].views + 1)];
      }
    }

    /** `uploadArticleImage`: the image goes to `articles/<slug>/images/<filename>`. */
    method UploadArticleImage(slug: string, filename: string, data: seq<uint8>) returns (r: Result<string>)
      modifies this
      ensures hasDb == old(hasDb) && hasBucket == old(hasBucket) && nextId == old(nextId) && rows == old(rows)
      ensures !hasBucket ==> r == Err("Bucket not available") && blobs == old(blobs)
      ensures hasBucket ==> r == Ok(ImageKey(slug, filename)) && blobs == old(blobs)[ImageKey(slug, filename) := Jpeg(data)]
    {
      if !hasBucket {
        return Err("Bucket not available");
      }
      var key := ImageKey(slug, filename);
      blobs := blobs[key := Jpeg(data)];
      r := Ok(key);
    }
  }

  /** The values `updateArticle` writes for a found row `previous`: the body blob, the
      cover blob and cover key, then the partial UPDATE when it has values. */
  method UpdateWrites(previous: ArticleRow, blobs: map<string, Blob>, slug: string, article: Article,
                      data: ArticleUpdate, sqlNow: Timestamp, tagsJson: Codec<seq<string>>)
    returns (row: ArticleRow, newBlobs: map<string, Blob>)
    requires RowToArticle(previous, tagsJson) == Some(article)
    ensures var covered := if data.coverImage.Some? then previous.(coverKey := Some(CoverKey(slug))) else previous;
            row == UpdatedRow(covered, data, Truthy(previous.publishedAt).Some?, sqlNow, tagsJson)
    ensures newBlobs == UpdatedBlobs(blobs, slug, previous.contentKey, data)
  {
    newBlobs := blobs;
    if data.content.Some? && data.content.value != [] {
      newBlobs := newBlobs[article.contentKey := Markdown(data.content.value)];
    }
    row := previous;
    if data.coverImage.Some? {
      newBlobs := newBlobs[CoverKey(slug) := Jpeg(data.coverImage.value)];
      row := row.(coverKey := Some(CoverKey(slug)));
    }
    var updates, values := BuildUpdate(data, article.publishedAt.Some?, tagsJson);
    if |values| > 0 {
      row := Execute(row, SetClause(updates, values), sqlNow);
    }
  }

  /** The bucket after `updateArticle`'s puts. */
  function UpdatedBlobs(blobs: map<string, Blob>, slug: string, contentKey: string, data: ArticleUpdate): (r: map<string, Blob>)
    ensures data.coverImage.Some? ==> CoverKey(slug) in r && r[CoverKey(slug)] == Jpeg(data.coverImage.value)
    ensures data.content.Some? && data.content.value != [] && contentKey != CoverKey(slug) ==>
              contentKey in r && r[contentKey] == Markdown(data.content.value)
    ensures forall k :: k in r && k != contentKey && k != CoverKey(slug) ==> k in blobs && r[k] == blobs[k]
    ensures forall k :: k in blobs && k != contentKey && k != CoverKey(slug) ==> k in r && r[k] == blobs[k]
    ensures !(data.content.Some? && data.content.value != []) && contentKey != CoverKey(slug) ==>
              (contentKey in r <==> contentKey in blobs) && (contentKey in blobs ==> r[contentKey] == blobs[contentKey])
    ensures data.coverImage.None? && (contentKey != CoverKey(slug) || !(data.content.Some? && data.content.value != [])) ==>
              (CoverKey(slug) in r <==> CoverKey(slug) in blobs) && (CoverKey(slug) in blobs ==> r[CoverKey(slug)] == blobs[CoverKey(slug)])
  {
    var withBody := if data.content.Some? && data.content.value != [] then blobs[contentKey := Markdown(data.content.value)] else blobs;
    if data.coverImage.Some? then withBody[CoverKey(slug) := Jpeg(data.coverImage.value)] else withBody
  }

/** The rows of a selection `sel` listed once each in `s`. */
  ghost predicate ListsSelection(rows: map<string, ArticleRow>, sel: set<string>, s: seq<ArticleRow>) {
    && (forall x :: x in s ==> x.slug in sel && x.slug in rows && rows[x.slug] == x)
    && (forall slug :: slug in sel ==> slug in rows && rows[slug].slug == slug && rows[slug] in s)
    && NoDuplicates(s)
  }

  /** A permutation of a selection lists the same selection. */
  lemma ReorderedSelection(rows: map<string, ArticleRow>, sel: set<string>, s: seq<ArticleRow>, t: seq<ArticleRow>)
    requires ListsSelection(rows, sel, s) && multiset(t) == multiset(s)
    ensures ListsSelection(rows, sel, t)
  {
    forall x ensures x in t <==> x in s {
      assert x in t <==> x in multiset(t);
      assert x in s <==> x in multiset(s);
    }
  }

  /** A row whose tags do not parse, in a listing, is a selected row whose tags do not parse. */
  lemma FailedSelection(rows: map<string, ArticleRow>, sel: set<string>, ordered: seq<ArticleRow>, tagsJson: Codec<seq<string>>)
    requires ListsSelection(rows, sel, ordered)
    requires exists k :: 0 <= k < |ordered| && RowToArticle(ordered[k], tagsJson).None?
    ensures exists slug :: slug in sel && RowToArticle(rows[slug], tagsJson).None?
  {
    var k :| 0 <= k < |ordered| && RowToArticle(ordered[k], tagsJson).None?;
    assert ordered[k] in ordered;
  }

  /** Converting a newest-first listing of a selection, row by row, gives every selected
      article exactly once, newest first. */
  lemma ListedArticles(rows: map<string, ArticleRow>, sel: set<string>, ordered: seq<ArticleRow>, articles: seq<Article>,
                       tagsJson: Codec<seq<string>>)
    requires ListsSelection(rows, sel, ordered) && Sorted(ordered, NewestFirst())
    requires |articles| == |ordered| && forall k :: 0 <= k < |ordered| ==> RowToArticle(ordered[k], tagsJson) == Some(articles[k])
    ensures !exists slug :: slug in sel && RowToArticle(rows[slug], tagsJson).None?
    ensures forall a :: a in articles ==> a.slug in sel && RowToArticle(rows[a.slug], tagsJson) == Some(a)
    ensures forall slug :: slug in sel ==> exists a :: a in articles && a.slug == slug
    ensures forall i, j :: 0 <= i < j < |articles| ==> articles[i].slug != articles[j].slug
    ensures forall i, j :: 0 <= i < j < |articles| ==> LexLe(articles[j].createdAt, articles[i].createdAt)
  {
    forall slug | slug in sel
      ensures RowToArticle(rows[slug], tagsJson).Some?
    {
      var k :| 0 <= k < |ordered| && ordered[k] == rows[slug];
    }
    forall a | a in articles
      ensures a.slug in sel && RowToArticle(rows[a.slug], tagsJson) == Some(a)
    {
      var k :| 0 <= k < |articles| && articles[k] == a;
      assert ordered[k] in ordered;
    }
    forall slug | slug in sel
      ensures exists a :: a in articles && a.slug == slug
    {
      var k :| 0 <= k < |ordered| && ordered[k] == rows[slug];
      assert RowToArticle(ordered[k], tagsJson) == Some(articles[k]);
      assert articles[k] in articles;
    }
    forall i, j | 0 <= i < j < |articles|
      ensures articles[i].slug != articles[j].slug
    {
      assert ordered[i] in ordered && ordered[j] in ordered;
      NoDuplicatesDistinct(ordered, i, j);
    }
    forall i, j | 0 <= i < j < |articles|
      ensures LexLe(articles[j].createdAt, articles[i].createdAt)
    {
      assert NewestFirst()(ordered[i], ordered[j]);
    }
  }

  /** `rows.map(rowToArticle)`: `JSON.parse` throwing on any row fails the whole list. */
  method ToArticles(rows: seq<ArticleRow>, tagsJson: Codec<seq<string>>) returns (r: Result<seq<Article>>)
    ensures r.Err? <==> exists k :: 0 <= k < |rows| && RowToArticle(rows[k], tagsJson).None?
    ensures r.Ok? ==> |r.value| == |rows| && forall k :: 0 <= k < |rows| ==> RowToArticle(rows[k], tagsJson) == Some(r.value[k])
  {
    var articles: seq<Article> := [];
    for i := 0 to |rows|
      invariant |articles| == i
      invariant forall k :: 0 <= k < i ==> RowToArticle(rows[k], tagsJson) == Some(articles[k])
    {
      var a := RowToArticle(rows[i], tagsJson);
      if a.None? {
        return Err("JSON.parse failed on tags");
      }
      articles := articles + [a.value];
    }
    r := Ok(articles);
  }
}
