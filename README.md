# A verified model of the blog's server and editor logic

This project models, in Dafny, the sequential logic of a Next.js blog that runs on
Cloudflare (D1 for rows, R2 for blobs), and proves properties of that model. It covers:

- the HMAC-signed `session` token of `src/lib/session.ts`, with its UTF-8 and base64 layers;
- the Cloudflare Access JWT checks of `src/lib/cf-auth.ts`;
- the in-memory `admin_token` registry of the OAuth callback and logout routes;
- the article store of `src/lib/articles.ts` and its create/list route;
- the users table of `src/lib/db.ts`;
- the RSS feed of `src/app/rss.xml/route.ts`: the item serialisation and the channel body;
- the tag editor, the publish hook, the talks page and the love page;
- the photo gallery page of `src/app/pictures/page.tsx` and its grid.

Pure logic in the source is modelled as functions. Code that changes state in place is
modelled as classes with `modifies` clauses. Each of those classes is a page's state, a
store or a table. Every loop in the source becomes a method with a loop, proved against a
specification function.

These are not built for real; they are parameters (`Session.Context`, `CfAuth.Verifier`,
`Json.Codec`, the clock, the `Math.random` oracle):

- HMAC-SHA256 (RFC 2104);
- RSASSA-PKCS1-v1_5 verification;
- `JSON.stringify`/`JSON.parse`;
- the clock;
- `Math.random`.

The properties the model relies on are predicates the lemmas require, for example that JSON
parsing undoes stringifying, or that a MAC tag is 32 bytes.

These are built for real:

- UTF-8 (RFC 3629, with the WHATWG `TextDecoder`);
- base64 (section 4 of RFC 4648; `atob` as the WHATWG forgiving-base64 decode);
- base64url (section 5 of RFC 4648);
- `String.prototype.split`.

Module layout:

- Shared modules: `Wrappers` (Option/Result), `Text` (trim, search, join, decimal), `StringSplit`, `Bytes`, `Utf8`, `Base64`, `Json`, `Sorting`.
- One module per source file: `Session`, `CfAuth`, `AuthRegistry` (callback and logout), `Articles`, `ArticlesRoute`, `Users`, `Rss`, `TagInput`, `Publish`, `Talks`, `Love`, `Pictures`, `Grid`.
- `ImageMap`: the gallery's pending-upload `Map` and its re-indexing.

## Model

| member | source | states |
|---|---|---|
| Session.GetSecret | src/lib/session.ts:7-9 | the key is the `GITHUB_CLIENT_SECRET` value when set and non-empty, else the development fallback; it is never empty |
| Session.Base64Encode | src/lib/session.ts:18-25 | the byte-copy loop yields the base64 text of the UTF-8 bytes of the input |
| Session.Base64Decode | src/lib/session.ts:28-35 | the char-code loop yields `atob` then `TextDecoder` of the input; an `atob` failure is `None` |
| Session.BtoaOfBytes | src/lib/session.ts:20-24 | `btoa` of the binary string of a byte sequence never throws and is the base64 encoding of those bytes |
| Session.DecodeEncodeText | src/lib/session.ts:18-35 | `base64Decode(base64Encode(s)) == s` for every string not starting with U+FEFF, multi-byte characters included |
| Session.DecodeEncodeTextDropsBom | src/lib/session.ts:34 | a leading U+FEFF is lost by the round trip, since `TextDecoder` drops it as a byte-order mark |
| Session.SignSession | src/lib/session.ts:38-60 | the token is the payload segment, `.`, then the signature segment over it; `split('.')` gives back exactly those two segments and `atob` of the second is the MAC of the first |
| Session.TokenShape | src/lib/session.ts:45-60 | both segments of a signed token are `.`-free base64 of length divisible by 4, the payload segment is non-empty, and `split('.')` gives back exactly the two segments |
| Session.VerifySession | src/lib/session.ts:64-95 | a token is accepted iff it is authentic (non-empty segments, signature decodes to the MAC of segment 1) and its payload decodes and parses and is not expired; the result is the parsed payload |
| Session.VerifyWellFormed | src/lib/session.ts:66-91 | on a token whose every step succeeds, the result is the payload unless `exp` is truthy and below `now` |
| Session.SignedSegments | src/lib/session.ts:38-60 | the segments of a signed token decode to the stamped payload and to its MAC over the payload segment |
| Session.VerifySignedSession | src/lib/session.ts:38-91 | a token signed at `t` verifies at any `now <= t + 604800000` to the caller's username and role with `exp = t + 604800000`, overriding the caller's `exp` |
| Session.SignedSessionExpires | src/lib/session.ts:87-89 | after `t + 604800000` the signed token is rejected |
| Session.NoSeparatorRejected | src/lib/session.ts:66-67 | a token without `.` is rejected |
| Session.EmptySegmentRejected | src/lib/session.ts:66-67 | an empty payload or signature segment is rejected |
| Session.Utf8Injective | src/lib/session.ts:57 | different payload segments have different UTF-8 bytes, so the MAC sees them as different messages |
| Session.TamperedPayloadRejected | src/lib/session.ts:79-82 | with an injective MAC, replacing the payload segment while keeping the signature makes verification fail |
| Session.BadSignatureRejected | src/lib/session.ts:79-82 | a signature segment that fails `atob` or does not decode to the MAC of the payload segment is rejected |
| Session.ExtraSegmentsIgnored | src/lib/session.ts:66 | text after a second `.` does not change the verdict |
| Utf8.EncodeChar | src/lib/session.ts:19 | one scalar value encodes to 1 to 4 bytes |
| Utf8.DecodeOne | src/lib/session.ts:34 | one decoder step consumes between 1 and 4 bytes and never more than are left |
| Utf8.DecodeOneEncodeChar | src/lib/session.ts:19-34 | the decoder reads back one encoded character, whatever follows it |
| Utf8.DecodeStreamEncode | src/lib/session.ts:19-34 | decoding the byte stream of an encoding gives the string back |
| Utf8.EncodeStartsWithBom | src/lib/session.ts:19 | an encoding starts with EF BB BF iff the string starts with U+FEFF |
| Utf8.DecodeEncode | src/lib/session.ts:19-34 | `TextDecoder` undoes `TextEncoder` on every string not starting with U+FEFF |
| Utf8.DecodeEncodeDropsBom | src/lib/session.ts:34 | on a string starting with U+FEFF the round trip loses that first character |
| Utf8.EncodeAppend | src/lib/session.ts:19 | the encoding of a concatenation is the concatenation of the encodings |
| Utf8.EncodeAscii | src/lib/session.ts:59 | characters below U+0080 encode as one byte each, equal to the character's code |
| Base64.ValueOf | src/lib/session.ts:29 | an alphabet character has a value below 64 that maps back to it |
| Base64.CharOfIsAlphabet | src/lib/session.ts:24 | every value below 64 names an alphabet character whose value it is |
| Base64.EncodeGroup | src/lib/session.ts:24 | three bytes encode as four alphabet characters |
| Base64.Unpadded | src/lib/session.ts:24 | the unpadded encoding uses alphabet characters only |
| Base64.UnpaddedLength | src/lib/session.ts:24 | the unpadded length mod 4 is 0 for whole groups, else the leftover byte count plus one |
| Base64.RemoveAsciiWhitespace | src/lib/session.ts:29 | the forgiving decoder's first step leaves no ASCII whitespace |
| Base64.DecodeGroup | src/lib/session.ts:29 | four characters decode to three bytes |
| Base64.Atob | src/lib/session.ts:29 | a successful `atob` yields a binary string |
| Base64.DecodeEncodeGroup | src/lib/session.ts:24-29 | decoding a 4-character group gives its three bytes back |
| Base64.DecodeTail2 | src/lib/session.ts:24-29 | a final two-byte group round-trips |
| Base64.DecodeTail1 | src/lib/session.ts:24-29 | a final one-byte group round-trips |
| Base64.DecodeUnpadded | src/lib/session.ts:24-29 | decoding the unpadded characters gives the bytes back |
| Base64.EncodeShape | src/lib/session.ts:24 | an encoding has length divisible by 4 and consists of alphabet characters and `=` |
| Base64.EncodeHasNoDot | src/lib/session.ts:24 | an encoding never contains `.`, the token separator |
| Base64.DecodeEncode | src/lib/session.ts:24-29 | forgiving decoding undoes padded encoding |
| Base64.AtobBtoa | src/lib/session.ts:24-29 | `atob(btoa(s)) == s` for every binary string |
| Base64.AtobUnpadded | src/lib/cf-auth.ts:58 | `atob` accepts the unpadded encoding and decodes it to the bytes |
| Base64.AtobRejects | src/lib/session.ts:29 | `atob` fails on a character that is neither whitespace, padding nor in the alphabet |
| Base64.AtobIgnoresLeftoverBits | src/lib/session.ts:29 | `atob` is not injective: "QQ==" and "QR==" both decode to the one byte 0x41 |
| Bytes.ToBinaryString | src/lib/session.ts:20-23 | the string's characters are the bytes' values, one per byte, all below 256 |
| Bytes.FromBinaryString | src/lib/session.ts:30-33 | the bytes are the characters' codes, one per character |
| Bytes.BinaryStringRoundTrip | src/lib/session.ts:20-33 | reading the char codes of the binary string gives the bytes back |
| StringSplit.Split | src/lib/session.ts:66 | `split` gives at least one part, and no part contains the separator |
| StringSplit.JoinSplit | src/lib/session.ts:66 | joining the parts with the separator gives the string back |
| StringSplit.SplitNone | src/lib/session.ts:66 | a string without the separator is a single part |
| StringSplit.SplitFirst | src/lib/session.ts:66 | the first separator ends the first part |
| StringSplit.SplitPair | src/lib/session.ts:66 | two separator-free segments joined by the separator split back into exactly those two |
| CfAuth.KeyIndex | src/lib/cf-auth.ts:44-45 | the key index is absent iff no key has the `kid`, and otherwise names the first key with it |
| CfAuth.FindKey | src/lib/cf-auth.ts:44-45 | `find` returns a listed key with the `kid`, and is absent iff none has it |
| CfAuth.FromUrlAlphabet | src/lib/cf-auth.ts:58 | `-` becomes `+`, `_` becomes `/`, every other character is kept in place |
| CfAuth.ToUrlAlphabet | src/lib/cf-auth.ts:58 | the inverse of that line's translation, standing for the token issuer's encoding: same length, `+` becomes `-`, `/` becomes `_`, every other character is kept; on text without `-` or `_` that line translates it back |
| CfAuth.UrlEncodeDecodes | src/lib/cf-auth.ts:58 | a base64url signature is `.`-free, and translated back it decodes to its bytes |
| CfAuth.VerifyAccessJwt | src/lib/cf-auth.ts:34-82 | an accepted token has at least three segments, the certificates were fetched, its header decodes and names a published key, its translated signature segment decodes and verifies with that key over exactly the UTF-8 of `parts[0] + "." + parts[1]`, and the result is the decoded payload, which carries the audience and has not expired |
| CfAuth.SplitThree | src/lib/cf-auth.ts:39-57 | a three-segment token splits into its segments |
| CfAuth.AcceptsValidToken | src/lib/cf-auth.ts:34-77 | a token with a known key, a signature valid over `header.payload`, the audience and no expiry is accepted with exactly its claims |
| CfAuth.UnknownKeyRejected | src/lib/cf-auth.ts:44-45 | a header naming no published key is rejected |
| CfAuth.BadSignatureRejected | src/lib/cf-auth.ts:57-68 | any token whose signature segment `atob` accepts, in whatever form and with whatever segments after it, but which does not verify with the header's key over exactly `header.payload`, is rejected |
| CfAuth.ClaimsDecide | src/lib/cf-auth.ts:71-77 | with key and signature in order, the token is accepted iff the audience is listed and `exp * 1000` is not before the clock |
| CfAuth.UrlCharInHeaderOrPayloadRejected | src/lib/cf-auth.ts:40-71 | a `-` or `_` in the header or payload segment makes `atob` throw, so the token is rejected |
| CfAuth.ShortTokenRejected | src/lib/cf-auth.ts:57-81 | a token with fewer than three segments is rejected |
| CfAuth.FirstMatch | src/lib/cf-auth.ts:88 | the leftmost match at or after a position, or none at all |
| CfAuth.UpToSemicolon | src/lib/cf-auth.ts:88 | the capture is the longest `;`-free prefix |
| CfAuth.CookieToken | src/lib/cf-auth.ts:88 | there is no token iff the pattern matches nowhere; a token is non-empty and `;`-free |
| CfAuth.LeadingCookieToken | src/lib/cf-auth.ts:88 | a header starting with `CF_Authorization=t` gives `t` |
| CfAuth.UpToSemicolonExact | src/lib/cf-auth.ts:88 | the capture stops exactly at the next `;` |
| CfAuth.NoNameBoundary | src/lib/cf-auth.ts:88 | text glued in front of the cookie name is ignored; there is no name-boundary check |
| CfAuth.GetUserFromRequest | src/lib/cf-auth.ts:85-100 | the cookie token takes precedence; without one a non-empty assertion header is verified; with neither there is no user |
| AuthRegistry.Pick | src/app/api/auth/callback/route.ts:15 | `floor(x * 62)` is a valid alphabet index for `x` in [0, 1) |
| AuthRegistry.GenerateToken | src/app/api/auth/callback/route.ts:11-17 | exactly 64 characters, each the alphabet character its random draw picks |
| AuthRegistry.SiteUrl | src/app/api/auth/callback/route.ts:25 | the configured site URL when set and non-empty, else the localhost default |
| AuthRegistry.Admitted | src/app/api/auth/callback/route.ts:63-65 | an empty allowed user admits every login; otherwise only that login is admitted |
| AuthRegistry.AfterLogout | src/app/api/auth/logout/route.ts:7-12 | a present, non-empty cookie token is gone; every other entry is kept unchanged |
| AuthRegistry.LogoutIdempotent | src/app/api/auth/logout/route.ts:10-12 | logging out twice leaves the registry as logging out once does |
| AuthRegistry.Registry.constructor | src/app/api/auth/callback/route.ts:21 | the registry starts empty |
| AuthRegistry.Registry.Callback | src/app/api/auth/callback/route.ts:23-87 | no code, no access token, a failed call or an unadmitted login leaves the registry unchanged with the matching error redirect; success adds exactly `token ↦ (now + 604800000, login)` and sets the cookie with `maxAge` 604800 |
| AuthRegistry.Registry.Logout | src/app/api/auth/logout/route.ts:7-18 | the registry becomes `AfterLogout` of the old one, and the response is always `{success: true}` with `admin_token` deleted |
| Articles.Truthy | src/lib/articles.ts:47 | `x \|\| undefined`: present iff the column is non-NULL and non-empty, and then unchanged |
| Articles.RowToArticle | src/lib/articles.ts:42-58 | it fails iff non-empty tags do not parse; id, slug, title, author, content key, status, views and both timestamps are copied; a NULL or empty `summary`, `cover_key` or `published_at` becomes absent and a present one is copied; NULL or empty `tags` become `[]` and non-empty ones are `JSON.parse` of the column |
| Articles.BlobKeysInjective | src/lib/articles.ts:130-131 | different slugs store their bodies, and their covers, under different keys |
| Articles.ContentCoverDistinct | src/lib/articles.ts:130-131 | a body key never equals a cover key |
| Articles.NewestFirstIsPreorder | src/lib/articles.ts:85 | `ORDER BY created_at DESC` is a total preorder |
| Articles.NewRow | src/lib/articles.ts:130-163 | the inserted row: keys `articles/<slug>/content.md` and, only with an image, `cover.jpg`; an empty summary is NULL; author defaults to `Villode`; status defaults to `draft`; `published_at` is set iff the status is `published` |
| Articles.Placeholders | src/lib/articles.ts:207-229 | the count is exactly the number of `col = ?` positions in the SET list |
| Articles.UpdatedRow | src/lib/articles.ts:207-233 | the row after the partial update: unsupplied fields, id, slug, author, views, keys and `created_at` unchanged; an empty title ignored; an empty summary cleared; `published_at` only ever written when the status becomes `published` and it was absent; nothing changes when no row field is supplied |
| Articles.Push | src/lib/articles.ts:211-226 | one push keeps `?` items and bound values in step and sets that column in the SET clause |
| Articles.PushTitle | src/lib/articles.ts:210-213 | a non-empty title adds `title = ?` with its value |
| Articles.PushSummary | src/lib/articles.ts:214-217 | a supplied summary adds `summary = ?`, an empty one bound as NULL |
| Articles.PushTags | src/lib/articles.ts:218-221 | supplied tags add `tags = ?` with their JSON text |
| Articles.PushStatus | src/lib/articles.ts:222-228 | a non-empty status adds `status = ?`, and `published_at = CURRENT_TIMESTAMP` on first publication |
| Articles.BuildUpdate | src/lib/articles.ts:207-233 | the `?` count equals the number of bound values; the UPDATE runs iff a row field is supplied; running it leaves exactly `UpdatedRow` |
| Articles.IntendedClausePlanned | src/lib/articles.ts:207-228 | the clause the pushes build stamps `updated_at` and binds each supplied field |
| Articles.ExecutePlannedClause | src/lib/articles.ts:230-233 | running any clause that follows that plan leaves the row `UpdatedRow` describes |
| Articles.ArticleStore.constructor | src/lib/articles.ts:61-74 | the store starts with the given bindings and empty tables |
| Articles.ArticleStore.GetArticleBySlug | src/lib/articles.ts:92-102 | no database or no row gives `null`; a row whose tags do not parse throws; otherwise it is the converted row |
| Articles.ArticleStore.GetArticles | src/lib/articles.ts:77-89 | no database gives `[]`; the result lists every row with the truthy status (or every row) once, converted, newest `created_at` first; one unparsable row fails the call |
| Articles.ArticleStore.SelectRows | src/lib/articles.ts:81-87 | the query returns every selected row exactly once |
| Articles.ArticleStore.CreateArticle | src/lib/articles.ts:117-170 | without bindings it throws and changes nothing; otherwise the body, and the cover only if given, are stored first; a new slug inserts `NewRow` with the next id; an existing slug fails the insert |
| Articles.UpdateWrites | src/lib/articles.ts:190-233 | the writes of an update leave the row `UpdatedRow` of the previous row with its cover key, and the blobs `UpdatedBlobs` |
| Articles.ArticleStore.UpdateArticle | src/lib/articles.ts:173-236 | no bindings or unknown slug gives `null` and changes nothing; otherwise it does the blob puts, sets the cover key, leaves the row `UpdatedRow`, and returns the row read back |
| Articles.ArticleStore.ApplyUpdate | src/lib/articles.ts:190-233 | the writes once the article is found: blobs, cover key, then the partial UPDATE |
| Articles.ArticleStore.DeleteArticle | src/lib/articles.ts:239-256 | an unknown slug gives `false` and changes nothing; otherwise the row, its body blob and its cover blob (if any) are removed and the result is `true` |
| Articles.ArticleStore.IncrementViews | src/lib/articles.ts:259-264 | that row's `views` goes up by exactly 1; no other row or blob changes |
| Articles.ArticleStore.UploadArticleImage | src/lib/articles.ts:267-277 | the blob is stored at `articles/<slug>/images/<filename>` and that key is returned; without a bucket it throws |
| Articles.UpdatedBlobs | src/lib/articles.ts:191-203 | a given cover goes to `cover.jpg`, non-empty content to the body key; every other key keeps exactly its old blob and no key is added or dropped, and a body or cover key that is not written keeps its old blob or stays absent |
| Articles.ReorderedSelection | src/lib/articles.ts:85-87 | a permutation of a selection lists the same selection |
| Articles.FailedSelection | src/lib/articles.ts:88 | a listing that contains an unparsable row means a selected row is unparsable |
| Articles.ListedArticles | src/lib/articles.ts:85-88 | converting a newest-first listing gives every selected article exactly once, newest first |
| Articles.ToArticles | src/lib/articles.ts:88 | `map(rowToArticle)` fails iff some row fails, and otherwise converts each row in place |
| ArticlesRoute.ArticleInput | src/app/api/articles/route.ts:40-49 | the article's author is the session's username, never a body field; slug, title and content come from the body |
| ArticlesRoute.FailureResponse | src/app/api/articles/route.ts:51-57 | a message containing `not available` gives 500 with the local-development notice; any other non-empty message gives 500 with that message |
| ArticlesRoute.Get | src/app/api/articles/route.ts:9-20 | the 200 body is `getArticles(status \|\| undefined)`: every selected row exactly once, each the converted row of its slug, newest first; without a database it is the empty list; with one, the answer is the fixed 500 exactly when some selected row's tags do not parse |
| ArticlesRoute.Post | src/app/api/articles/route.ts:22-59 | no cookie or a failed `verifySession` gives 401, a missing slug, title or content gives 400, and none of these stores anything; otherwise a missing binding gives 500 with the local-development notice and changes nothing; with both bindings the body blob is written, an existing slug gives 500 and leaves the rows, and a new slug inserts the row built from the session's username and answers 200 with the created article as read back (or 500 when its tags do not parse) |
| ArticlesRoute.MissingBindingNotice | src/app/api/articles/route.ts:51-54 | the store's missing-binding error becomes the local-development notice |
| Users.NewUserRole | src/lib/db.ts:86-87 | the new user is admin iff the table is empty |
| Users.GetOrCreate | src/lib/db.ts:72-100 | a known id only has `last_login_at` refreshed and keeps its role; a new id is inserted as admin on an empty table and as user otherwise, and returned with the inserted id, email and role; a taken email fails the insert; the table grows by at most one row and a success leaves a row for `sub` |
| Users.LoginKeepsWellFormed | src/lib/db.ts:52-100 | a login keeps rows filed under their id with unique emails, and a returned user has id `sub` |
| Users.FirstUserIsAdmin | src/lib/db.ts:86-98 | the first login on an empty table returns an admin |
| Users.UpdateRole | src/lib/db.ts:108-110 | only that user's role changes; an unknown id changes nothing |
| Users.UpdateRoleKeepsWellFormed | src/lib/db.ts:108-110 | a role update keeps the table's constraints |
| Users.NewestCreatedFirstIsPreorder | src/lib/db.ts:114 | `ORDER BY created_at DESC` is a total preorder |
| Users.ReorderedListing | src/lib/db.ts:114-115 | a permutation of a complete listing is a complete listing |
| Users.UserTable.constructor | src/lib/db.ts:52-58 | the table starts empty |
| Users.UserTable.GetOrCreateUser | src/lib/db.ts:72-100 | the table and result are exactly those `GetOrCreate` describes, and the constraints hold |
| Users.UserTable.GetUser | src/lib/db.ts:103-105 | the row filed under `sub`, or none iff there is none |
| Users.UserTable.UpdateUserRole | src/lib/db.ts:108-110 | the table becomes `UpdateRole` of the old one |
| Users.UserTable.GetAllUsers | src/lib/db.ts:113-116 | every row exactly once, newest `created_at` first |
| Users.AppendFresh | src/lib/db.ts:114-115 | appending a row not yet listed keeps the listing free of duplicates |
| Rss.SiteOrigin | src/app/rss.xml/route.ts:6-8 | the origin is the configured URL (or the default) with one trailing `/` removed if present |
| Rss.EscapeXmlIsEscapeEach | src/app/rss.xml/route.ts:10-11 | because `&` is replaced first, the five chained replacements escape each character on its own |
| Rss.EscapeCharChain | src/app/rss.xml/route.ts:11 | one character goes through the chain as its own entity, or unchanged |
| Rss.AmpSurvives | src/app/rss.xml/route.ts:11 | the later replacements leave `&amp;` alone |
| Rss.ReplaceCharAppend | src/app/rss.xml/route.ts:11 | a global replace distributes over concatenation |
| Rss.ReplaceFree | src/app/rss.xml/route.ts:11 | replacing an absent character changes nothing |
| Rss.EscapedTextAppend | src/app/rss.xml/route.ts:11 | well-escaped texts concatenate to well-escaped text |
| Rss.EscapeXmlEscaped | src/app/rss.xml/route.ts:10-11 | the output has no `<`, `>`, `"` or `'`, and every `&` begins one of the five entities |
| Rss.UnescapeEscapeXml | src/app/rss.xml/route.ts:10-11 | decoding the five entities recovers the input exactly |
| Rss.EscapeXmlUnchanged | src/app/rss.xml/route.ts:10-11 | the output equals the input iff the input has none of the five characters |
| Rss.EscapeEachUnchanged | src/app/rss.xml/route.ts:11 | per-character escaping never shortens, and is the identity iff nothing is special |
| Rss.WrapCdataRecovers | src/app/rss.xml/route.ts:13 | `<![CDATA[v]]>` reads back as exactly `v` iff `v` contains no `]]>` |
| Rss.NoEarlyClose | src/app/rss.xml/route.ts:13 | a section around `]]>`-free text does not close before the text ends |
| Rss.NonEmptyTags | src/app/rss.xml/route.ts:20-21 | `filter(Boolean)` keeps only non-empty tags |
| Rss.CategoryElements | src/app/rss.xml/route.ts:22 | one escaped `<category>` element per tag, in place |
| Rss.ParseCategoryElement | src/app/rss.xml/route.ts:22 | a reader takes one element's decoded text off the front |
| Rss.CategoriesRoundTrip | src/app/rss.xml/route.ts:20-23 | the categories read back as exactly the non-empty tags, in order |
| Rss.ElementsRoundTrip | src/app/rss.xml/route.ts:22-23 | the joined elements read back as the tags |
| Rss.SerializeItemParts | src/app/rss.xml/route.ts:15-34 | the item is exactly the `<item>` element; its title decodes to `title \|\| slug`; the link is `origin + "/blog/" + slug` and the guid is that link escaped; the summary sits in CDATA; the date is the publication time, else the creation time; the categories read back as the non-empty tags |
| Rss.OrDefault | src/app/rss.xml/route.ts:37-38 | the site title or description when set and non-empty, else the default |
| Rss.ItemsParts | src/app/rss.xml/route.ts:41-42 | `published.map(serializeItem)` has one entry per published article, in listing order, each the `<item>` element of that article's parts, with its title and categories reading back |
| Rss.FeedParts | src/app/rss.xml/route.ts:36-58 | the body is the channel header, the joined items and the footer; the channel title and description are well-escaped and decode to the site's values or the defaults `2025 Blog` and `Latest updates from 2025 Blog` |
| Rss.ChannelText | src/app/rss.xml/route.ts:37-38 | a channel text is well-escaped and decodes to the site's value, or to the default when that is unset or empty |
| TagInput.AddTag | src/app/write/components/ui/tag-input.tsx:12-15 | a blank or already-present trimmed value changes nothing; otherwise it is appended at the end and the earlier tags keep their order |
| TagInput.RemoveTag | src/app/write/components/ui/tag-input.tsx:18-20 | an index in range removes exactly that tag and keeps the order; an out-of-range index changes nothing |
| TagInput.AddKeepsDistinct | src/app/write/components/ui/tag-input.tsx:12-13 | a duplicate-free list stays duplicate-free after any add |
| TagInput.RemoveKeepsDistinct | src/app/write/components/ui/tag-input.tsx:19 | removing keeps a duplicate-free list duplicate-free |
| TagInput.RemoveDropsTag | src/app/write/components/ui/tag-input.tsx:19 | in a duplicate-free list, the removed tag is gone |
| TagInput.RemoveKeepsOthers | src/app/write/components/ui/tag-input.tsx:19 | every other tag stays |
| TagInput.RemovePositions | src/app/write/components/ui/tag-input.tsx:19 | the length drops by one, and each remaining tag comes from its old position or the next one |
| TagInput.TagEditor.constructor | src/app/write/components/ui/tag-input.tsx:8-9 | the editor starts with the form's tags and an empty text box |
| TagInput.TagEditor.SetInput | src/app/write/components/ui/tag-input.tsx:41 | typing sets the text box and leaves the tags alone |
| TagInput.TagEditor.HandleAddTag | src/app/write/components/ui/tag-input.tsx:12-16 | the tags become `AddTag` of the old ones; the text box is cleared exactly when a tag was added |
| TagInput.TagEditor.HandleRemoveTag | src/app/write/components/ui/tag-input.tsx:18-20 | the tags become `RemoveTag` of the old ones; the text box is untouched |
| Publish.Or | src/app/write/hooks/use-publish.ts:60 | `a \|\| b` on strings: `a` when non-empty, else `b` |
| Publish.PublishRequest | src/app/write/hooks/use-publish.ts:24-37 | edit mode sends PUT to `/api/articles/<originalSlug \|\| slug>`, otherwise POST to `/api/articles`; the body always carries `status: 'published'` and `content = form.md` |
| Publish.Verdict | src/app/write/hooks/use-publish.ts:40-79 | success iff the response is `ok`; otherwise the response's `error`, the thrown message, or the fallback text |
| Publish.WriteStore.constructor | src/app/write/hooks/use-publish.ts:7 | the store starts with the given form, mode and original slug, not loading |
| Publish.WriteStore.BeginPublish | src/app/write/hooks/use-publish.ts:10-27 | a non-admin or a form missing slug, title or markdown gets its error toast, no request and an untouched `loading`; otherwise `loading` is raised and `PublishRequest` is sent |
| Publish.WriteStore.FinishPublish | src/app/write/hooks/use-publish.ts:40-51 | `loading` is false on every outcome, and the toast is the verdict with the mode's success text |
| Publish.WriteStore.BeginDelete | src/app/write/hooks/use-publish.ts:54-69 | a non-admin or an empty `originalSlug \|\| slug` gets its error toast and no request; otherwise `loading` is raised and DELETE goes to `/api/articles/<target>` |
| Publish.WriteStore.FinishDelete | src/app/write/hooks/use-publish.ts:70-82 | `loading` is false on every outcome, and the toast is the delete verdict |
| Talks.Classify | src/app/talks/page.tsx:41-51 | each label holds exactly on its range of `diff` (under a minute, including negative; under an hour; under a day; under a week; older), so the labels are exclusive and exhaustive; the number shown lies in 1..59, 1..23 or 1..6 and is the floor of the quotient |
| Talks.JustNowExactly | src/app/talks/page.tsx:41-46 | "刚刚" is shown iff the difference is under 60000 ms |
| Talks.RenderReadsBack | src/app/talks/page.tsx:47-49 | a relative label's text determines its bucket and number |
| Talks.TalksPage.constructor | src/app/talks/page.tsx:15-57 | the page starts with the four sample talks and a closed, empty compose box |
| Talks.TalksPage.OpenCompose | src/app/talks/page.tsx:90 | the compose box opens; nothing else changes |
| Talks.TalksPage.SetContent | src/app/talks/page.tsx:104 | typing sets the text; nothing else changes |
| Talks.TalksPage.Cancel | src/app/talks/page.tsx:113-114 | the box closes and its text is dropped; the talks are unchanged |
| Talks.TalksPage.HandlePublish | src/app/talks/page.tsx:60-73 | blank text changes nothing; otherwise exactly one talk with the trimmed text is put in front, the others keep their order, and the box is closed and cleared |
| Love.Step | src/app/love/page.tsx:34-137 | light moves to the question; submit keeps stage and answer and sets the fixed message; back returns to the initial state; editing sets the answer and clears the error |
| Love.ContactsUnreachable | src/app/love/page.tsx:30-137 | no sequence of handler calls from a non-contacts state reaches `'contacts'` |
| Love.SubmitEnabled | src/app/love/page.tsx:156 | submit is enabled iff the answer has non-whitespace content |
| Love.LovePage.constructor | src/app/love/page.tsx:30-32 | the page starts at `'quotes'` with empty answer and error |
| Love.LovePage.HandleLight | src/app/love/page.tsx:34-36 | the state becomes the `Light` step of the old state |
| Love.LovePage.HandleSubmit | src/app/love/page.tsx:38-42 | the state becomes the `Submit` step of the old state |
| Love.LovePage.HandleBack | src/app/love/page.tsx:44-48 | the state becomes the `Back` step of the old state |
| Love.LovePage.OnAnswerChange | src/app/love/page.tsx:134-137 | the state becomes the edit step of the old state |
| Pictures.NewPicture | src/app/pictures/page.tsx:86-96 | the appended picture has the given id and time, no `image`, and an `images` entry per item, each the item's link or preview URL |
| Pictures.NewPictureDescription | src/app/pictures/page.tsx:87 | the new picture's description is absent exactly when the typed one is blank, and otherwise is it trimmed |
| Pictures.UploadKeepsValid | src/app/pictures/page.tsx:86-104 | appending a picture under a fresh id and its file items' slots keeps the pending map ordered and backed |
| Pictures.Upload | src/app/pictures/page.tsx:98-107 | the list grows by exactly the new picture, the pending map by exactly the file items' slots, and both invariants hold afterwards |
| Pictures.RemoveAt | src/app/pictures/page.tsx:124 | exactly the entry at `i` goes and the rest keep their order; an index past the end removes nothing |
| Pictures.Shrunk | src/app/pictures/page.tsx:115-135 | `'single'` drops the picture; an index drops that image, and the picture too when none is left; a picture without images is kept as it is |
| Pictures.RemovePicture | src/app/pictures/page.tsx:187 | a picture survives iff it was listed and has another id |
| Pictures.DeleteImageAbsent | src/app/pictures/page.tsx:112-138 | without a picture of that id the list is unchanged |
| Pictures.DeleteImageAt | src/app/pictures/page.tsx:112-138 | with the id at one position only, that picture alone is replaced by what `Shrunk` makes of it and the others keep their order |
| Pictures.SingleRemovesPicture | src/app/pictures/page.tsx:118-187 | deleting `'single'` leaves the same list as deleting the whole group |
| Pictures.DeleteImageKeeps | src/app/pictures/page.tsx:112-138 | pictures of other ids survive, and so does the shrunken picture of this id |
| Pictures.FreshHasNoKeys | src/app/pictures/page.tsx:86 | a pending file always names a listed picture, so a new id has none |
| Pictures.FileSlotKeys | src/app/pictures/page.tsx:100-104 | the keys an upload sets are those of the new picture, at indexes below the item count |
| Pictures.UploadBacked | src/app/pictures/page.tsx:98-107 | after an upload every pending file still names an image slot of a listed picture |
| Pictures.DropBacked | src/app/pictures/page.tsx:118-149 | deleting a whole picture and its keys keeps every pending file backed by a slot |
| Pictures.ShrunkKeepsSlot | src/app/pictures/page.tsx:122-133 | after image `i` goes, slots below `i` stay and slots from `i` on are what the next slot up was |
| Pictures.ReindexBacked | src/app/pictures/page.tsx:122-179 | deleting one image and reindexing its keys keeps every pending file backed by a slot |
| Pictures.PicturesPage.constructor | src/app/pictures/page.tsx:25-30 | both lists start as the initial list, no pending files, all flags down |
| Pictures.PicturesPage.HandleUploadSubmit | src/app/pictures/page.tsx:78-109 | no items: the error and nothing else; otherwise exactly one picture appended, the file items recorded under the new id, the dialog closed, and the invariant kept |
| Pictures.PicturesPage.HandleDeleteSingleImage | src/app/pictures/page.tsx:111-182 | the list becomes `DeleteImage` of the old one; `'single'` drops the picture's keys, an index deletes that key and moves the higher ones down; the invariant is kept |
| Pictures.PicturesPage.HandleDeleteGroup | src/app/pictures/page.tsx:184-197 | declined: nothing changes; confirmed: the picture and its keys go, the invariant is kept |
| Pictures.PicturesPage.HandleSave | src/app/pictures/page.tsx:218-237 | success makes the edited list the saved one, forgets the pending files and leaves edit mode; failure changes only the toast; `isSaving` ends false either way |
| Pictures.PicturesPage.HandleCancel | src/app/pictures/page.tsx:239-243 | the edited list returns to the saved one, with no pending files, out of edit mode |
| Pictures.DeletePictureKeys | src/app/pictures/page.tsx:143-194 | the loop leaves exactly `DropPicture` of the map |
| Pictures.AddUploads | src/app/pictures/page.tsx:98-104 | under a fresh id the loop appends exactly the file items' slots, in order |
| Pictures.CollectRenames | src/app/pictures/page.tsx:156-169 | the loop collects exactly `Renames` of the map |
| Pictures.RenameKeys | src/app/pictures/page.tsx:172-178 | the loop leaves exactly the renames applied first to last |
| ImageMap.Get | src/app/pictures/page.tsx:173 | a lookup finds a value iff the key is in the map |
| ImageMap.Put | src/app/pictures/page.tsx:102-175 | `set` adds its key; a new key lengthens the map by one, a present key keeps its length |
| ImageMap.Delete | src/app/pictures/page.tsx:147-176 | `delete` removes exactly that key |
| ImageMap.DropPictureLookup | src/app/pictures/page.tsx:143-149 | after deleting every key of picture `id`, none of its keys is left and every other key keeps its item |
| ImageMap.DropPictureOrdered | src/app/pictures/page.tsx:143-149 | deleting a picture's keys keeps the per-picture ascending order |
| ImageMap.FileSlotsLookup | src/app/pictures/page.tsx:100-104 | the key `id::k` holds the item at position `k` exactly when that item is a file |
| ImageMap.UploadLookup | src/app/pictures/page.tsx:98-104 | after an upload under a fresh id, old keys keep their items and `id::k` is set exactly for the file items |
| ImageMap.UploadOrdered | src/app/pictures/page.tsx:98-104 | an upload under a fresh id keeps the per-picture ascending order |
| ImageMap.ReindexedKeepsOthers | src/app/pictures/page.tsx:150-179 | keys of other pictures, and keys of this picture below the deleted index, keep their items |
| ImageMap.ReindexedMovesDown | src/app/pictures/page.tsx:150-179 | key `id::x` at or above the deleted index now holds what `id::(x+1)` held, or is absent if that was |
| ImageMap.ReindexedOrdered | src/app/pictures/page.tsx:150-179 | the reindexed map keeps the per-picture ascending order |
| ImageMap.DescendingOrderOverwrites | src/app/pictures/page.tsx:156-178 | were a picture's keys in descending order, the renaming would lose an item, so the ascending order the page keeps is what makes it correct |
| Grid.BuildImageList | src/app/pictures/components/grid-layout.tsx:26-56 | the loop builds exactly `ImageList` |
| Grid.ImageListDescribes | src/app/pictures/components/grid-layout.tsx:29-53 | every card copies its picture's id, description and time, carries its position, and shows the `image` (for `'single'`) or the `images` entry at its index |
| Grid.ImageListLength | src/app/pictures/components/grid-layout.tsx:29-53 | one card per non-empty `image` and per `images` entry |
| Grid.ImageListAscending | src/app/pictures/components/grid-layout.tsx:29-53 | cards come by picture, `'single'` before the indexed ones, indexes ascending |
| Grid.ImageListComplete | src/app/pictures/components/grid-layout.tsx:29-53 | every non-empty `image` and every `images` entry gets a card |
| Grid.DisplayOrder | src/app/pictures/components/grid-layout.tsx:148-156 | the displayed cards are a permutation of the built list, newest first, a missing time counting as 0 |
| Grid.IndexTextInjective | src/app/pictures/components/grid-layout.tsx:190 | the index part of a card key determines the target |
| Grid.RenderKeyInjective | src/app/pictures/components/grid-layout.tsx:190 | equal card keys mean the same picture id and target, whatever dashes the id holds |
| Grid.RenderKeysUnique | src/app/pictures/components/grid-layout.tsx:148-190 | with distinct picture ids, the displayed cards have pairwise distinct keys |
| Sorting.Sort | src/app/pictures/components/grid-layout.tsx:151-155 | the sort returns a permutation of its input |
| Sorting.SortSorted | src/app/pictures/components/grid-layout.tsx:151-155 | under a total preorder the result is in order |
| Sorting.LexLeTotal | src/lib/articles.ts:85 | the string order is total |
| Sorting.LexLeTransitive | src/lib/articles.ts:85 | the string order is transitive |
| Sorting.LexLeAntisymmetric | src/lib/articles.ts:85 | the string order is antisymmetric |
| Text.Trim | src/app/talks/page.tsx:61 | the result is empty iff the input is all whitespace, is a slice of the input, and neither starts nor ends with whitespace |
| Text.TrimExact | src/app/talks/page.tsx:61 | trimming strips exactly the whitespace around a core that is bounded by non-whitespace |
| Text.NatToStringValue | src/app/pictures/components/grid-layout.tsx:190 | the decimal text of a number reads back as that number |

## Left out

- I/O: network calls (`fetch`, the GitHub OAuth endpoints, the Cloudflare key set) are given by their outcomes; D1 and R2 are in-memory maps; `getDB` and the binding lookup are store flags.
- Cryptography: HMAC-SHA256, RSASSA-PKCS1-v1_5 and `crypto.subtle` key import are parameters with the properties the lemmas require, not implementations.
- JSON: `JSON.stringify`/`JSON.parse` are an abstract codec whose round trip is a requirement, not a theorem.
- Dates: `new Date`, `toISOString`, `toUTCString`, `Date.now` are parameters. The talks page's month and day are arguments. The grid turns `uploadedAt` into a number through a `time` parameter, so an invalid date's `NaN` is not modelled.
- Grid.DisplayOrder: `Array.prototype.sort` is stable, but the model claims only a permutation in non-increasing time order, not stability.
- The grid's `formatDate` (`src/app/pictures/components/grid-layout.tsx:58-77`) depends on the local calendar of the clock and is not modelled.
- `Math.random` is an oracle of values in [0, 1); the hex suffix of a picture id is not spelled out. `Pictures.PicturesPage.HandleUploadSubmit` requires the new id to name no listed picture, which stands for that id generator.
- ImageMap: map keys are `(pictureId, index)` pairs rather than `"id::k"` strings; this is exact because ids contain no `:`.
- The upload dialog (`image-upload-dialog`) is not part of this model; its `ImageItem` shape is inferred from how the page uses it.
- React rendering, effects, timers, `confirm`, the click-outside and 3-second auto-collapse effects of the gallery, `handleChoosePrivateKey`/`handleSaveClick` and private-key import are UI wiring and are left out. `HandleDeleteGroup` takes the `confirm` answer as an argument.
- Concurrency: each request or handler runs to completion on its own; interleavings of `await`s are not modelled (`Publish` splits each action at its `await`).
- `getArticleContent` and the image-serving route read blobs back and are left out beyond the store's blob map.
- Articles: the `articles` table's schema is not part of this model (`src/lib/db.ts` creates only `users` and `talks`); the model ASSUMES `slug` is unique, which is why the rows are a slug-keyed map, and Articles.NewRow ASSUMES the column defaults the INSERT never writes: an autoincrement `id` supplied by the caller, `views` defaulting to 0, and `created_at`/`updated_at` defaulting to the database clock `sqlNow`.
- Articles.ArticleStore.CreateArticle: for a slug already present it returns the assumed `UNIQUE constraint failed: articles.slug` error and leaves the rows alone, after the body and cover blobs have already been written; the error text is a modelling choice, not something the source defines.
- Articles.ArticleStore.GetArticles: the status is spliced into the SQL text (`src/lib/articles.ts:83`); the model selects rows whose status equals it, so a status holding a quote, which would change the query, is not modelled.
- CfAuth: `aud` is typed as a list of strings and modelled as one; a token whose `aud` is a single string, where `includes` would test for a substring, is not modelled.
- Session.VerifySession: a token with more than two `.`-separated segments is judged by its first two, because the code only reads `split('.')[0]` and `[1]`; so `a.b.c` is accepted when `a.b` is valid, although a description of the format would reject it.
- Base64.Atob: `atob` is the forgiving decoder (whitespace, optional padding, ignored leftover bits), a superset of canonical base64.
- Session.DecodeEncodeText: the round trip holds for strings not starting with U+FEFF; `TextDecoder` drops a leading byte-order mark (see `Session.DecodeEncodeTextDropsBom`).
- Rss.Feed: the `Response` object and its `Content-Type` and `Cache-Control` headers are not modelled; only the body text is.
- Rss.WrapCdataRecovers: `wrapCdata` does not split `]]>`, so a value containing it would end the section early; the model states exactly when the text reads back, and no escaping is added.
- Strings are sequences of Unicode scalar values; lone UTF-16 surrogates cannot be expressed.
