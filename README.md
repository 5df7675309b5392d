# importEUP server model

A Dafny model of the rules inside `server.js`, the Express server that
prepares newly created Shopify products for the EUPHORE store:

- **Template rendering.** A product-creation webhook fills three templates with the product title:
  - `$tituloCAP` becomes the upper-cased title, then `$titulo` becomes the title;
  - in the description only, line feeds become `<br>`.
- **Idempotency gate.** The update is skipped when the product's first `global`/`updated` metafield says `true`.
- **Update payload.** The payload carries the body HTML and three metafields.
- **Alt text.** Each image of the latest product gets the alt text `<title> - EUPHORE, Foto <n>`.
- **Classifier labels.** Labels of the form `Category: Value` become at most five tags.
- **Tag merge.** The held tags are merged into the latest product's comma-separated tag field, without duplicates.
- **Server state.** Four module-level variables hold the templates and the generated tags.

The model has one module per concern:

- `Strings`: the JavaScript string built-ins used.
  - `replace` with a global regular expression and a replacement string, including the `$$`, `$&`, `` $` ``, `$'` patterns of the replacement string.
  - `split` and `join` with a string separator.
  - `toUpperCase`.
  - `String(n)`.
- `Shop`: the platform records.
- `Render`, `Gate`, `Webhook`: the product-creation webhook.
- `AltText`: the alt-text route.
- `Labels`, `Tags`: the tag routes.
- `Routes`: a `Server` class.
  - Its fields are the four module-level variables.
  - Its methods are the routes that read or write them.

Platform and classifier calls are parameters, not modelled code:

- A read gives `Some(answer)` or `None`. `None` stands for a failed request, or a thrown error inside the handler's `try`.
- A write is a boolean saying whether it succeeded.
- The platform's handling of written metafields is a specification function, `Gate.Upsert`.
  - It stores the value over the entries with the same namespace and key, or appends a new entry.
  - This is what the at-most-once property relies on.

## Model

| member | source | states |
|---|---|---|
| Strings.Substitution | server.js:68-69 | the text inserted for one match: `$$` gives `$`, `$&` the match, `` $` `` the text before it, `$'` the text after it; a replacement without these patterns is inserted exactly as written |
| Strings.ReplaceAll | server.js:67-73 | the literal reference for `replace`: every occurrence, left to right and without overlap, becomes the replacement, and inserted text is never rescanned; `Strings.ReplaceAllNoMatch` and `Strings.ReplaceAllAppend` state what it does to text without the pattern and to a concatenation |
| Strings.ReplaceGlobal | server.js:67-73 | `s.replace(/pat/g, rep)`: a text without the pattern's first character comes back unchanged; `Strings.ReplaceGlobalLiteral` ties it to `Strings.ReplaceAll` and `Strings.ReplaceGlobalNoMatch` covers any text without the pattern |
| Strings.ReplaceFrom | server.js:67-73 | the scan of `replace` from one index on, inserting the substitution of `Strings.Substitution` at each match; `Strings.ReplaceFromLiteral` and `Strings.ReplaceFromNoMatch` state its meaning |
| Strings.ReplaceGlobalLiteral | server.js:67-73 | when the replacement has no `$` patterns, the global `replace` is left-to-right, non-overlapping literal replacement, and inserted text is never rescanned |
| Strings.ReplaceGlobalNoMatch | server.js:67-73 | a text that does not contain the pattern comes back unchanged, whatever the replacement |
| Strings.UpperChar | server.js:65 | a small letter becomes the capital 32 code points below it; upper-casing maps `$` and only `$` to `$`, leaves no small ASCII letter, and changes only small letters |
| Strings.Upper | server.js:65 | the upper-cased title has the title's length and is upper-cased character by character |
| Strings.UpperLiteral | server.js:65-68 | upper-casing a title without `$` patterns gives a title without `$` patterns |
| Strings.IndexOf | server.js:196 | a position found is an occurrence of the separator that lies within the text |
| Strings.IndexOfLeftmost | server.js:196 | the position found is the first occurrence; there is none exactly when the text does not contain the separator |
| Strings.Join | server.js:227 | every joined piece occurs in the joined text; `Strings.JoinSplit` and `Strings.SplitJoin` state the round trips with `Strings.Split` |
| Strings.Split | server.js:219 | splitting yields at least one piece |
| Strings.JoinSplit | server.js:219-227 | joining the pieces of a split with the same separator gives back the text |
| Strings.SplitPiecesFree | server.js:219 | no piece of a split contains the separator |
| Strings.SplitJoin | server.js:219-227 | splitting a join of a non-empty list of separator-free pieces gives back the list, for a separator none of whose proper suffixes starts it (such as `", "`) |
| Strings.NatToString | server.js:133 | the decimal numeral is a non-empty digit string, with a leading `0` only for zero |
| Strings.DecimalRoundTrip | server.js:133 | the decimal numeral of `n` reads back as `n` |
| Strings.NatToStringInjective | server.js:133 | different numbers have different numerals |
| Render.RenderLiteral | server.js:67-73 | for a title without `$` patterns, rendering is two literal replace-all passes: `$tituloCAP` by the upper-cased title, then `$titulo` by the title |
| Render.DescriptionLiteral | server.js:70 | the line-feed pass of the description is a literal replace-all of line feeds by `<br>` |
| Render.RenderText | server.js:67-73 | a template without `$` renders unchanged; `Render.RenderLiteral`, `Render.RenderCapToken`, `Render.RenderTitleToken` and `Render.RenderNoToken` state how the tokens are replaced |
| Render.RenderDescription | server.js:67-70 | a description template without `$` and without line feeds renders unchanged; `Render.DescriptionLiteral`, `Render.DescriptionHasNoLineFeed` and `Render.RenderLineBreak` state the line-feed pass |
| Render.RenderNoToken | server.js:67-73 | a template without `$titulo` renders unchanged; its description differs only by `<br>` for line feeds; the empty template renders empty |
| Render.DescriptionHasNoLineFeed | server.js:67-70 | the rendered description contains no line feed, including line feeds that came from the title |
| Render.RenderCapToken | server.js:68-69 | a `$tituloCAP` token becomes exactly the upper-cased title: it is never read as `$titulo` followed by `CAP`, and the inserted text is not rescanned (non-empty title without `$`) |
| Render.RenderTitleToken | server.js:69 | a `$titulo` token not followed by `CAP` becomes exactly the title, which is not rescanned |
| Render.RenderBothTokens | server.js:67-69 | `$titulo`, then any text without `$` that does not start with `CAP`, then `$tituloCAP`, renders as the title, that text, then the upper-cased title |
| Render.ExampleBothTokens | server.js:65-69 | with the title `bolsa`, `$titulo e $tituloCAP` renders as `bolsa e BOLSA` |
| Render.RenderLineBreak | server.js:70 | in the description, a line feed between two lines becomes `<br>` |
| Render.ExampleLineBreak | server.js:70 | `linha1\nlinha2` gives the description `linha1<br>linha2` |
| Render.TitlePatternExpands | server.js:69 | a title `$&` is not inserted as written: `$titulo` renders as `$titulo` |
| Gate.FindUpdatedFlag | server.js:52 | `find` returns the first `global`/`updated` entry, or nothing when no entry has that namespace and key |
| Gate.AlreadyUpdated | server.js:52-57 | the update is skipped exactly when the first `global`/`updated` entry has the value `true` |
| Gate.FirstFlagDecides | server.js:52-54 | only the first `global`/`updated` entry counts, whatever later entries hold |
| Gate.ExampleGate | server.js:52-57 | `true` skips; `TRUE`, a first `false` followed by `true`, another namespace, and no entries all let the write proceed |
| Gate.BuildUpdate | server.js:78-101 | the body is the rendered description, or the original body when the description rendered empty; the payload has exactly three `global` text entries, in the order `description_tag`, `title_tag`, `updated` = `true` |
| Gate.Upsert | server.js:81-100 | the assumed platform storage of one written entry: it grows the list by at most one entry, keeps every entry with another namespace or key, leaves every entry with the written namespace and key holding the written value, and leaves at least one such entry |
| Gate.ApplyWrites | server.js:81-100 | the written entries stored in order: the list does not shrink, and entries that no write names keep their place and value; `Gate.UpdateMarksProduct` states what the update's writes achieve |
| Gate.UpsertFlagSkips | server.js:94-98 | once `updated` = `true` is stored, the gate skips, whatever was stored before |
| Gate.UpdateMarksProduct | server.js:52-101 | once the built payload is stored, every later gate check skips |
| Webhook.RenderedUpdate | server.js:64-101 | the written body is the original body or contains no line feed |
| Webhook.HandleProductCreate | server.js:40-115 | a failed check answers 500 without a write; a set flag answers 200 without a write; otherwise the rendered payload is written, and the answer is 200 or 500 as the write succeeds or fails |
| Webhook.AtMostOnce | server.js:52-110 | a delivery the gate lets through writes the update; once that write has succeeded, a later delivery of the same product writes nothing and answers 200, with any templates |
| AltText.RelabelImages | server.js:131-134 | the new image list has the same length and the same ids in the same order; image `i` gets `title - EUPHORE, Foto i+1` |
| AltText.AltFor | server.js:133 | the alt text starts with the title and ` - EUPHORE, Foto `, followed by a digit string; `AltText.AltTextsNumbered` states that the digits read back as the position |
| AltText.AltTextsNumbered | server.js:131-134 | each alt text is the title prefix followed by a digit string whose value is the image's 1-based position; no two alt texts are equal |
| AltText.UpdateAltText | server.js:118-153 | the route succeeds exactly when the product read and the write succeed; the relabelled list is sent exactly when a product was read |
| AltText.ExampleThreePhotos | server.js:131-134 | three images of `Bolsa X` get `Bolsa X - EUPHORE, Foto 1` to `Foto 3` |
| AltText.ExampleNoPhotos | server.js:131-134 | no images give an empty list |
| Labels.StripCategory | server.js:196 | a label without `": "` gives the empty tag (JavaScript's `undefined`, which `join` writes as nothing) |
| Labels.StripCategorySegment | server.js:196 | the tag is exactly the text between the label's first `": "` and the next `": "` or the end of the label |
| Labels.TopTags | server.js:196 | there are min(5, number of labels) tags, and tag `i` is stripped from label `i`, in the classifier's order |
| Labels.StripAt | server.js:196 | a label `category: value` with no `:` in either part strips to `value` |
| Labels.TopTagsOfTwo | server.js:196 | two labels give their two values, in order |
| Labels.ExampleTopTags | server.js:196 | `Marca: EUPHORE`, `Cor: Bolsa Preta` give `EUPHORE`, `Bolsa Preta` |
| Labels.CandidateStripsToValue | server.js:181-189 | candidate label `k` has a category and strips to value `k`, the value paired with it |
| Labels.CandidatesCategorized | server.js:181-196 | an answer made of candidate labels yields no `undefined` tag |
| Labels.CandidateTag | server.js:181-196 | each candidate label strips to a non-empty tag without `", "` |
| Tags.ParseTags | server.js:219 | an absent or empty field gives no tags; otherwise the tags join back to the field, and none contains `", "` |
| Tags.DedupFrom | server.js:222 | adding to a set keeps what was already there in front, adds nothing twice, and holds exactly the old and the added elements |
| Tags.Dedup | server.js:222 | `Array.from(new Set(xs))` has no duplicates and the same elements as `xs` |
| Tags.DedupAppend | server.js:222 | the set of `a` then `b` is the de-duplicated `a` followed by the de-duplicated elements of `b` not in `a`, in order |
| Tags.DedupUnique | server.js:222 | a list without duplicates is its own de-duplication |
| Tags.MergeTags | server.js:219-222 | the merged list has no duplicates, and its elements are exactly the current and the generated tags |
| Tags.MergedField | server.js:219-227 | every current and every generated tag occurs in the written field; `Tags.MergeIdempotent` states that writing it again changes nothing |
| Tags.MergeOrder | server.js:219-222 | the current tags come first, in first-occurrence order, then the new generated tags in their order; no generated tags only de-duplicates the current ones |
| Tags.ParseJoin | server.js:219-227 | a written tag field reads back as the tags written, unless only the empty tag was written |
| Tags.MergeIdempotent | server.js:219-227 | applying the same `", "`-free tags (the empty tag included) to the field written the first time writes the same field |
| Tags.MergeOverlap | server.js:219-227 | the tags `a, b` merged with `b`, `c`, `d` give `a, b, c, d` |
| Tags.MergeExample | server.js:219-227 | `"A, B"` merged with `B`, `C`, `D` gives `"A, B, C, D"` |
| Routes.Server.constructor | server.js:22-25 | the templates and the generated tags start empty |
| Routes.Server.UpdateProduct | server.js:31-37 | the three templates are overwritten, the tags are kept, and the answer is success |
| Routes.Server.ProductsCreate | server.js:40-115 | the webhook answers from the templates held now; the server's state is unchanged, so at most five tags stay held |
| Routes.Server.GenerateTags | server.js:156-204 | on a classifier answer, the held tags become its top tags and the full labels are echoed; on failure, nothing changes and the answer is failure |
| Routes.Server.ApplyTags | server.js:207-242 | the merged field of the latest product's tags and the held tags is written; success exactly when the read and the write succeed; the held tags are unchanged, at most five |
| Routes.GeneratedTagsApplyOnce | server.js:181-227 | tags generated from candidate labels are non-empty and `", "`-free, so applying them twice writes the same field as once |

## Left out

- Express setup, body parsing, CORS, static files and `listen` (server.js:1-11, 28, 244-248). These are framework plumbing; console logging is left out too.
- The HTTP calls to the platform and to the classifier are not modelled.
  - They become parameters: the read's answer or `None`, and the write's success.
  - Request URLs, headers, the API version and the access token are left out.
- Environment configuration (server.js:13-19) is left out, including the unused API key and secret.
- Concurrency is not modelled.
  - Two deliveries of the same product can both pass the gate before either writes.
  - A template update can interleave with a render.
  - `Webhook.AtMostOnce` covers only deliveries that do not overlap.
- The platform's storage of metafields is not modelled code. `Gate.Upsert` is an assumption about its behaviour.
- Strings.Upper: upper-casing covers ASCII and the Latin-1 small letters U+00E0 to U+00FE.
  - Every other character is left unchanged.
  - JavaScript changes some of these: `ß` becomes `SS`, `ÿ` becomes `Ÿ`, `µ` becomes `Μ`, and letters beyond Latin-1 are upper-cased too.
- Render.RenderCapToken: this holds only for a non-empty title without `$`. An empty title, or a title that ends in `$`, can let the text around the token form a new `$titulo`.
- Render.RenderTitleToken: this holds only for titles without `$` replacement patterns. `Render.TitlePatternExpands` shows what such a pattern does instead.
- Render.RenderBothTokens: this holds only for a non-empty title without `$` and for text between the tokens without `$` that does not start with `CAP`, as for `Render.RenderCapToken`.
- Undefined fields are not modelled.
  - A product without a title throws outside the webhook's `try`, so the request gets no answer.
  - Templates start as empty strings (server.js:22-24), so a template that was never sent renders as the empty string. An `/update-product` body that leaves out a field stores `undefined` for it (server.js:32-34); the next render then throws outside the webhook's `try` as well.
  - The model's strings are always defined.
  - A product list with no products fails inside the `try` of the other routes. The model treats that as a failed read.
- Labels.StripCategory: a label without `": "` gives JavaScript `undefined`; the model gives the empty tag.
  - `join` writes both the same way.
  - They differ when an `undefined` tag and an empty tag meet in the merge, because the `Set` keeps the two apart while the model merges them.
  - This happens when the current tag field already holds an empty tag.
  - It also happens when the generated tags hold both. A label without `": "` gives `undefined`, and a label ending in `": "` gives the empty tag. For example, the labels `Cor: ` and `EUPHORE` with no tag field give `["", undefined]`, and server.js:222-227 writes `", "`. The model writes `""`.
- Labels.TopTags: the contract restates the `map`/`slice` shape of the source. Its meaning is stated by `Labels.StripCategorySegment` and `Labels.CandidateTag`.
- Gate.BuildUpdate: the contract restates the literal payload of the source. `Gate.UpdateMarksProduct` states what the payload achieves.
