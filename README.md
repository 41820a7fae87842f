# A verified model of two personal blog apps

The repository holds two small single-page blog applications written in React.
- `blogcanhan` is "ModernBlog". `blogcanhan2` is "MyBlog".
- Each app keeps an ordered list of posts in a browser storage slot (`localStorage`).
- Each derives a filtered view of that list from a search query and a category filter.
- Each moves between pages and a selected post.
- The second app can also share a post as a link: the post is serialised to JSON, encoded in base 64 and placed in the `post` query parameter.

This project models:
- The post data types.
- The seed data and category tables.
- The storage hook of each app.
- Both filters, and how they differ.
- Selection of the shown post, including the shared-link payload.
- The creation forms and the read-time estimate.
- Every view-state transition of both apps.

It also models the codecs the share link depends on:
- `JSON.stringify` / `JSON.parse` for posts.
- Base 64 as in section 4 of RFC 4648, with the URL-safe alphabet of section 5.
- `btoa` / `atob`.
- UTF-8.
- `URLSearchParams.get`.

Module layout:
- `Types`: `blogcanhan/types.ts`.
- `Constants1`, `Constants2`: the two `constants.ts` files.
- `Blog1`, `Blog2`: the two `App.tsx` files. The state each app holds in React hooks becomes the fields of a class `App`. Each handler becomes a method whose `ensures` states the whole new state.
- Pure code that supports them:
  - `Listing`: filter and find.
  - `Text`: lower-casing, substring test, UTF-16 length.
  - `Storage`: `getItem` over a `map<string, string>`.
  - `Json`, `Base64`, `Bytes`, `Utf8`, `Decimal`: the codecs.
  - `Share`: the query string and the share payload.
- `Variants`: relates the two apps' filters.

Behaviour worth knowing, modelled as the code has it:
- Navigating away never clears `selectedPostId`. Only the page changes; in the second app, the address query is also dropped.
- In the second app, loading the stored posts has no `try`/`catch`. A stored text that does not parse stops the app from mounting (`Blog2.LoadPosts` returns `None`; `Blog2.App.constructor` requires a successful load). In the first app, the same text falls back to the seed.
- `types.ts` declares `selectedCategory: Category | 'All'` (modelled as `Types.AppState`). Both apps actually keep the Vietnamese label string there, and the model's `App` classes do the same.

## Model

| member | source | states |
|---|---|---|
| Types.ParseCategory | blogcanhan/types.ts:2 | a string is read as a `Category` exactly when it is one of the five run-time names; otherwise no category has that name |
| Types.ParseCategoryName | blogcanhan/types.ts:2 | reading a category's own name gives that category back |
| Types.CategoryIsClosed | blogcanhan/types.ts:2 | `Category` has exactly five distinct values and every value is among them |
| Types.PageIsClosed | blogcanhan/types.ts:16 | `Page` has exactly six distinct values and every value is among them |
| Constants1.SeedShape | blogcanhan/constants.ts:4-16 | the seed has exactly one post, with id `'1'` and category Design |
| Constants1.CategoriesShape | blogcanhan/constants.ts:18 | six pairwise distinct filter labels, the sentinel `'Tất cả'` first |
| Constants1.CategoryMapShape | blogcanhan/constants.ts:20-27 | every category name has a label; the five labels are pairwise distinct and are exactly the non-sentinel entries of `CATEGORIES`; `'All'` maps to the sentinel |
| Constants2.SeedShape | blogcanhan2/constants.ts:4-16 | the seed has exactly one post, with id `'welcome-myblog'` and a category that is a non-sentinel label |
| Constants2.CategoriesShape | blogcanhan2/constants.ts:18 | six pairwise distinct filter labels, the sentinel first |
| Storage.GetItem | blogcanhan/App.tsx:14 | `getItem` gives a value exactly when the key is stored, and that value is the stored one |
| Text.LowerChar | blogcanhan/App.tsx:365-366 | an ASCII capital moves up by 32 and other ASCII is unchanged; any other character is unchanged or becomes its lower-case partner (32 or 1 code point up, or U+0178 to U+00FF) |
| Text.LowerVietnameseCapitals | blogcanhan/App.tsx:365-366 | the Vietnamese capitals Ă, Â, Đ, Ê, Ô, Ơ, Ư, Ĩ and Ũ lower-case to ă, â, đ, ê, ô, ơ, ư, ĩ and ũ |
| Text.Lower | blogcanhan/App.tsx:365-366 | lower-casing keeps the length and lower-cases each character on its own |
| Text.LowerCharIdempotent | blogcanhan/App.tsx:365-366 | lower-casing a character twice changes nothing more |
| Text.Includes | blogcanhan/App.tsx:365-366 | `includes` holds exactly when the needle occurs at some offset |
| Text.IncludesEmpty | blogcanhan/App.tsx:365-366 | every text includes the empty query |
| Text.IncludesSelf | blogcanhan/App.tsx:365-366 | every text includes itself |
| Text.Utf16Length | blogcanhan2/App.tsx:341 | `length` counts UTF-16 units: between the number of code points and twice that, and equal to it without astral characters |
| Listing.Filter | blogcanhan/App.tsx:364 | `Array.filter` gives an order-preserving subsequence that keeps each element's multiplicity when the predicate holds and drops it otherwise |
| Listing.FilterKeepsAll | blogcanhan/App.tsx:364 | when the predicate holds everywhere, the filter gives back the whole list |
| Listing.FilterCons | blogcanhan/App.tsx:364 | filtering a list with one more post in front looks at that post first, then at the rest in order |
| Listing.FindById | blogcanhan/App.tsx:393-396 | `find` gives none for a null id or an id no post has; otherwise it gives the first post with that id |
| Listing.EmptyQueryMatches | blogcanhan/App.tsx:365-366 | the empty query matches every post |
| Listing.TitleMatchesItself | blogcanhan/App.tsx:365 | a query equal to the title up to case matches the post |
| Decimal.NatToString | blogcanhan/App.tsx:271 | `toString` of a millisecond count: decimal digits only, with no leading zero |
| Decimal.DigitsValueOfNatToString | blogcanhan/App.tsx:271 | the digits read back as the number they were made from |
| Decimal.NatToStringInjective | blogcanhan/App.tsx:271 | different millisecond counts give different ids |
| Json.EscapeChar | blogcanhan/App.tsx:25 | a character stays one character exactly when it is not a control character, a quote or a backslash; otherwise it becomes an escape of at most six characters |
| Json.QuoteParses | blogcanhan/App.tsx:15 | `JSON.parse` reads back every string `JSON.stringify` wrote, and what follows it is left untouched |
| Json.ObjectParses | blogcanhan/App.tsx:15 | an object of string members is read back member by member, in order |
| Json.PostFromMembers | blogcanhan/App.tsx:15 | an object's members make a post exactly when their keys are the nine fields, each once, in any order; the post then writes back as those same members |
| Json.PostInRoundTrip | blogcanhan/App.tsx:15 | a post's JSON text with its nine keys in any order parses back to that post |
| Json.PostRoundTrip | blogcanhan2/App.tsx:161 | the JSON text of a post parses back to that post |
| Json.EncodePostInLength | blogcanhan2/App.tsx:181 | a post's JSON text has the same length whatever order its keys are written in |
| Json.DecodePostShortest | blogcanhan2/App.tsx:181 | any text that parses to a post is at least as long as that post's own JSON text |
| Json.PostsRoundTrip | blogcanhan2/App.tsx:28 | the JSON text of a post list parses back to that list |
| Json.PostsInRoundTrip | blogcanhan/App.tsx:15-25 | a list whose posts are each written in their own key order parses back to that list |
| Json.DecodeBool | blogcanhan/App.tsx:15 | a stored theme parses only from `true` or `false`, exactly as written |
| Bytes.BinaryRoundTrip | blogcanhan2/App.tsx:161 | a text of characters below 256 converts to bytes and back unchanged |
| Bytes.BytesRoundTrip | blogcanhan2/App.tsx:181 | bytes convert to such a text and back unchanged |
| Base64.ToSextets | blogcanhan2/App.tsx:161 | base 64 of `n` bytes has `4*(n/3)` sextets, plus one more than `n % 3` when that is not zero |
| Base64.SextetsRoundTrip | blogcanhan2/App.tsx:161 | regrouping the sextets gives the bytes back |
| Base64.Encode | blogcanhan2/App.tsx:161 | padded base 64 text has a length that is a multiple of four |
| Base64.StripWhitespace | blogcanhan2/App.tsx:181 | `atob` removes ASCII whitespace and keeps only characters of the input |
| Base64.StripWhitespaceKeeps | blogcanhan2/App.tsx:181 | removing whitespace keeps every other character of the input, in order and as often as it occurs, and drops every whitespace character |
| Base64.RoundTrip | blogcanhan2/App.tsx:161 | decoding base 64 text (either alphabet) gives back the encoded bytes |
| Base64.Btoa | blogcanhan2/App.tsx:161 | `btoa` fails exactly when some character is above U+00FF |
| Base64.BtoaAtob | blogcanhan2/App.tsx:181 | `atob` inverts `btoa` on every text it accepts |
| Base64.Atob | blogcanhan2/App.tsx:181 | `atob` succeeds exactly when the forgiving base 64 decoder accepts the text, and then gives the decoded bytes as a text of characters below 256 |
| Utf8.EncodeChar | blogcanhan2/App.tsx:161 | a code point encodes to one to four bytes |
| Utf8.DecodeEncodeChar | blogcanhan2/App.tsx:181 | the strict decoder reads back each encoded code point and its length |
| Utf8.RoundTrip | blogcanhan2/App.tsx:161 | decoding the UTF-8 bytes of any text gives that text back |
| Utf8.AsciiEncoding | blogcanhan2/App.tsx:161 | on ASCII text, UTF-8 and the one-byte-per-character conversion agree |
| Share.QueryValue | blogcanhan2/App.tsx:143 | `URLSearchParams` reads every `+` of a value as a space and keeps every other character |
| Share.IndexOf | blogcanhan2/App.tsx:143 | the first position of a character, or the length when it is absent |
| Share.PostParam | blogcanhan2/App.tsx:142-143 | in the query `?post=v`, with `v` free of `&`, the `post` parameter is `v` with its `+` read as spaces |
| Share.ShareAsWritten | blogcanhan2/App.tsx:161 | when `btoa(JSON.stringify(post))` succeeds, the payload is padded base 64 with no `&`, and `atob` turns it back into the post's JSON text |
| Share.OpenAsWritten | blogcanhan2/App.tsx:181 | `JSON.parse(atob(v))` opens a post only when `atob` accepts `v`, and the text `atob` gives is at least as long as that post's JSON |
| Share.OpenAsWrittenOfEmpty | blogcanhan2/App.tsx:181 | the empty payload opens no post |
| Share.ShareAsWrittenFails | blogcanhan2/App.tsx:161 | the share button's `btoa(JSON.stringify(post))` fails exactly when some field holds a character above U+00FF |
| Share.SeedCannotBeShared | blogcanhan2/App.tsx:161 | the seed post of the second app cannot be shared, because its title holds U+1EEB |
| Share.OpenAsWrittenWithoutPlus | blogcanhan2/App.tsx:141-146 | a payload without `+` comes through the query unchanged and opens as the shared post |
| Share.PlusLosesBytes | blogcanhan2/App.tsx:143-146 | once the `+` of a `btoa` payload has been read as a space, `atob` fails or gives fewer bytes than were encoded |
| Share.PlusBreaksLink | blogcanhan2/App.tsx:141-146 | a payload holding `+` reaches the decoder with spaces instead, and never opens as the shared post |
| Share.PlusExampleHasPlus | blogcanhan2/App.tsx:161 | a post titled `>>>` has a `+` at offset 27 of its payload |
| Share.PlusExampleBreaks | blogcanhan2/App.tsx:141-146 | that post's link does not reopen it |
| Share.SharePayloadIsPlain | blogcanhan2/App.tsx:161 | the corrected payload holds no `+` and no `&` |
| Share.ShareRoundTrip | blogcanhan2/App.tsx:160-166 | the corrected link of any post holds exactly its payload as the `post` parameter, and that payload opens as the post |
| Blog1.ToRawAll | blogcanhan/App.tsx:25 | each post is stored with its category written as the run-time name, in order |
| Blog1.FromRawAll | blogcanhan/App.tsx:15 | stored posts read back only when every category is one of the five names, and then they store back as the same text |
| Blog1.FromRawAllOfToRawAll | blogcanhan/App.tsx:15 | stored posts read back as the posts that were stored |
| Blog1.PostsRoundTrip | blogcanhan/App.tsx:15-25 | the text `setValue` writes, the initialiser reads back as the same posts |
| Blog1.FormKeysIsKeyOrder | blogcanhan/App.tsx:258-276 | the key order of a post the form builds (title, excerpt, content, category, author, imageUrl, id, date, readTime) names each field once |
| Blog1.PostsInRoundTrip | blogcanhan/App.tsx:15-25 | whatever key order each post was built in, the text `setValue` writes reads back as the same posts |
| Blog1.LoadSlot | blogcanhan/App.tsx:11-20 | a slot gives its parsed value when it holds a non-empty text that parses, and the initial value when it is absent, empty or does not parse |
| Blog1.LoadPosts | blogcanhan/App.tsx:348 | the posts are the seed or exactly what the stored text parses to |
| Blog1.LoadDarkMode | blogcanhan/App.tsx:349 | the theme is dark exactly when the slot holds the text `true` |
| Blog1.LoadPostsCases | blogcanhan/App.tsx:12-20 | initialisation gives the stored posts when the slot is non-empty and parses, and the seed otherwise; it never fails |
| Blog1.LoadAfterWrite | blogcanhan/App.tsx:12-29 | after the posts are written, a reload gives exactly those posts |
| Blog1.LoadAfterCreate | blogcanhan/App.tsx:258-276 | after a form-built post, with its own key order, is put in front of the stored posts and written, a reload gives that list |
| Blog1.FilteredPosts | blogcanhan/App.tsx:363-379 | the visible posts are an order-preserving subsequence; a post is in it exactly when its title or content contains the query (ignoring case) and its category's label is the selected one, or the sentinel is selected |
| Blog1.FilterLabelAgrees | blogcanhan/App.tsx:368-374 | the filter's local table agrees with `CATEGORY_MAP` on all five categories |
| Blog1.ClearedFiltersShowAll | blogcanhan/App.tsx:512 | with the empty query and the sentinel, every post is visible, in order |
| Blog1.LabelSelectsItsCategory | blogcanhan/App.tsx:376 | a category's label selects exactly the matching posts of that category |
| Blog1.UnknownLabelSelectsNothing | blogcanhan/App.tsx:376 | a label outside `CATEGORIES` selects no post |
| Blog1.SeedShownUnderDesign | blogcanhan/constants.ts:10 | the seed is visible under the filter `'Thiết kế'` |
| Blog1.NewPost | blogcanhan/App.tsx:267-276 | the submitted post has the form's fields, the id from `Date.now()`, the given date and the read time `'5 phút đọc'` |
| Blog1.NewPostIds | blogcanhan/App.tsx:271 | two new posts get the same id exactly when they are made in the same millisecond |
| Blog1.NewPostIsFound | blogcanhan/App.tsx:387-388 | a new post is visible when searching for its own title, under its own label or the sentinel |
| Blog1.App.constructor | blogcanhan/App.tsx:348-353 | both slots loaded, the home page, no selection, the empty query and the sentinel filter |
| Blog1.App.SetPosts | blogcanhan/App.tsx:22-29 | memory takes the new posts; storage holds their JSON, unless the write throws; nothing else changes |
| Blog1.App.SetDarkMode | blogcanhan/App.tsx:22-29 | the same for the theme slot, which then reads back as the new theme |
| Blog1.App.ToggleTheme | blogcanhan/App.tsx:404 | the theme flips and is written back; nothing else changes |
| Blog1.App.HandlePostClick | blogcanhan/App.tsx:381-385 | select the id and open the detail page, showing the post when the id is stored; posts, storage, query and filter are unchanged |
| Blog1.App.HandleCreatePost | blogcanhan/App.tsx:387-391 | the new post is in front, the old ones follow in order, the list grows by one, storage holds the new list unless the write throws, and the blog page opens |
| Blog1.App.SubmitCreatePost | blogcanhan/App.tsx:267-276 | a filled-in form puts the post `handleSubmit` builds in front and opens the blog page |
| Blog1.App.ClearFilters | blogcanhan/App.tsx:512 | empty query and the sentinel, after which every post is visible |
| Blog1.App.SetPage | blogcanhan/App.tsx:400-404 | only the page changes; the selection stays |
| Blog1.App.SetSearchQuery | blogcanhan/App.tsx:476 | only the query changes |
| Blog1.App.SelectCategory | blogcanhan/App.tsx:484 | only the selected label changes |
| Blog2.LoadPostsCases | blogcanhan2/App.tsx:20-23 | the seed when the slot is absent or empty; otherwise exactly what the stored text parses to, failure included |
| Blog2.LoadPosts | blogcanhan2/App.tsx:20-23 | loading fails only when the slot holds a non-empty text |
| Blog2.MalformedSlotFails | blogcanhan2/App.tsx:20-23 | any non-empty stored text that does not parse as a post list makes loading fail; `{` is such a text |
| Blog2.LoadAfterWrite | blogcanhan2/App.tsx:20-28 | after `addPost` writes the list, a reload gives exactly that list |
| Blog2.LoadDarkMode | blogcanhan2/App.tsx:127 | the theme is dark exactly when the slot holds the text `true` |
| Blog2.DarkModeRoundTrip | blogcanhan2/App.tsx:127-135 | the theme the effect writes reads back as the same theme |
| Blog2.FilteredPosts | blogcanhan2/App.tsx:168-175 | order-preserving subsequence; a post is in it exactly when it matches the query and its raw category equals the selected label, or the sentinel is selected |
| Blog2.UnfilteredShowsAll | blogcanhan2/App.tsx:130-131 | with the initial query and filter, every post is visible |
| Blog2.SeedShownUnderItsLabel | blogcanhan2/constants.ts:10 | the seed is visible under the filter `'Thiết kế'` |
| Blog2.SeedTitleHoldsMyBlog | blogcanhan2/constants.ts:7 | the seed's title contains `MyBlog` |
| Blog2.MyBlogMatches | blogcanhan2/App.tsx:170 | a title containing `MyBlog` at any offset matches the search `myblog` |
| Blog2.SeedFoundBySearch | blogcanhan2/constants.ts:7 | searching `myblog` under the sentinel shows the seed |
| Blog2.ReadTimeMinutes | blogcanhan2/App.tsx:341 | `ceil(length / 800)` minutes cover the length, and one minute fewer would not |
| Blog2.ReadTimeIsLeast | blogcanhan2/App.tsx:341 | no smaller number of minutes covers the length |
| Blog2.ReadTime | blogcanhan2/App.tsx:341 | the read time is a decimal number followed by ` phút đọc`, and the number is `ceil(length / 800)` of the content's UTF-16 length |
| Blog2.NewPost | blogcanhan2/App.tsx:332-342 | the submitted post has the form's fields, the author `'Người dùng'`, the read time of its content, and the preview image or the default image |
| Blog2.NewPostIsFound | blogcanhan2/App.tsx:355 | a post submitted under one of the five labels is not under the sentinel, and is visible under its own label when searching for its title |
| Blog2.SelectionAsWritten | blogcanhan2/App.tsx:177-184 | on the detail page a present payload decides alone: the post `JSON.parse(atob(...))` opens, or nothing; otherwise the first stored post with the selected id |
| Blog2.Selection | blogcanhan2/App.tsx:177-184 | corrected: on the detail page a payload that decodes gives its post; off the detail page, or without a decodable payload, the first stored post with the selected id |
| Blog2.SelectionAgrees | blogcanhan2/App.tsx:177-184 | the code as written and the corrected rule can differ only on the detail page with a payload present, where the first shows what `JSON.parse(atob(...))` opens and the second what the corrected decoder opens, or else the stored post |
| Blog2.SelectionWithoutPayload | blogcanhan2/App.tsx:177-184 | without a `post` parameter, the code as written and the corrected rule both show the first stored post with the selected id |
| Blog2.SharedLinkSelectsPostAsWritten | blogcanhan2/App.tsx:160-184 | as written, the link `handleShare` copies for a post whose payload holds no `+` selects that post on the detail page |
| Blog2.SharedLinkSelectsPost | blogcanhan2/App.tsx:177-184 | the shared link of any post selects that post on the detail page |
| Blog2.BrokenSearchFailsToDecode | blogcanhan2/App.tsx:181 | the query `?post=x` carries `x`, which neither `atob` nor the corrected decoder accepts |
| Blog2.BrokenLinkHidesCardAsWritten | blogcanhan2/App.tsx:181-184 | as written, with `?post=x` in the address, clicking a stored post's card opens a detail page with nothing selected |
| Blog2.BrokenLinkShowsCard | blogcanhan2/App.tsx:177-184 | corrected, that click shows the clicked post |
| Blog2.App.constructor | blogcanhan2/App.tsx:126-138 | posts and theme loaded, the theme written back, the home page, no selection, the initial query and filter |
| Blog2.App.OpenSharedLink | blogcanhan2/App.tsx:141-158 | a decodable payload selects its post's id and opens the detail page, which shows that post; anything else leaves the view unchanged; posts and storage are never touched |
| Blog2.App.OpenSharedLinkAsWritten | blogcanhan2/App.tsx:141-158 | as written, a payload that `JSON.parse(atob(...))` opens selects its post's id and opens the detail page, which shows that post; a missing payload or a throwing decode leaves the view unchanged; posts and storage are never touched |
| Blog2.App.AddPost | blogcanhan2/App.tsx:24-28 | the new post is in front and the list grows by one; storage under `myblog_cloud_posts` holds exactly that list unless the write throws |
| Blog2.App.SubmitForm | blogcanhan2/App.tsx:329-345 | one post in front, with a non-sentinel label and its read time, then the blog page, which is not reached when the write throws |
| Blog2.App.ToggleTheme | blogcanhan2/App.tsx:134-135 | the theme flips and the effect writes it back |
| Blog2.App.Navigate | blogcanhan2/App.tsx:188-191 | the page changes; off the detail page the query is dropped and the selection comes from the store again |
| Blog2.App.BackToBlog | blogcanhan2/App.tsx:282 | the blog page, with the query dropped so no payload remains |
| Blog2.App.GoTo | blogcanhan2/App.tsx:207-208 | only the page changes; the query stays |
| Blog2.App.OpenCard | blogcanhan2/App.tsx:227 | select the id and open the detail page. As written, the clicked post is shown when the address has no `post` parameter, and otherwise the payload's post or nothing. Corrected, it is shown whenever no payload decodes |
| Blog2.App.SetSearchQuery | blogcanhan2/App.tsx:243 | only the query changes |
| Blog2.App.SelectCategory | blogcanhan2/App.tsx:253 | only the selected label changes |
| Variants.FiltersAgree | blogcanhan2/App.tsx:172 | once each category is written as its label, the second app's raw comparison keeps exactly the posts the first app's table keeps, in the same order |
| Variants.EnglishNamesMatchNoLabel | blogcanhan/App.tsx:376 | posts stored with English category names match no label filter under the second app's raw comparison |
| Variants.CategoriesAgree | blogcanhan2/constants.ts:18 | both apps show the same six filter buttons with the same sentinel |

## Left out

- Rendering, styling and the static page sections are not modelled. The contact forms have no behaviour.
- `window.scrollTo`, the `classList` theme toggling, `navigator.clipboard`, the `setTimeout` share-feedback flag and `console.error` are left out. They are browser side effects that change no modelled state.
- `window.history.pushState` is modelled only as the address query becoming empty.
- The FileReader image upload and the preview element are left out; they are asynchronous DOM plumbing. The preview's source is the parameter `previewSrc` of `Blog2.Form` (empty when no image was chosen).
- `Date.now()` and `toLocaleDateString` are parameters (`now`, `today`); locale formatting is a foreign library.
- `localStorage.setItem` throwing (quota exceeded) is the parameter `quotaExceeded`.
- React re-render and effect timing are not modelled. The second app's mount as written is `Blog2.App.constructor` followed by `Blog2.App.OpenSharedLinkAsWritten`; with the corrected decoder it is followed by `Blog2.App.OpenSharedLink` instead.
- Blog2.App.ToggleTheme: does not model a failed theme write in the second app's effect, because that exception escapes React rather than leaving a state to describe.
- Text.LowerChar: lower-cases from a fixed table: ASCII, Latin-1, Latin Extended-A (U+0178 to U+00FF included), Ơ, Ư and the Vietnamese block U+1EA0 to U+1EF9. It leaves out the rest of Unicode `toLowerCase`, and characters whose lower-case form is longer: U+0130 is left unchanged.
- `URLSearchParams` percent-decoding is not modelled; values are compared as raw text after the `+`-to-space step. Base 64 payloads contain no `%`.
- Json.DecodePost and Json.DecodePosts: accept the layout `JSON.stringify` writes for these records: no whitespace, the nine string fields each once, in any key order. Other JSON (whitespace, missing or extra keys, non-string values) counts as a parse failure, although `JSON.parse` would accept it.
- Json.DecodeBool: accepts only the texts `true` and `false`, which are what the app writes. `JSON.parse` would also read ` true` with whitespace, and would read `1` as a number.
- Blog1.App.SetPosts: writes every post with the record's key order. The real text writes a form-built post with its keys as title, excerpt, content, category, author, imageUrl, id, date, readTime. The decoder accepts any key order, so the reload is the same either way (Blog1.PostsInRoundTrip, Blog1.LoadAfterCreate).
- Blog1.DecodePosts: rejects a stored category outside the five names. JavaScript would load such a post (typed but not checked); that post would then match no label filter.
- Blog2.App.OpenSharedLink and Blog2.Selection: use the corrected payload decoder (UTF-8, then base 64 with the URL-safe alphabet) and the corrected selection rule. The code as written is Share.OpenAsWritten (`JSON.parse(atob(v))`), Blog2.SelectionAsWritten and Blog2.App.SelectedAsWritten.
- The `types.ts` of the second app is not part of this model. Its posts are typed by its seed and its form, which store the category as the label string.

## Findings

| source | as written | input that shows it | evidently intended | confidence | as-written member | corrected member |
|---|---|---|---|---|---|---|
| blogcanhan2/App.tsx:161 | `btoa(JSON.stringify(post))` throws for any character above U+00FF, which covers nearly all Vietnamese text | the seed post: its title holds U+1EEB (`ừ`) | every post can be shared | not executed | Share.SeedCannotBeShared | Share.ShareRoundTrip |
| blogcanhan2/App.tsx:143, 161 | the standard base 64 alphabet's `+` goes into the query unescaped, and `URLSearchParams` reads it back as a space | a post with an empty id and the title `>>>`: its payload has `+` at offset 27 | the shared link reopens the shared post | not executed | Share.PlusExampleBreaks | Share.ShareRoundTrip |
| blogcanhan2/App.tsx:177-184 | on the detail page, a `post` parameter that does not decode stands over the store and selects nothing | address query `?post=x`, then a click on any card | the clicked post is shown | not executed | Blog2.BrokenLinkHidesCardAsWritten | Blog2.BrokenLinkShowsCard |
