# Cheesecake Factory menu bot: the menu-diff engine in Dafny

The bot runs on a schedule. It fetches the restaurant's menu and flattens it into a
catalog of products. It compares that catalog, by product name, with the catalog it
stored on its previous run. It refuses to go on when the change is implausibly large.
Otherwise it posts one message per added or removed product, with a special template
for cheesecakes, and then stores the new catalog.

This project models that engine and proves properties of it:

| file | module | models |
|---|---|---|
| `products.dfy` | `Products` | the `Product` record and `Option` |
| `seqs.dfy` | `Seqs` | `Array.prototype.map`/`filter`, `filter(x => !other.includes(x))`, first index, subsequences |
| `jsstrings.dfy` | `JsStrings` | `String.prototype.trim`, `toLowerCase`, `includes` |
| `catalog.dfy` | `Catalog` | `getProducts` from the parsed menu on: the three nested loops, dedup by raw name, normalisation |
| `diff.dfy` | `Diff` | `diffProducts` |
| `guardrail.dfy` | `Guardrail` | `MAX_MENU_DELTA` and `isOutsideGuardrails` |
| `classifier.dfy` | `Classifier` | `isCheesecake`, `isNotCheesecake`, `getCheesecakes` |
| `announce.dfy` | `Announce` | `outputMenuDiff`, as the ordered sequence of `(message, image)` pairs handed to `createTweet` |
| `handler.dfy` | `Handler` | `handler`, as a trace of effects: the posts made and the catalog stored |

The imperative parts keep their form:
- `Catalog.GetProducts` has three nested index loops that push records and add names to a set.
- `Announce.OutputMenuDiff` runs the four sequential `for` loops that push messages. Each loop is a method of its own (`AnnounceAddedOthers` and the three others), which continues the sequence of calls made so far.

Each is proved equal to a specification function (`Catalog.CatalogOf` and
`Announce.Announcements`), and the lemmas are stated about those functions.

The pure parts are functions, with lemmas about them: the diff, the guardrail and the
classifier.

## Model

| member | source | states |
|---|---|---|
| Catalog.Normalize | index.js:68-74 | the pushed record has name, description and category trimmed, a trimmed sub-category always present, and an image made of the CDN prefix and the first image's filename, or the prefix and "undefined" when the product has no image |
| Catalog.CatalogOf | index.js:58-79 | the catalog holds exactly one record per distinct raw product name of the menu |
| Catalog.GetProducts | index.js:58-79 | the nested loops over categories, sub-categories and products return exactly the catalog of the menu: the normalised first listing of every raw name, in traversal order |
| Catalog.FirstListingsKeepOrder | index.js:67-75 | the kept listings are a subsequence of the traversal: traversal order is preserved |
| Catalog.FirstListingsOnePerName | index.js:67-75 | at most one record per raw (untrimmed) name, and every raw name met gets one |
| Catalog.FirstListingsAreFirst | index.js:67-75 | each kept listing is the first listing in traversal order with its raw name |
| Catalog.CatalogIsNormalisedFirstOccurrences | index.js:63-74 | every record has name, description, sub-category and category trimmed from the source strings; image is the CDN prefix plus the first image's filename, or the prefix plus "undefined" when there is no image |
| Catalog.ProductListingsInOrder | index.js:62-77 | the inner loop lists one sub-category's products in their order |
| Catalog.OneShelf | index.js:58-79 | a menu with one category and one sub-category is traversed as that sub-category's products |
| Catalog.DedupExample | index.js:67-75 | two products with the same raw name and a third one give two records, and the first of the repeated name wins |
| Catalog.TrimmedNamesMayRepeat | index.js:67-75 | raw names "A" and "A " both survive the dedup, giving two records both named "A" |
| Catalog.IntendedNormalize | index.js:63-74 | the corrected record: no image reference exactly when the product has no image, otherwise the CDN prefix plus the first filename; the other fields as in Normalize |
| Catalog.FirstListingsByStoredNameOnePerName | index.js:67-75 | the corrected dedup, keyed on the trimmed name that is stored, keeps one listing per stored name and covers every stored name met |
| Catalog.IntendedCatalogOf | index.js:58-79 | the corrected catalog has no two records with the same name, and holds every (trimmed) product name of the menu |
| Catalog.IntendedCatalogsDiff | index.js:173-186 | on corrected catalogs, removed and added are exactly the products whose name the other catalog lacks, in order |
| Catalog.IntendedCatalogMergesTrimmedNames | index.js:67-75 | raw names "A" and "A " give one record named "A", without an image reference |
| JsStrings.Trim | index.js:69-72 | the result has no leading and no trailing JavaScript whitespace |
| JsStrings.TrimIsMiddle | index.js:69-72 | the trimmed string is the source with a whitespace-only prefix and suffix removed |
| JsStrings.TrimIdempotent | index.js:69-72 | trimming twice is trimming once |
| JsStrings.ToLower | index.js:164-166 | same length; each character is lower-cased on its own, and no A-Z is left |
| JsStrings.Includes | index.js:164-166 | the empty pattern is always included, and a pattern longer than the string never is |
| JsStrings.IncludesIff | index.js:164-166 | `includes` holds exactly when the pattern occurs at some position |
| Seqs.Filter | index.js:84-87 | the result is no longer than the list; the lemmas below state which elements it keeps and in what order |
| Seqs.FilterPasses | index.js:84-87 | every element the filter keeps passes the test |
| Seqs.FilterMembers | index.js:84-87 | an element is in the filtered list iff it is in the list and passes the test |
| Seqs.Without | index.js:177-178 | no longer than its input, and every element it keeps is in the first list and not in the second |
| Seqs.WithoutMembers | index.js:177-178 | a name is in `a.filter(n => !b.includes(n))` iff it is in a and not in b |
| Seqs.FilterIsSubsequence | index.js:84-87 | filtering keeps order |
| Seqs.WithoutIsSubsequence | index.js:177-178 | the name difference keeps the order of its source list |
| Seqs.FilterPartition | index.js:84-87 | a filter and its negation split a list: lengths and multisets add up to the list's |
| Seqs.WithoutSelf | index.js:177-178 | a list minus a list holding all its elements is empty |
| Seqs.IndexOf | index.js:180-181 | the index of the first occurrence: the element is there and not earlier |
| Diff.FirstNamed | index.js:180-181 | `ps.filter(p => p.name == n)[0]` is the product of ps named n at the lowest index: no product before it carries that name |
| Diff.DiffProducts | index.js:173-186 | the names of `removed` are the old names missing from the new list, in the old order, and symmetrically for `added`; each entry is the first product of its list with that name |
| Diff.DiffMembership | index.js:177-181 | each removed product is an old product whose name the new list lacks, and every such old name is represented; symmetrically for added |
| Diff.DiffSelf | index.js:173-186 | comparing a catalog with itself gives empty added and removed |
| Diff.DiffByNameOnly | index.js:174-178 | a name present on both sides appears in neither output, whatever the products' other fields |
| Diff.DiffOfDistinctMenus | index.js:173-186 | on catalogs with distinct names, removed is exactly the old products whose names the new catalog lacks, in order, and symmetrically |
| Diff.DiffExample | index.js:173-186 | old [A, B, C] and new [B, C, D] give added [D] and removed [A] |
| Guardrail.IsOutsideGuardrails | index.js:135-145 | outside iff more than 10 removed or more than 10 added; inside, the delta holds at most 20 products |
| Guardrail.AtThresholdIsWithin | index.js:135-145 | exactly 10 added and 10 removed is within the guardrails |
| Guardrail.OverThresholdIsOutside | index.js:135-145 | 11 on either side is outside, whatever the other side holds |
| Guardrail.GuardrailMonotone | index.js:135-145 | shrinking either list never turns an accepted delta into a refused one |
| Guardrail.UnchangedMenuIsWithin | index.js:135-145 | the diff of a catalog with itself is within the guardrails |
| Classifier.MentionsCheesecake | index.js:164-166 | `s.toLowerCase().includes("cheesecake")` iff some ten characters of s lower-case, one by one, to the keyword |
| Classifier.IsCheesecake | index.js:163-167 | a cheesecake iff (name or description mentions the keyword) and the category mentions it |
| Classifier.IsNotCheesecake | index.js:169-171 | the negation of IsCheesecake |
| Classifier.CheesecakePartition | index.js:84-87 | the two filters split a list: order kept in each part, no element in both, every product kept exactly as often as in the list |
| Classifier.GetCheesecakes | index.js:153-161 | the classifier's products in their order, then exactly one Fresh Strawberry record at the end; length is the filtered count + 1 |
| Classifier.FreshStrawberryIsNotClassified | index.js:155-159 | the appended record is not a cheesecake by the classifier's own test |
| Classifier.ChocolateCheesecakeIsCheesecake | index.js:163-167 | keyword in name and category: a cheesecake |
| Classifier.ChocolateCakeIsNot | index.js:163-167 | keyword in neither name nor category: not a cheesecake |
| Classifier.CheesecakeSamplerIsNot | index.js:163-167 | keyword in the name but not in the category: not a cheesecake |
| Announce.Capped | index.js:91-95 | a full message of at most 280 characters is kept; a longer one is replaced by the name-only form |
| Announce.AddedOtherTweet | index.js:90-95 | the message names the product and carries its image; it is the full message with the description whenever that fits, and exactly the name-only message without the emoji whenever the full one is over 280 characters; only that name-only message may exceed 280 |
| Announce.RemovedOtherTweet | index.js:99-100 | the message names the product and carries its image, and always has the full template's length: it is never shortened |
| Announce.AddedCheesecakeTweet | index.js:104-109 | the full message whenever it fits, and exactly the name-only message with the same prefix whenever the full one is over 280 characters; the message names the product and carries its image |
| Announce.RemovedCheesecakeTweet | index.js:113-118 | the full message whenever it fits, and exactly the name-only message with the removed-cheesecake prefix whenever the full one is over 280 characters; the message names the product and carries its image |
| Announce.Groups | index.js:84-87 | four groups: added and removed non-cheesecakes, then added and removed cheesecakes; each keeps its list's order and holds only products of its kind |
| Announce.Announcements | index.js:89-119 | one call per product of the delta: as many calls as added plus removed products |
| Announce.OutputMenuDiff | index.js:83-120 | the four loops make exactly the calls of Announcements: added-others, removed-others, added-cheesecakes, removed-cheesecakes, each in its list's order |
| Announce.AnnounceAddedOthers | index.js:89-96 | the calls made so far, then the added-other template of each product in order |
| Announce.AnnounceRemovedOthers | index.js:98-101 | the calls made so far, then the removed-other template of each product in order |
| Announce.AnnounceAddedCheesecakes | index.js:103-110 | the calls made so far, then the added-cheesecake template of each product in order |
| Announce.AnnounceRemovedCheesecakes | index.js:112-119 | the calls made so far, then the removed-cheesecake template of each product in order |
| Announce.OneMessagePerProduct | index.js:89-119 | one message per product of the delta: the groups hold every added and removed product exactly as often as the delta, and the i-th message names the i-th product and carries its image |
| Announce.GroupsPartitionDelta | index.js:84-87 | the four groups together are a permutation of added followed by removed |
| Announce.CappedFallback | index.js:91-95 | a fitting full message is posted with the description; otherwise the name-only message, strictly shorter, is posted |
| Announce.ShortMessageFits | index.js:91-95 | for any checked group, the message fits whenever its name-only form fits, whatever the description |
| Announce.ShortMessageCanExceedLimit | index.js:91-95 | a 300-letter name gives messages over 280 in all three checked groups |
| Announce.RemovedOtherIsNeverShortened | index.js:98-101 | a removed non-cheesecake with a long name is still announced with the full template, over 280 characters |
| Announce.FittedShortMessage | index.js:92 | the corrected fallback: the longest prefix of the name-only message that fits in 280 characters |
| Announce.FittedTweet | index.js:91-95 | a checked group's message with the corrected fallback always fits in 280 characters; it is the full message whenever that fits, and the name-only one whenever that fits |
| Announce.FittedTweetsAgree | index.js:91-118 | in all three checked groups the corrected message fits, and it equals the code's message whenever the code's message fits |
| Announce.FittedTweetCutsLongName | index.js:105-106 | a 300-letter name gives the first 280 characters of the name-only message |
| Announce.GuardedRunPostsAtMostTwenty | index.js:35-39 | a delta within the guardrails yields at most 20 messages |
| Handler.Publish | index.js:32-45 | the run fails with GuardrailExceeded exactly when the delta is outside the guardrails, and then has no effect; a failed run stores nothing; a successful run returns the catalog and stores it as its last effect; no run has more than 21 effects |
| Handler.Handle | index.js:19-46 | a failed fetch has no effect; a successful run returns the catalog built from the menu; a failed run stores nothing; at most 21 effects |
| Handler.GuardrailBeforeAnyEffect | index.js:33-40 | when the guardrail fires, the run has no effect (no post, no store) and fails with GuardrailExceeded |
| Handler.EffectsOnlyWithinGuardrails | index.js:35-40 | any run with an effect fetched the menu and passed the guardrail |
| Handler.SuccessfulRun | index.js:39-45 | a successful run posts every announcement in order, then stores and returns the catalog it built |
| Handler.RejectedPostStopsRun | index.js:39-43 | a rejected post leaves the earlier posts in place, makes no later post and does not store the catalog |
| Handler.RerunIsQuiet | index.js:32-40 | a run over an unchanged catalog posts nothing and stores the same catalog |
| Handler.AddedCheesecakeRun | index.js:19-46 | stored [Apple Pie], fetched [Apple Pie, New Cheesecake in Cheesecakes]: one new-cheesecake post, then the store |

## Left out

- The HTTP fetch and its status test (index.js:53-57) and `res.json()`. The menu is an input, and a failed fetch is the `None` input of `Handler.Handle`.
- JSON parsing of the menu. The parsed menu is a datatype. An absent `images` array is modelled as an empty one, since both skip the image.
- Records with a missing or non-string `name`, `description`, sub-category name or category name. In the source, `.trim()` would throw on them. The model's fields are always strings.
- The Twitter client (index.js:25-30) and `createTweet` (index.js:122-133). A post is an effect in the trace, and whether the service rejects a post is an input. `createTweet` only logs when an image is present and then posts the text alone. The model records the image passed to it, because that is what `outputMenuDiff` hands over.
- The S3 read and write (index.js:188-222). The stored catalog is an input and the write is the `Store` effect. Their errors are thrown inside SDK callbacks, so they never reject the awaited promise and never reach the handler's `catch`. The model therefore has no storage-failure outcome. In the source a failed write leaves the awaited promise unsettled and the error uncaught, so the run ends after all its posts with the old catalog still stored, and the next run posts the same delta again; the model's successful run always ends with `Store` and cannot show that case.
- `printProducts` (index.js:147-151), the `console` calls and the dotenv configuration (index.js:1-11). They are logging and setup only.
- `evals/products.js` (DOM scraping in a browser) and `test-function.js` (a manual harness). They contain no engine logic.
- The stray `s` after `return true;` at index.js:142. It is unreachable, so both guardrail branches are modelled identically.
- String lengths: `|s|` counts code points, whereas JavaScript `.length` counts UTF-16 code units. The emoji prefixes are therefore one character shorter here than in JavaScript for every emoji outside the Basic Multilingual Plane, which is all of them except U+26F5 (SAILBOAT). The prefixes are written as the intended emoji, not the mis-encoded bytes of the source text.
- JsStrings.ToLower: it lower-cases A-Z and U+212A (KELVIN SIGN, to 'k') and leaves every other character unchanged. Those two are the only characters that can lower-case into a letter of "cheesecake". Full Unicode lower-casing (such as U+0130 becoming two characters) is not modelled, and it cannot change whether the keyword is found.
- The `product &&` guard in `isCheesecake` (index.js:164). Products are never null in the model.
- Asynchrony. The `await`ed calls are modelled as happening in sequence.

## Findings

The run (`Handler`) follows the code as written. Each corrected member states what the code evidently intends, with that property proved.

| source | as written | input that shows it | evidently intended | confidence | as-written member | corrected member |
|---|---|---|---|---|---|---|
| index.js:67-75 | the dedup tests the raw name, but the record stores the trimmed name | two products named "A" and "A " | product names are unique keys of a catalog | not executed | Catalog.TrimmedNamesMayRepeat | Catalog.IntendedCatalogOf |
| index.js:63-73 | a product without images gets the CDN prefix followed by "undefined" | a product whose `images` array is empty | no image reference for a product without an image | not executed | Catalog.Normalize | Catalog.IntendedNormalize |
| index.js:91-118 | the name-only fallback is posted without a length test | a product with a 300-letter name | the fallback keeps the message within 280 characters | not executed | Announce.ShortMessageCanExceedLimit | Announce.FittedTweet |

Removed non-cheesecakes are never length-checked at all (`Announce.RemovedOtherIsNeverShortened`). The code has no shorter template for them, so this is recorded as a limit of the code rather than corrected.
