# Fandom character scraper: a Dafny model of its item logic

The scraper crawls a Fandom wiki, builds one `CharacterItem` per character page, and then passes each item through four Scrapy item pipelines. A small Flask server checks the seed URL the user gives, starts the crawl, and lists the `{wiki}_characters.json` files it finds in the data directory. This project models the deterministic core of those three parts as pure Dafny functions, and proves what the code promises about them.

- **Strings** (`strings.dfy`): the Python `str` operations and regular-expression substitutions the code uses. These are `strip`, `lower`, `split(p)[0]`, `replace`, `in`, `startswith`/`endswith`, and `re.sub` with `.*$`.
- **ImageUrl** (`image_url.dfy`): `FandomSpider.clean_image_url`. It upgrades `//host` to `https://host`, runs the four `re.sub` calls that remove scaling transforms, cuts at `/revision/latest`, and cuts at `?`.
- **Items** (`items.dfy`): `CharacterItem`, with three optional string fields, and Python truthiness of a field.
- **Pipelines** (`pipelines.py` as `pipelines.dfy`): `ValidationPipeline`, `CleaningPipeline`, `OptimizedImagePipeline` and `DuplicatesPipeline`.
  - Each stage is a function from an item and the stage's state to `Drop(reason)` or `Pass(item)`, plus the new state.
  - `ProcessItem` chains them in the order `ITEM_PIPELINES` fixes.
  - `RunPipeline` folds that chain over the items of a crawl.
- **Spider** (`spider.dfy`): the logic of `FandomSpider` that does not depend on the network.
  - `is_character_page`: ten indicators against a threshold of two.
  - The link-following loop the three `parse*` handlers share, and the routing of links to handlers.
  - The item `parse_character` builds.
  - A crawl as a fold of handler calls over the responses, in whatever order the scheduler delivers them.
  - CSS selection is an oracle. A page maps each selector to the list `getall()` returns; `.get()` is its first element; a selector list is truthy when it is non-empty.
- **Server** (`server.dfy`):
  - `validate_fandom_url`;
  - `get_wiki_name`, over an approximation of `urlparse` that reads the scheme and the network location;
  - the `{wiki}_characters.json` file name;
  - the `/wikis` listing that strips that suffix off again.

Several lemmas state behaviours of the code that are easy to miss:

- `clean_image_url` runs twice: in the spider, and again in `CleaningPipeline`. It is not idempotent: `ImageUrl.CleanNotIdempotentUncoveredSlashes` and `ImageUrl.CleanNotIdempotentNestedMarkers` give counterexamples. It is idempotent on URLs without `/scale-to-` text (`ImageUrl.CleanIdempotentWithoutScaling`).
- Only one literal trailing `(Character)` is removed from a name.
- A name is tested for truthiness before it is stripped, so a whitespace-only heading gives an item with an empty name.
- Validation runs before Cleaning, so a name of exactly `(Character)` is emptied after it was validated.
- The de-duplication key `name::url` can collide for different names and URLs.
- The Fandom check is a substring test on the whole URL, not a test of the host.

## Model

| member | source | states |
|---|---|---|
| Pipelines.Validate | scraper/scraper/pipelines.py:27-38 | An item passes exactly when name and url are truthy and the url starts with `http://` or `https://`. A passed item is unchanged. The drop is `Incomplete` exactly when name or url is missing or empty. |
| Pipelines.DropSuffix | scraper/scraper/pipelines.py:101-110 | On a string with no whitespace at its ends: a trailing suffix is removed together with the whitespace run before it. The result is a prefix with only whitespace between it and the suffix. Any other string is returned as it is. The result again has no whitespace at its ends. |
| Pipelines.CleanName | scraper/scraper/pipelines.py:101-111 | The stripped name loses a trailing `(Character)` and the whitespace before it, or stays as it is. The result has no whitespace at its ends. |
| Pipelines.CleanNameRemovesSuffix | scraper/scraper/pipelines.py:101-111 | For every `x` without whitespace at its ends and every whitespace run `w`, the name `x + w + "(Character)"` cleans to exactly `x`. |
| Pipelines.CleanNameKeepsOtherParenthetical | scraper/scraper/pipelines.py:101-111 | A name `x(y)` is left unchanged when `x` starts with no whitespace and `y` is not `Character` and has no `(` in it. |
| Pipelines.CleanNameOneSuffixOnly | scraper/scraper/pipelines.py:101 | The pattern is anchored at the end and applied once, so `(Character)(Character)` keeps one copy. |
| Pipelines.CleanUrl | scraper/scraper/pipelines.py:102-115 | The cleaned url is a prefix of the url with no `?` in it. When it is shorter, the next character of the url is the first `?`. |
| Pipelines.CleanKeepsScheme | scraper/scraper/pipelines.py:114-115 | Cutting at `?` keeps the `http://` or `https://` prefix Validation established. |
| Pipelines.Clean | scraper/scraper/pipelines.py:104-120 | Every truthy field is replaced by its cleaned form. The name becomes `CleanName` of it, the url `CleanUrl` of it, and the image URL goes through `clean_image_url` a second time. Every other field is left as it was. |
| Pipelines.ImageStage | scraper/scraper/pipelines.py:50-76 | An item passes exactly when its image URL is truthy, http(s), and has a known extension or Fandom path, unless the cache holds `False` for it. A missing image is the `NoImage` drop. A passed image is a cache key mapped to `True`. The cache changes only by adding a new image as `True`. |
| Pipelines.ImageChecksIgnoreCase | scraper/scraper/pipelines.py:48-66 | Lower-casing an image URL changes neither the extension test nor the Fandom path test. |
| Pipelines.ImageExtensionOf | scraper/scraper/pipelines.py:48-63 | Any text that ends in `.jpg`, `.jpeg`, `.png` or `.gif`, in any letter case, has an image extension. |
| Pipelines.ImagePathOf | scraper/scraper/pipelines.py:64-65 | Any text that contains `/render`, `/portrait` or `/image`, in any letter case, has an image path. |
| Pipelines.ImageCacheStaysValid | scraper/scraper/pipelines.py:69-76 | A cache holding only `True` keeps holding only `True`. The "previously invalid" drop then never happens, and passing reduces to the format checks. |
| Pipelines.Dedup | scraper/scraper/pipelines.py:84-94 | An item passes exactly when its `name::url` key is unseen. The seen set afterwards is the old one plus that key. |
| Pipelines.KeyCollision | scraper/scraper/pipelines.py:88 | Items with names `a::b` and `a`, and urls `c` and `b::c`, have different names but the same key. |
| Pipelines.KeyInjective | scraper/scraper/pipelines.py:88 | For set names without `:` and set urls, equal keys mean equal names and equal urls. So a collision needs the separator inside a name. |
| Pipelines.CollidingItemDropped | scraper/scraper/pipelines.py:88-91 | Of two such colliding items, the second is dropped as a duplicate. |
| Pipelines.ProcessItem | scraper/scraper/settings.py:30-35 | An item is emitted exactly when three things hold. It passes Validation; its cleaned form passes the image stage against the current cache; and the cleaned item's key is unseen. An emitted item is the cleaned input. The seen set grows by that key exactly when the item is emitted. The cache is only touched by items that passed Validation. |
| Pipelines.ProcessItemFacts | scraper/scraper/pipelines.py:31-76 | An emitted item had a truthy name and url. Its url is http(s) without `?`. Its image is acceptable and now cached. The cache only grows, and a cache of `True` verdicts stays one. |
| Pipelines.RunPipeline | scraper/scraper/pipelines.py:81-94 | Over a run, no two emitted items share a key and none has a key seen before. The seen set ends as the old keys plus the emitted ones. When the first item passes the chain, it is the first one emitted. A one-item run emits something exactly when that item passes. |
| Pipelines.RunImages | scraper/scraper/pipelines.py:69-76 | Over a run, every emitted item has an acceptable image that the final cache knows. The cache only grows and keeps only `True` verdicts. |
| Pipelines.NoImageLeavesState | scraper/scraper/pipelines.py:53-54 | An item without an image is dropped and leaves the whole state, including the seen set, unchanged. |
| Pipelines.VanishingImageLeavesState | scraper/scraper/pipelines.py:117-118 | An image URL that cleaning turns into `""` is dropped the same way. |
| Pipelines.CharacterOnlyNameEmptied | scraper/scraper/pipelines.py:108-111 | A name of exactly `(Character)` passes Validation and is `""` after Cleaning. On a fresh pipeline the item is still emitted when its image is acceptable. |
| Pipelines.FreshPipelineEmits | scraper/scraper/pipelines.py:53-76 | On an empty cache and seen set, a validated item is emitted exactly when its cleaned image URL is acceptable. |
| Pipelines.SecondCopyDropped | scraper/scraper/pipelines.py:88-91 | Once an item is emitted, any item that cleans to the same name and url is dropped, whatever its image. |
| ImageUrl.DigitRun | scraper/scraper/spiders/fandom_spider.py:44 | `\d+` is greedy: the run is all digits, and the character after it is not a digit. |
| ImageUrl.Upgrade | scraper/scraper/spiders/fandom_spider.py:40-41 | A URL starting with `//` gets exactly `https:` in front: the result starts with `https://`, ends with the input and is six characters longer. Any other URL is left as it is. |
| ImageUrl.RemoveScale | scraper/scraper/spiders/fandom_spider.py:44-47 | One removal pass never lengthens the text. |
| ImageUrl.RemoveScaling | scraper/scraper/spiders/fandom_spider.py:44-47 | The four removal passes together never lengthen the text. |
| ImageUrl.CleanImageUrl | scraper/scraper/spiders/fandom_spider.py:35-55 | The result is `None` exactly when the URL is missing or empty; otherwise it is the cleaned string. |
| ImageUrl.CleanStr | scraper/scraper/spiders/fandom_spider.py:40-55 | A cleaned URL contains no `?` and no `/revision/latest`. |
| ImageUrl.CleanKeepsPrefix | scraper/scraper/spiders/fandom_spider.py:40-53 | Every removal starts at a `/` or a `?`. So a prefix of the upgraded URL that holds neither survives cleaning. |
| ImageUrl.CleanUpgradesProtocolRelative | scraper/scraper/spiders/fandom_spider.py:40-53 | A URL starting with `//` cleans to one starting with `https:`. |
| ImageUrl.CleanWithoutScaling | scraper/scraper/spiders/fandom_spider.py:43-53 | Without `/scale-to-` in the input, the scaling passes do nothing and the result is a prefix of the upgraded input. |
| ImageUrl.CleanIdempotentWithoutScaling | scraper/scraper/spiders/fandom_spider.py:40-53 | On URLs without `/scale-to-`, cleaning twice equals cleaning once. |
| ImageUrl.RemoveScaleSkip | scraper/scraper/spiders/fandom_spider.py:44-47 | A removal pass keeps a prefix in which the marker cannot start. |
| ImageUrl.RemoveScaleAtFront | scraper/scraper/spiders/fandom_spider.py:44-47 | A marker followed by digits at the front is removed together with all its digits. |
| ImageUrl.RemoveScalingAbsent | scraper/scraper/spiders/fandom_spider.py:44-47 | Text without `/scale-to-` passes the four removals unchanged. |
| ImageUrl.RevisionCut | scraper/scraper/spiders/fandom_spider.py:50-53 | Text without `v` or `?`, followed by `/revision/latest`, is cut back to that text. |
| ImageUrl.LeadingWidthDownClean | scraper/scraper/spiders/fandom_spider.py:44-53 | A leading `/scale-to-width-down/<digits>` goes and the rest is kept. This holds when the rest starts with a non-digit and has no `/scale-to-`, `/revision/latest` or `?` in it. |
| ImageUrl.WidthTransformClean | scraper/scraper/spiders/fandom_spider.py:46-53 | A single `/scale-to-width/<digits>` followed by a non-digit goes, and the text around it is kept. This holds when the URL's second character is not `/`, it carries no other scaling transform, and the result has no `/revision/latest` or `?` in it. |
| ImageUrl.ScaledRevisionClean | scraper/scraper/spiders/fandom_spider.py:40-53 | Take a protocol-relative `p` with no `-`, `v` or `?` in it. Then `p`, followed by `/scale-to-width-down/<digits>` and `/revision/latest`, cleans to `https:` + `p`. |
| ImageUrl.CleanWorkedExample | scraper/scraper/spiders/fandom_spider.py:40-53 | `//static.x/img/Ahri.png/scale-to-width-down/200/revision/latest` cleans to `https://static.x/img/Ahri.png`. |
| ImageUrl.CleanUncoversSlashes | scraper/scraper/spiders/fandom_spider.py:40-47 | Take any tail that starts with `//` and has no `c`, `v` or `?` in it, behind a leading `/scale-to-width-down/<digits>`. The first cleaning uncovers the tail's `//`, and only a second cleaning upgrades it. So cleaning is not idempotent. |
| ImageUrl.CleanNotIdempotentUncoveredSlashes | scraper/scraper/spiders/fandom_spider.py:40-47 | `/scale-to-width-down/5//h/x.png` cleans to `//h/x.png`, and that cleans to `https://h/x.png`. |
| ImageUrl.CleanJoinsNestedMarkers | scraper/scraper/spiders/fandom_spider.py:44-47 | Removing an inner transform joins the halves of an outer one, which only a second cleaning removes. |
| ImageUrl.CleanNotIdempotentNestedMarkers | scraper/scraper/spiders/fandom_spider.py:44-47 | `/scale-to-/scale-to-width/7width/9/portrait` cleans to `/scale-to-width/9/portrait`, and that cleans to `/portrait`. |
| ImageUrl.CleanQueryOnlyVanishes | scraper/scraper/spiders/fandom_spider.py:36-53 | `?x` cleans to `""`, so a second `clean_image_url` gives `None`. |
| Spider.Get | scraper/scraper/spiders/fandom_spider.py:119-120 | `.get()` gives a value exactly when the selection is non-empty, and that value is the first selected string. |
| Spider.CharacterPageIffTwo | scraper/scraper/spiders/fandom_spider.py:161-179 | A page is a character page exactly when two different indicators hold. |
| Spider.CountTrueAtLeastTwo | scraper/scraper/spiders/fandom_spider.py:179 | A count of true values is at least two exactly when two distinct positions are true. |
| Spider.OneIndicatorNeverSuffices | scraper/scraper/spiders/fandom_spider.py:178-179 | When at most one indicator holds, the page is not a character page. |
| Spider.MoreEvidenceKeepsCharacterPage | scraper/scraper/spiders/fandom_spider.py:178-179 | Turning more indicators true never turns a character page into a non-character page. |
| Spider.IndicatorsIgnoreCase | scraper/scraper/spiders/fandom_spider.py:173-176 | The URL indicators test the lower-cased URL, so lower-casing the URL first changes no indicator. |
| Spider.Indicators | scraper/scraper/spiders/fandom_spider.py:163-177 | There are ten indicators, in source order. The first is the infobox selection, the next five are the five label selections, and the last four are the four URL substrings tested on the lower-cased URL. |
| Spider.CountTrue | scraper/scraper/spiders/fandom_spider.py:179 | The count of true indicators is at most their number. |
| Spider.FollowNewFresh | scraper/scraper/spiders/fandom_spider.py:66-68 | The followed hrefs are non-empty, not visited before, and pairwise different. The visited set grows by exactly the followed hrefs. |
| Spider.FollowNew | scraper/scraper/spiders/fandom_spider.py:66-68 | At most one request is made per link. |
| Spider.FollowNewMarks | scraper/scraper/spiders/fandom_spider.py:66-68 | Every non-empty link ends up visited. |
| Spider.FollowNewFromLinks | scraper/scraper/spiders/fandom_spider.py:66-68 | Every followed href is one of the links. |
| Spider.FollowNewVisited | scraper/scraper/spiders/fandom_spider.py:66-68 | The visited set afterwards is the old one plus every non-empty link. |
| Spider.FollowNewInDiscoveryOrder | scraper/scraper/spiders/fandom_spider.py:66-68 | The followed hrefs equal an independent reference definition: the first occurrences of the new non-empty links, in list order. |
| Spider.FollowNewAppend | scraper/scraper/spiders/fandom_spider.py:88-97 | Following `a + b` is following `a`, then following `b` from the visited set `a` left. |
| Spider.FollowsFreshChain | scraper/scraper/spiders/fandom_spider.py:88-97 | Two fresh rounds, the second starting where the first ended, are one fresh round together. |
| Spider.FollowNewSpec | scraper/scraper/spiders/fandom_spider.py:66-68 | Following equals the reference pair: the first occurrences, and the old set plus every non-empty link. The followed links are fresh. |
| Spider.FollowTwice | scraper/scraper/spiders/fandom_spider.py:88-97 | Two loops against one visited set: the first follows its first occurrences, and the second those not already followed by the first. Together they are fresh. |
| Spider.RouteGallery | scraper/scraper/spiders/fandom_spider.py:70-74 | A gallery link goes to the list handler exactly when its lower-cased form contains `/champion`, `/character` or `/heroes`. It goes back to `parse` otherwise. |
| Spider.RouteGalleryIgnoresCase | scraper/scraper/spiders/fandom_spider.py:70 | Lower-casing a link does not change its route. |
| Spider.RouteGalleryKeyword | scraper/scraper/spiders/fandom_spider.py:70-72 | Any link with one of the three keywords in it, in any letter case, goes to the list handler. |
| Spider.ParseHub | scraper/scraper/spiders/fandom_spider.py:57-74 | `parse` follows fresh gallery links in discovery order. A link goes to the list handler when its lower-cased form contains `/champion`, `/character` or `/heroes`, and to `parse` otherwise. |
| Spider.ParseList | scraper/scraper/spiders/fandom_spider.py:76-97 | Character links are followed first, to `parse_character`. Then category links not already visited are followed, to `parse_category`. All of them are fresh. |
| Spider.ParseCategoryPage | scraper/scraper/spiders/fandom_spider.py:99-110 | Fresh category members are followed in discovery order, all to `parse_character`. |
| Spider.RawName | scraper/scraper/spiders/fandom_spider.py:119-120 | The raw name is truthy exactly when the title or the first `h1` text is. The title wins when it is truthy; otherwise the `h1` text is taken as it is. |
| Spider.BaseName | scraper/scraper/spiders/fandom_spider.py:130 | The name used in the image selectors has no `(` and no whitespace at its ends. For a name without `(` it is the stripped name. |
| Spider.BaseNameOf | scraper/scraper/spiders/fandom_spider.py:130 | For every name of the form whitespace, `x`, whitespace, `(`, anything, where `x` has no `(` and no whitespace at its ends, the base name is `x`. |
| Spider.FirstImageIndexSpec | scraper/scraper/spiders/fandom_spider.py:143-147 | The index is the first selector whose src and cleaned src are both non-empty. No earlier selector has that property. |
| Spider.FirstImage | scraper/scraper/spiders/fandom_spider.py:143-156 | An image is found exactly when some selector yields one. It is the cleaned src of the first such selector, and non-empty. |
| Spider.PageName | scraper/scraper/spiders/fandom_spider.py:119-124 | A name is kept exactly when the raw heading is truthy. The kept name is the stripped heading, with no whitespace at its ends. |
| Spider.ParseCharacterPage | scraper/scraper/spiders/fandom_spider.py:112-156 | An item is yielded exactly when the page is a character page, the heading is truthy, and some selector yields an image. It is the stripped name, the page URL, and the first image. |
| Spider.WhitespaceHeadingGivesEmptyName | scraper/scraper/spiders/fandom_spider.py:121-122 | A whitespace-only heading is truthy, so the item, if any, has the empty name. |
| Spider.FollowLinks | scraper/scraper/spiders/fandom_spider.py:57-110 | Each of the three link handlers follows only fresh links, and the visited set grows by exactly those. |
| Spider.Handle | scraper/scraper/spiders/fandom_spider.py:112-156 | One response yields at most one item and only fresh requests. `character_count` rises by exactly the number of items. |
| Spider.Crawl | scraper/scraper/spiders/fandom_spider.py:29-30 | Over a whole crawl, in any delivery order, no href is followed twice, none visited before, and none empty. The visited set grows by the followed hrefs, and `character_count` by the items yielded. There are at most as many items as visits. |
| Server.SplitScheme | server.py:34 | A scheme is split off only before a `:`. The rest is what follows the colon; with no scheme the rest is the whole URL. |
| Server.UrlParse | server.py:34-38 | A parsed network location holds no `/`, `?` or `#`. |
| Server.Normalize | server.py:28-30 | The normal form starts with `http://` or `https://`. It is the stripped input when that already does, and `https://` plus the stripped input otherwise. |
| Server.CheckNormalized | server.py:33-44 | Exactly one of url and error is set. The malformed error comes exactly from a parse failure. The invalid error comes exactly from a parse with an empty scheme or host. The not-Fandom error comes exactly from a parse with both, where the URL lacks `fandom.com`. Otherwise the URL is accepted as it is. |
| Server.CheckAfterParse | server.py:33-44 | For non-empty input whose normal form parses with a scheme and a host: the input is accepted as that normal form when it contains `fandom.com`, and rejected as not Fandom otherwise. |
| Server.ValidateFandomUrl | server.py:22-44 | Exactly one of url and error is set. The "required" error comes exactly from missing or empty input. Acceptance means a parsed scheme and host and `fandom.com` in the URL. An accepted URL is the normal form and starts with `http://` or `https://`. |
| Server.WhitespaceOnlyIsInvalid | server.py:28-36 | Whitespace-only input becomes `https://`, with an empty host, and is rejected as invalid. |
| Server.BareHostChecked | server.py:28-44 | A bare host name gets `https://` in front. It is accepted exactly when it contains `fandom.com`, and rejected as not Fandom otherwise. |
| Server.BareFandomHostAccepted | server.py:28-44 | `leagueoflegends.fandom.com` is accepted as `https://leagueoflegends.fandom.com`. |
| Server.BareOtherHostRejected | server.py:41-42 | `example.com` is rejected as not a Fandom URL. |
| Server.FandomInPathAccepted | server.py:41-44 | Any host is accepted when `fandom.com` occurs in the path: the test is on the whole URL. |
| Server.ExampleOrgWithFandomPath | server.py:41 | `https://example.org/fandom.com` is accepted. |
| Server.HttpUrlNormal | server.py:28-30 | An http(s) URL without trailing whitespace is its own normal form. |
| Server.ParseHttp | server.py:34 | A URL `http://...` or `https://...` parses with that scheme. Its host runs to the next `/`, `?` or `#`. It is a parse failure exactly when that host has unbalanced brackets. |
| Server.AcceptedUrlParses | server.py:66-73 | An accepted URL parses with scheme `http` or `https`, so it has a wiki name. |
| Server.GetWikiName | server.py:17-20 | There is no name exactly when parsing fails. Otherwise the name is the host up to its first `.`: a prefix of the host with no `.`, followed in the host by a `.` or by nothing. |
| Server.WikiNameOfHost | server.py:17-20 | For `https://a.b` followed by nothing or by a path, query or fragment, the wiki name is `a`. Here `a` has no `.` and neither part has any of `/?#[]`. |
| Server.LeagueWikiName | server.py:17-20 | The spider's default seed, `https://leagueoflegends.fandom.com/wiki/League_of_Legends_Wiki`, has wiki name `leagueoflegends`. |
| Server.SuffixRoundTrip | server.py:165-169 | Appending a suffix that cannot start inside the text, then replacing it away, gives the text back. |
| Server.FileNameRoundTrip | server.py:165-169 | For a wiki name without `.`, its file name passes the suffix filter and `replace` recovers the name. |
| Server.ListWikisFileCons | server.py:165-169 | The file of a dot-free name adds exactly that name to the listing. |
| Server.ListWikisOfFileNames | server.py:165-169 | Listing the files of dot-free names gives back the names, in order. |
| Server.ListWikisSkipsOthers | server.py:165 | Files without the suffix are skipped. |
| Server.ScrapedWikiListed | server.py:73-74 | The file name the scrape endpoint looks for after crawling an accepted URL is listed under the wiki name the endpoint computed. |
| Server.CrawlFeedNotListed | scraper/scraper/spiders/fandom_spider.py:16-17 | The spider's feed file, `characters.json`, is skipped by the listing. |
| Server.FileName | server.py:74 | The file name is the wiki name followed by `_characters.json`. |
| Server.WikiOf | server.py:169 | Removing the suffix never lengthens a file name, and a name without the suffix is kept as it is. |
| Server.ListWikis | server.py:165-169 | The listing has at most one wiki per file. |
| Strings.Strip | scraper/scraper/pipelines.py:109 | The stripped text is no longer than the input and has no whitespace at its ends. |
| Strings.StripOfPadded | scraper/scraper/pipelines.py:109 | Stripping a text with no whitespace at its ends, padded with whitespace on both sides, gives the text back. |
| Strings.Lower | scraper/scraper/spiders/fandom_spider.py:70 | Lower-casing keeps the length. Each capital ASCII letter becomes its lower-case letter, and every other character is kept. |
| Strings.CutAt | scraper/scraper/pipelines.py:102 | The result is the text before the first occurrence of the pattern: a prefix without the pattern, followed in the input by the pattern or by nothing. |
| Strings.ReplaceAll | server.py:169 | Text without the pattern is kept. Replacing by something no longer than the pattern never lengthens the text. |

## Left out

- Scrapy transport and configuration are not modelled: retries, throttling, robots, the HTTP cache, concurrency, redirects, and feed export. They are runtime behaviour outside the code.
- Real CSS and DOM selection is left out. A page is an oracle from selector to the `getall()` list.
- Spider.Request: keeps the href as written, because `response.follow`'s relative-URL resolution is library behaviour. Scrapy's own request dupefilter is not modelled either.
- Spider.Crawl: handles responses in any order the caller gives; Scrapy's scheduling order is not modelled. The seed URL is not added to `visited_urls`, as in the code.
  - Each handler call is one atomic step. In Scrapy the `parse*` handlers are generators that are consumed lazily, so their steps can interleave.
  - The follow-once property does not depend on this, because each test-and-add on `visited_urls` is atomic in both.
- Spider.ParseCharacterPage: the CSS oracle accepts every selector. A heading with a `"` in its base name makes the two f-string selectors invalid CSS. Scrapy then raises, and `parse_character` yields nothing, while the model goes on to the later selectors.
- Spider.CountTrue: its contract only bounds the count. Its meaning for the threshold is stated by Spider.CountTrueAtLeastTwo and Spider.CharacterPageIffTwo.
- Spider.FollowNew: its contract only bounds the number of requests. The full description is Spider.FollowNewSpec, together with FollowNewFresh, FollowNewMarks and FollowNewFromLinks.
- Pipelines.ImageStage: the cache is an unbounded map. `TTLCache`'s one-hour expiry and its 1000-entry eviction depend on the clock and are not modelled.
- Pipelines.Key: a `None` field renders as the text `None`. The `KeyError` an absent field would raise is not modelled; Validation makes that case unreachable in the pipeline order.
- Pipelines.CleanNameKeepsOtherParenthetical: stated only for names with no leading whitespace and no `(` inside the last parenthetical. With leading whitespace the name is stripped. A `y` such as `a (Character` ends the name in `(Character)`, which is then removed.
- ImageUrl.LeadingWidthDownClean: stated only when the rest starts with a non-digit and has no `/scale-to-`, `/revision/latest` or `?`. Otherwise a later step also changes the rest: `/scale-to-width-down/5a?b` cleans to `a`.
- ImageUrl.WidthTransformClean: stated only when the URL's second character is not `/`, no other scaling transform occurs, no further `/scale-to-width/` follows, and the result has no `/scale-to-height/`, `/revision/latest` or `?`. Each excluded case lets a later step change the surrounding text.
- Server.ScrapedWikiListed: states what the scrape endpoint looks for, not what the crawl writes. The spider's only feed is `../data/characters.json` (fandom_spider.py:16-17), and the crawl command at server.py:86-90 adds no output file. So after a crawl, `{wiki}_characters.json` does not exist unless something else wrote it. The endpoint then answers 404, and the listing skips the feed file, as Server.CrawlFeedNotListed states.
- Strings.Lower: lower-cases ASCII letters only, not Unicode. `re.I` in the extension check is modelled the same way.
- Strings.IsDigit: `\d` is taken as the ASCII digits, not every Unicode decimal digit.
- Strings.Strip: states only that the result has no whitespace at its ends. That it is the middle slice between two whitespace runs is stated in Strings.StripRemovesSpace and Strings.StripOfPadded.
- Strings.ReplaceAll: its contract covers text without the pattern and the length. The suffix removal the listing relies on is stated by Server.SuffixRoundTrip.
- ImageUrl.RemoveScale: its contract only bounds the length. What a pass removes and keeps is stated by ImageUrl.RemoveScaleSkip, ImageUrl.RemoveScaleAtFront and ImageUrl.RemoveScaleAbsent.
- ImageUrl.RemoveScaling: its contract only bounds the length. Text without `/scale-to-` is kept, by ImageUrl.RemoveScalingAbsent.
- ImageUrl.ScaledRevisionClean and ImageUrl.CleanUncoversSlashes: stated only for texts without the letters listed in their rows. Those letters keep every marker of the four transforms and of `/revision/latest` from starting inside the text.
- Server.WikiOf: states only the length bound and the case without the suffix. Recovering the name is Server.FileNameRoundTrip.
- Server.ListWikis: its contract only bounds the length. Its meaning is stated by Server.ListWikisFileCons, Server.ListWikisSkipsOthers and Server.ListWikisOfFileNames.
- Regular-expression newline cases are left out. All strings are taken to be newline-free, so `.` matches any character and `$` means end of string.
- Server.UrlParse: reads only the scheme and the network location, following `urlparse`'s rules for them.
  - The only `ValueError` modelled is an unmatched `[` or `]` in the network location. Other exceptions `urlparse` could raise are not modelled.
  - `urlsplit` first deletes every tab, carriage return and line feed anywhere in the URL; the model does not. For example, `https://a\tb.fandom.com` has wiki name `ab` in Python, but `a\tb` in the model.
- The Flask routes, subprocess launch, directory creation, JSON reading and writing, and the HTTP status codes are I/O and are left out. Only the file-name logic of lines 74, 165, 169 and 193 is modelled.
- Logging, `print`, `closed()`, the unregistered `ScraperPipeline`, and the unused async imports are left out.
- The React frontend is UI with hard-coded data and is not part of this model.
