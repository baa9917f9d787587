# Raphtalia banner and page-capture core, in Dafny

Raphtalia is an image generator. Its screenshot and PDF endpoints receive a
target address base64-encoded in a path segment. `parseDomain` decodes it,
prefixes `https://`, parses it as a URL and sorts the query parameters.
`tryJsonParse` merges an endpoint's default options with the caller's JSON.
The front page has a form for the GitHub banner. An effect turns the form
state into the banner's query string. The page then shows the resulting
address and a Markdown image snippet, and validates the repository field.

The model has these modules:

- `CodeUnits`: the UTF-16 encoding of strings and the "code unit less than"
  order of the Infra Standard. `URLSearchParams.sort` uses this order.
- `SearchParams`: the parts of the `URLSearchParams` interface of the WHATWG
  URL Standard (section 6.2) that the core uses: `get`, `set`, `delete`,
  `sort`. Each operation is a function on a list of name/value pairs.
- `Decimal`: `Number.prototype.toString(10)` on integers that a double holds
  exactly, with a reader that undoes it.
- `Text`: `trim`, ASCII `toLowerCase`, `includes` of one character, and a
  split at the first occurrence of a character.
- `DomainUrl`: `parseDomain`.
- `JsonMerge`: `tryJsonParse`.
- `BannerForm`: the form state, the query effect, the path, the full address,
  the Markdown snippet and the repository validator.

The platform services are parameters of the functions that call them:

- base64 decoding;
- the URL parser;
- `JSON.parse`;
- the `application/x-www-form-urlencoded` serialiser.

`URLSearchParams.sort` is stable, so it only normalises how pairs of
different names interleave. Pairs that share a name keep their relative
order: `a=1&a=2` and `a=2&a=1` stay different. `SearchParams.SortCanonical`
and `DomainUrl.ParseDomainCanonical` state the exact condition under which two
queries normalise alike, and `SearchParams.SortKeepsOrderWithinName` shows the
same-name case on a concrete query.

The banner path places the repository text unencoded in front of
`/banner?`, and the validator accepts any text containing '/', including one
with a '?'. For such a repository the query of the reported address starts
inside the repository. `BannerForm.BannerPathSplitsInsideRepository` states
where the split falls, and `BannerForm.QuestionMarkRepository` shows it for
`a/b?c`.

## Model

| member | source | states |
|---|---|---|
| CodeUnits.DecodeEncode | src/lib/url.ts:3 | Reading the UTF-16 encoding of a name back gives the name. Names are therefore compared without loss. |
| CodeUnits.EncodeInjective | src/lib/url.ts:3 | Different names have different code-unit sequences. |
| CodeUnits.UnitsLessIsInfraLess | src/lib/url.ts:3 | The recursive code-unit comparison matches the Infra Standard's definition: either a is a proper prefix of b, or a has a smaller code unit at the first difference. |
| CodeUnits.LessIrreflexive | src/lib/url.ts:3 | No name sorts before itself. |
| CodeUnits.LessTransitive | src/lib/url.ts:3 | The name order is transitive. |
| CodeUnits.LessTrichotomy | src/lib/url.ts:3 | Any two different names are ordered one way or the other. |
| CodeUnits.NotLessAntisymmetric | src/lib/url.ts:3 | Names neither of which sorts before the other are equal. |
| SearchParams.Get | src/pages/index.tsx:139 | `get` is None exactly when no pair has the name; otherwise it is the value of the first pair with that name. |
| SearchParams.Delete | src/pages/index.tsx:139 | `delete` leaves no pair with the name. Every other name keeps its pairs in order, and exactly the named pairs are removed. |
| SearchParams.DeleteSingle | src/pages/index.tsx:139 | `delete` on one pair drops it exactly when it carries the name. |
| SearchParams.DeleteConcat | src/pages/index.tsx:139 | Deleting from a concatenation is deleting from each part, so with `DeleteSingle` the result is the input with the named pairs filtered out and the rest in their original order. |
| SearchParams.DeleteThenGet | src/pages/index.tsx:139 | After `delete`, `get` gives None, and deleting again changes nothing. |
| SearchParams.Set | src/pages/index.tsx:135-141 | After `set`, `get` returns the new value and exactly one pair has the name. Other names keep their pairs, and everything else is as `delete` would leave it. The first occurrence keeps its position. A new name is appended at the end. |
| SearchParams.SetIdempotent | src/pages/index.tsx:135-141 | Setting the same value twice is setting it once. |
| SearchParams.Sort | src/pages/index.tsx:144 | `sort` orders pairs by name, returns a permutation of the input, and keeps the relative order of pairs that share a name (stability). |
| SearchParams.SortIdempotent | src/lib/url.ts:3 | Sorting a list already in name order returns it unchanged, so sorting twice is sorting once. |
| SearchParams.SortedUnique | src/lib/url.ts:3 | Two lists in name order with the same pairs under every name are equal. |
| SearchParams.SortIsTheOrderedArrangement | src/lib/url.ts:3 | The sort result is the one list in name order that holds the same pairs under every name. |
| SearchParams.SortCanonical | src/lib/url.ts:3 | Two inputs sort to the same list if and only if they hold the same pairs under every name, in the same order per name: only the interleaving of different names is forgotten. |
| SearchParams.SortKeepsOrderWithinName | src/lib/url.ts:3 | Sorting never reorders pairs that share a name: `a=1&a=2` and `a=2&a=1` both come back unchanged. |
| SearchParams.SortPermutationDistinct | src/lib/url.ts:3 | When no name repeats, any permutation of the pairs sorts to the same list. |
| DomainUrl.ParseDomain | src/lib/url.ts:1-5 | The result is None exactly when the URL parser rejects "https://" + the decoded text. Otherwise it is the parsed URL with only the query changed: the query is in name order, a permutation of the parsed pairs, and stable within a name. |
| DomainUrl.ParseDomainCanonical | src/lib/url.ts:1-5 | Two encoded domains that both parse give the same result if and only if their URLs differ at most in how parameters of different names interleave. |
| DomainUrl.ParseDomainPermutation | src/lib/url.ts:1-5 | When parameter names are distinct, any permutation of the query pairs gives the same result. |
| DomainUrl.ParseDomainSortedUnchanged | src/lib/url.ts:1-5 | A URL whose query pairs are already in name order comes back with the same pair list and every other part as parsed. |
| JsonMerge.TryJsonParse | src/lib/url.ts:7-13 | If parsing throws, the result is exactly the defaults. Otherwise its keys are the defaults' keys plus the parsed keys, every parsed key takes the parsed value, and every other key keeps its default. |
| JsonMerge.Spread | src/lib/url.ts:9 | The object spread keeps the union of the keys, and later properties override earlier ones. |
| Decimal.IntToString | src/pages/index.tsx:136 | The rendering is non-empty, carries '-' exactly for negative numbers, and is otherwise digits with no leading zero (and no "-0"). |
| Decimal.CanonicalUnique | src/pages/index.tsx:136 | Any text with an optional '-' and digits without a leading zero that reads back to n is exactly the rendering of n, so the rendering is the one canonical text for the number. |
| Decimal.ParseIntToString | src/pages/index.tsx:136 | Reading the rendering back gives the number. |
| Decimal.IntToStringInjective | src/pages/index.tsx:136 | Different heights render differently. |
| Text.Trim | src/pages/index.tsx:163 | The result is an infix of the input. Everything outside it is whitespace or a line terminator, and its own ends are not. |
| Text.TrimPadded | src/pages/index.tsx:163 | Trimming a core padded with whitespace on both sides gives the core back. |
| Text.TrimIdempotent | src/pages/index.tsx:163 | Trimming twice is trimming once. |
| Text.LowerAscii | src/pages/index.tsx:238 | Lower-casing keeps the length and maps every character through the ASCII lower-case map. |
| Text.SplitAtFirst | src/pages/index.tsx:164 | The split is None exactly when the character does not occur. Otherwise the two parts, joined by the character, give the input, and the first part has no such character. |
| Text.SplitAtFirstJoin | src/pages/index.tsx:164 | Splitting undoes joining at a character the first part lacks. |
| BannerForm.SetTextFieldAbsent | src/pages/index.tsx:138-142 | Setting a title-like field and dropping it when it reads "default" appends the field's final value, or nothing. |
| BannerForm.UnsortedIsConcatenation | src/pages/index.tsx:134-142 | Before the sort, the query is the image pairs (only when an image address is given), then title, then subtitle. |
| BannerForm.BuildQueryIsReference | src/pages/index.tsx:133-144 | The effect's query equals the reference query. The reference lists the fields in the order image, imageHeight, subtitle, title: image and imageHeight when an image address is given; each title-like field as "null" when hidden, absent when empty or "default", and its text otherwise. |
| BannerForm.BuildQueryFields | src/pages/index.tsx:133-144 | image and imageHeight are present if and only if the image address is non-empty, and carry it and the base-10 height. title and subtitle follow the three-way rule. No name repeats, only the four banner names occur, and the query is in name order. |
| BannerForm.BuildQueryFullOrder | src/pages/index.tsx:133-144 | With every field present, the query is exactly image, imageHeight, subtitle, title, in that order. |
| BannerForm.InitialQuery | src/pages/index.tsx:122-146 | The starting form asks for the Tailwind logo at height 64 with the title hidden. The subtitle parameter is absent, so the default applies. |
| BannerForm.BannerPathSplits | src/pages/index.tsx:146 | When the repository has no '?', splitting the reported path at its first '?' gives back `<repository>/banner` and exactly the serialised query. |
| BannerForm.BannerPathSplitsInsideRepository | src/pages/index.tsx:146 | When the repository is before + "?" + after with no '?' in before, the validator accepts it exactly when either part has '/', and splitting the path at its first '?' gives before as the route and after + "/banner?" + the query as the query text. |
| BannerForm.QuestionMarkRepository | src/pages/index.tsx:164 | The repository `a/b?c` passes the validator, and its path splits into `a/b` and `c/banner?` + the query. |
| BannerForm.GitHubFullUrl | src/pages/index.tsx:235-238 | The plain address is "https://raphtalia.ariesclark.com/github/" followed by the repository, "/banner?" and the serialised query. |
| BannerForm.MarkdownRoundTrip | src/pages/index.tsx:295 | The Markdown snippet splits back under `ParseImageLink` (`![alt](target)` with the alt text up to the first ']') into the alt text "<provider> image" and the full address. |
| BannerForm.ValidRepository | src/pages/index.tsx:164 | The validator accepts exactly the texts of the form owner + "/" + rest. |
| BannerForm.SlashValid | src/pages/index.tsx:164 | The validator accepts a text exactly when it contains '/', which is `includes("/")`. |
| BannerForm.RepositoryInput | src/pages/index.tsx:163-164 | Typing stores the trimmed text and flags the field when the raw text lacks '/' (the input component sets its error flag to the validator's negation). The flag agrees with the stored value. |
| Text.TrimKeeps | src/pages/index.tsx:163 | Trimming keeps every character that is not whitespace or a line terminator: such a character occurs in the trimmed text exactly when it occurs in the input. |
| BannerForm.TrimKeepsSlash | src/pages/index.tsx:163-164 | The trimmed text contains '/' exactly when the raw text does, so the raw and trimmed texts are validated alike. |

## Left out

- Browser automation is not modelled. This covers `src/lib/puppeteer.ts`, `src/lib/puppeteer.tsx` and the screenshot and PDF handlers: page loading, viewport, waiting and the response stream are I/O.
- The `next.config.js` rewrite of the host is not modelled. It is deployment configuration.
- The GitHub API fetch and the image rendering of the banner endpoint (`src/pages/api/github/[owner]/[repository]/banner.tsx`) are not modelled. They are network and rendering work.
- `lib/omit`, which the endpoints use to strip their own path and timeout options, is not part of this model.
- Base64 decoding (with its UTF-8 reading of the bytes) is a parameter and is not re-implemented. So are the URL parser and `JSON.parse`.
- The form-urlencoded serialiser is a parameter. The path lemmas hold for every serialiser.
- JsonMerge.TryJsonParse: the order in which an object's properties enumerate is not modelled. The merged options are a map.
- JsonMerge.TryJsonParse: a parsed JSON value that is not an object is represented by its own enumerable properties, which is what spread copies (for example, none for a number or null).
- JsonMerge.TryJsonParse: the `unknown` query is taken to be a string. A non-string query reaches `JSON.parse` through coercion, which is not modelled.
- BannerForm.BuildQuery: the image height is an integer. `Number.parseInt` can give `NaN`, and `toString(10)` on large numbers uses exponent notation; neither is modelled.
- Decimal.IntToString: renders the exact digits of every integer. In the source a height above 2^53 is not held exactly by a double, and `toString(10)` prints the shortest digits that read back to the same double (2^60 prints as `1152921504606847000`), so such heights render differently from the model.
- DomainUrl.ParseDomainSortedUnchanged: `sort()` ends by writing the serialised pairs back into the URL's query, so the address text can change even when the order does not (`?b=%7e` becomes `?b=%7E`, `?x` becomes `?x=`, a bare `?` is dropped). The model's URL holds the query as a pair list, and the lemma compares pair lists.
- BannerForm.MarkdownRoundTrip: Markdown's rules for link destinations are not checked. The repository is inserted into the address unencoded, and the validator accepts one with a space or an unbalanced ')' (for example `a/b c`). Such an address is not a valid link destination, and the snippet is then not an image link in CommonMark.
- BannerForm.BannerPathSplits: requires a repository without '?'. The source accepts such repositories; what happens then is stated by `BannerForm.BannerPathSplitsInsideRepository`.
- Text.LowerAscii: `toLowerCase` is modelled for ASCII letters only. The only provider name is ASCII.
- React state, the 500 ms debounce, the clipboard buttons, the image preview and the empty initial `url` state are not modelled. They are UI behaviour with no effect on the strings built.
- The endpoints' HTTP handling is not modelled: status codes, headers and cache control are I/O.
