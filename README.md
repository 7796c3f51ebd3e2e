# Torznab feed parser, modelled in Dafny

This project models the Torznab dialect of the indexer RSS parser in Readarr
(`TorznabRssParser`). Torznab is RSS 2.0 extended with `<torznab:attr name value>`
child elements, qualified by the namespace `http://torznab.com/schemas/2015/feed`.
The model covers:

- **Error classification (`PreProcess`).** The optional pre-emption by the base class
  on a non-XML HTTP error. Then the first-match-wins chain over the document's
  `<error code description>` element: continue, invalid API key, API key required,
  request limit reached, or generic Torznab error. Reading a missing or non-numeric
  attribute throws, and that is modelled too.
- **Enclosure diagnostic (`PostProcess`).** Which warning is chosen, if any, from the
  distinct enclosure mime types of all items.
- **Attribute-bag lookups.** `TryGetTorznabAttribute` returns the first match by
  case-insensitive name, or the default when there is no match or the match has no
  value. `TryGetMultipleTorznabAttributes` returns every present value, in order.
- **Per-field extractors.** Info and comment links, languages, size, categories,
  download link, info hash, magnet link, seeders and peers, each with its fallback
  chain. Size and categories tolerate bad numbers. Seeders and peers fail on them.

Modules:

- `Wrappers` (wrappers.dfy): `Option` stands for C# `null`. `Result` and `Outcome`
  stand for values or thrown exceptions.
- `Text` (text.dfy): ordinal case-insensitive equality (ASCII), `char.IsWhiteSpace`,
  ordinal `Contains`, and the `TrimEnd(postfix)` string extension.
- `Numbers` (numbers.dfy): `int.Parse`/`int.TryParse`/`long.TryParse` with
  `NumberStyles.Integer`, and unchecked 32-bit wrap-around.
- `Seqs` (seqs.dfy): the order-preserving filter-and-map that the `foreach`/`Add` loops
  build, and `Distinct()`.
- `TorznabRssParser` (torznab.dfy): the parser itself. `GetLanguages`, `GetCategories`
  and `TryGetMultipleTorznabAttributes` are methods with loops, as in the source. Each
  is proved equal to a specification function, and the lemmas are about those functions.
- `TorznabScenarios` (scenarios.dfy): concrete feeds and items, one lemma per worked
  example feed or item.

Collaborators the parser calls but does not define are parameters. These are
`base.PreProcess` (as its outcome), `base.GetDownloadUrl`, `base.GetSeeders`,
`base.GetPeers`, `GetEnclosureLength`, `ParseUrl`, `IsoLanguages.FindByName`,
`Uri.IsWellFormedUriString` and the two mime-type sets.

The model follows the code where it differs from what a reader might expect of a
Torznab parser:

- A size may be negative, because `long.TryParse` accepts a sign
  (`TorznabScenarios.SizeScenarios`).
- The download link is not guaranteed to be absolute. The enclosure fallback is not
  re-checked, and an item with no `<enclosure>` throws.
- Seeders and peers fall back when the attribute is blank, not only when it is absent.
- An `<error>` element without a `description` throws at line 39, before the
  code-range rule at line 41 is consulted.
- The sum of seeders and leechers at line 191 is unchecked `int` addition, so it wraps
  around.

## Model

| member | source | states |
|---|---|---|
| `TorznabRssParser.PreProcess` | src/NzbDrone.Core/Indexers/Torznab/TorznabRssParser.cs:22-57 | parsing continues exactly when there is no `<error>` element and the base class did not pre-empt on a non-XML HTTP error; a base failure there is passed on unchanged |
| `TorznabRssParser.PreProcessClassifiesError` | src/NzbDrone.Core/Indexers/Torznab/TorznabRssParser.cs:38-56 | for a readable error element, each outcome as an if-and-only-if: code 100-199 gives "Invalid API key" whatever the description or URL; otherwise no `apikey=` plus "Missing parameter" gives "Indexer requires an API key"; otherwise "Request limit reached" gives the rate-limit error; otherwise a Torznab error carrying the description |
| `TorznabRssParser.PreProcessMalformedError` | src/NzbDrone.Core/Indexers/Torznab/TorznabRssParser.cs:38-39 | a missing code, a non-numeric code or a missing description aborts with a null-reference or number-format failure before any classification rule |
| `TorznabRssParser.PostProcess` | src/NzbDrone.Core/Indexers/Torznab/TorznabRssParser.cs:59-75 | over all enclosure types: no warning exactly when there are none or one is preferred; the wrong-protocol warning exactly when, in addition, a usenet type is present; both warnings name the first type in document order |
| `TorznabRssParser.DistinctIntersects` | src/NzbDrone.Core/Indexers/Torznab/TorznabRssParser.cs:61-64 | taking `Distinct()` first changes no intersection test |
| `TorznabRssParser.FirstMatch` | src/NzbDrone.Core/Indexers/Torznab/TorznabRssParser.cs:199 | `FirstOrDefault` by case-insensitive name: the index found matches and no earlier attr does; none found means no attr matches |
| `TorznabRssParser.TryGetTorznabAttribute` | src/NzbDrone.Core/Indexers/Torznab/TorznabRssParser.cs:197-210 | the value of the first attr named `key`; the default when no attr has that name or the first one has no value |
| `TorznabRssParser.TryGetIgnoresLaterAttrs` | src/NzbDrone.Core/Indexers/Torznab/TorznabRssParser.cs:199-209 | attrs after the first match never change the single-valued lookup |
| `TorznabRssParser.TryGetMultipleTorznabAttributes` | src/NzbDrone.Core/Indexers/Torznab/TorznabRssParser.cs:212-227 | the loop returns exactly the present values of the matching attrs, in document order |
| `TorznabRssParser.MatchingValuesMember` | src/NzbDrone.Core/Indexers/Torznab/TorznabRssParser.cs:214-224 | a string is returned exactly when some attr with a matching name has it as value; never more values than attrs |
| `TorznabRssParser.SingleLookupIsFirstOfMultiple` | src/NzbDrone.Core/Indexers/Torznab/TorznabRssParser.cs:197-227 | the single lookup is the first multi-valued result when the first match has a value, and the default when the multi-valued lookup is empty |
| `TorznabRssParser.GetInfoUrl` | src/NzbDrone.Core/Indexers/Torznab/TorznabRssParser.cs:77-80 | the resolved comments text, with one trailing `#comments` removed when present and unchanged otherwise |
| `TorznabRssParser.GetCommentUrl` | src/NzbDrone.Core/Indexers/Torznab/TorznabRssParser.cs:82-85 | the resolved comments text with its anchor kept: the info link of the same item with `#comments` appended |
| `TorznabRssParser.InfoUrlDropsCommentsAnchor` | src/NzbDrone.Core/Indexers/Torznab/TorznabRssParser.cs:77-85 | the info link is the comment link with one trailing `#comments` removed, and the same link when there is none |
| `TorznabRssParser.GetLanguages` | src/NzbDrone.Core/Indexers/Torznab/TorznabRssParser.cs:87-109 | the loop returns the resolved names of the `language` attrs, or of the plain `<language>` elements when no `language` attr has a value, in order, unresolved ones dropped |
| `TorznabRssParser.LanguagesProperties` | src/NzbDrone.Core/Indexers/Torznab/TorznabRssParser.cs:89-106 | plain `<language>` elements are ignored once an attr value exists; the result is no longer than the raw list; a language is in it exactly when some raw name resolves to it |
| `TorznabRssParser.GetSize` | src/NzbDrone.Core/Indexers/Torznab/TorznabRssParser.cs:111-122 | the `size` attr whenever it parses as a 64-bit integer (the blank guard is redundant), otherwise the enclosure length; never fails |
| `TorznabRssParser.GetCategories` | src/NzbDrone.Core/Indexers/Torznab/TorznabRssParser.cs:124-141 | the loop returns the `category` values that parse as 32-bit integers, in order, duplicates kept, others dropped |
| `TorznabRssParser.CategoriesProperties` | src/NzbDrone.Core/Indexers/Torznab/TorznabRssParser.cs:126-138 | a category is returned exactly when some `category` value parses to it; all fit in 32 bits; no more categories than attrs |
| `TorznabRssParser.GetDownloadUrl` | src/NzbDrone.Core/Indexers/Torznab/TorznabRssParser.cs:143-153 | the base link when it is a well-formed absolute URI; otherwise the first enclosure's `url` resolved by `parseUrl` when there is an enclosure, and a null-reference failure when there is none |
| `TorznabRssParser.GetInfoHash` | src/NzbDrone.Core/Indexers/Torznab/TorznabRssParser.cs:155-158 | empty, or the value of some `infohash` attr |
| `TorznabRssParser.GetMagnetUrl` | src/NzbDrone.Core/Indexers/Torznab/TorznabRssParser.cs:160-163 | empty, or the value of some `magneturl` attr |
| `TorznabRssParser.ParseCount` | src/NzbDrone.Core/Indexers/Torznab/TorznabRssParser.cs:171 | `int.Parse` succeeds exactly when the text parses, and then returns the parsed 32-bit value |
| `TorznabRssParser.GetSeeders` | src/NzbDrone.Core/Indexers/Torznab/TorznabRssParser.cs:165-175 | fails exactly when the `seeders` attr is non-blank and does not parse as a 32-bit integer; blank gives the base value; a parsed value is returned |
| `TorznabRssParser.GetPeers` | src/NzbDrone.Core/Indexers/Torznab/TorznabRssParser.cs:177-195 | the failure condition along the whole chain; a parsed `peers` wins; a blank `peers` without both counts gives the base value; otherwise the 32-bit value congruent to seeders + leechers modulo 2^32, i.e. the unchecked sum |
| `TorznabRssParser.PeersFromSeedersAndLeechers` | src/NzbDrone.Core/Indexers/Torznab/TorznabRssParser.cs:186-192 | the sum is exact while it fits in 32 bits and wraps past either bound |
| `Numbers.ParseInteger` | src/NzbDrone.Core/Indexers/Torznab/TorznabRssParser.cs:114 | a parsed value always lies in the requested range |
| `Numbers.BlankDoesNotParse` | src/NzbDrone.Core/Indexers/Torznab/TorznabRssParser.cs:114 | a string `IsNullOrWhiteSpace` calls blank never parses |
| `Numbers.ParseFormatRoundTrip` | src/NzbDrone.Core/Indexers/Torznab/TorznabRssParser.cs:134 | parsing the decimal spelling of any in-range integer gives it back |
| `Numbers.Wrap32` | src/NzbDrone.Core/Indexers/Torznab/TorznabRssParser.cs:191 | the result is a 32-bit integer congruent to the input modulo 2^32 |
| `Text.ContainsIffOccurs` | src/NzbDrone.Core/Indexers/Torznab/TorznabRssParser.cs:46 | the substring search succeeds exactly when the text occurs at some index |
| `Text.TrimSuffix` | src/NzbDrone.Core/Indexers/Torznab/TorznabRssParser.cs:79 | with the postfix present, the result plus the postfix is the input; otherwise the input is unchanged |
| `Seqs.FilterMapAppend` | src/NzbDrone.Core/Indexers/Torznab/TorznabRssParser.cs:98-106 | the built list of a concatenation is the concatenation of the built lists (order kept) |
| `Seqs.FilterMapMember` | src/NzbDrone.Core/Indexers/Torznab/TorznabRssParser.cs:132-138 | a value is in the built list exactly when some element maps to it |
| `Seqs.Distinct` | src/NzbDrone.Core/Indexers/Torznab/TorznabRssParser.cs:61 | same members as the input, no duplicates, the input's first element first |
| `TorznabScenarios.InvalidKeyBeforeMissingParameter` | src/NzbDrone.Core/Indexers/Torznab/TorznabRssParser.cs:41-49 | code 150 with "Missing parameter" is an invalid key for every response, with or without an HTTP error status |
| `TorznabScenarios.MissingKeyAndRateLimit` | src/NzbDrone.Core/Indexers/Torznab/TorznabRssParser.cs:46-54 | code 200 with "Missing parameter" and no key is a missing key; with "Request limit reached" it is the rate limit, with or without an HTTP error status |
| `TorznabScenarios.SizeScenarios` | src/NzbDrone.Core/Indexers/Torznab/TorznabRssParser.cs:111-122 | size 12345 beats enclosure length 9876; no size gives 9876; "-5" gives -5 |
| `TorznabScenarios.PeersScenario` | src/NzbDrone.Core/Indexers/Torznab/TorznabRssParser.cs:186-192 | seeders 10 and leechers 5 give 15 peers |
| `TorznabScenarios.BadSeedersScenario` | src/NzbDrone.Core/Indexers/Torznab/TorznabRssParser.cs:169-191 | seeders "abc" fails `GetSeeders`; with leechers "5" and no `peers` it also fails `GetPeers` instead of giving the base value, and without leechers `GetPeers` gives the base value |
| `TorznabScenarios.CategoryScenario` | src/NzbDrone.Core/Indexers/Torznab/TorznabRssParser.cs:124-141 | "5030", "abc", "2000" give [5030, 2000] |
| `TorznabScenarios.LanguageScenario` | src/NzbDrone.Core/Indexers/Torznab/TorznabRssParser.cs:87-109 | "English" and an unknown name give [English]; plain elements are not read |

## Left out

- `CleanupOrphanedBlocklist` (src/NzbDrone.Core/Housekeeping/Housekeepers/CleanupOrphanedBlocklist.cs) is a single SQL `DELETE` with no logic. It is not part of this model.
- XML loading and well-formedness (`LoadXmlDocument`), and navigation with `XElement`. The document is given as its first `<error>` element, and each item as a record of its attrs, plain `<language>` texts, comments text and enclosures.
- The base parser (`TorrentRssParser`/`RssParser`) is not part of this model. That covers the template that runs the hooks over every item, and the base members `PreProcess`, `GetDownloadUrl`, `GetSeeders`, `GetPeers`, `GetEnclosures`, `GetEnclosureLength` and `ParseUrl`, and the mime-type sets. Their results are parameters. Each `<enclosure>` element is taken as one enclosure.
- `IsoLanguages.FindByName` and `Uri.IsWellFormedUriString` are external library calls. They are function parameters.
- `PostProcess`: logging is out; only the choice of warning and the type it names are modelled.
- `TorznabRssParser.NameMatches`: case-insensitive comparison folds ASCII letters only. `OrdinalIgnoreCase` also folds other letters by Unicode simple case mapping.
- `Numbers.ParseInteger`: culture-specific signs and .NET's tolerance of trailing NUL characters are not modelled. Signs are the invariant culture's `-` and `+`.
- `Text.TrimSuffix`: `TrimEnd(postfix)` comes from the project's common string extensions, which are not part of this model. It is modelled as removing one trailing occurrence, compared ordinally.
- An `attr` element without a `name` attribute makes the source throw a null reference. The model gives every attr a name.
- The message text of `TorznabException` is not modelled. The error carries the description it formats.
- `TorznabRssParser.GetInfoHash` and `TorznabRssParser.GetMagnetUrl`: their contracts say only that the result is empty or the value of some matching attr. That it is the first match's value follows from the contract of `TryGetTorznabAttribute`, which their bodies call.
