/** The Torznab dialect of the RSS feed parser: the protocol error classifier run
    before items are read, the enclosure mime-type diagnostic run after, the lookups
    in an item's bag of `<torznab:attr name value>` elements, and the per-field
    extractors with their fallback chains. */
module TorznabRssParser {
  import opened Wrappers
  import Text
  import Numbers
  import Seqs

  /** The anchor that `GetInfoUrl` strips from the end of the comments link. */
  const CommentsAnchor: string := "#comments"

  /** One `<torznab:attr>` element: its `name` attribute and, when present, its
      `value` attribute. */
  datatype Attr = Attr(name: string, value: Option<string>)

  /** One `<enclosure>` element: its `url` and `type` attributes, each optional. */
  datatype Enclosure = Enclosure(url: Option<string>, mimeType: Option<string>)

  /** One feed item as the extractors see it. */
  datatype Item = Item(
    attrs: seq<Attr>,             // the `attr` children in the {http://torznab.com/schemas/2015/feed}
                                  // namespace, in document order
    plainLanguages: seq<string>,  // the text of plain `<language>` children, in order
    comments: string,             // the `<comments>` text, "" when there is none
    enclosures: seq<Enclosure>)   // the `<enclosure>` children, in document order

  /** What `PreProcess` reads of the fetched response. */
  datatype Response = Response(requestUrl: string, hasHttpError: bool, contentType: Option<string>)

  /** The first `<error>` element of the document: its `code` and `description`
      attributes, each optional. */
  datatype ErrorElement = ErrorElement(code: Option<string>, description: Option<string>)

  /** The exceptions that abort a parse. */
  datatype ParserError =
    | ApiKey(message: string)               // ApiKeyException
    | RequestLimitReached(message: string)  // RequestLimitReachedException
    | Torznab(description: string)          // TorznabException, "Torznab error detected: {0}"
    | Indexer(message: string)              // raised by the base class's own PreProcess
    | BadNumber(text: string)               // int.Parse / Convert.ToInt32 rejected `text`
    | NullReference(missing: string)        // a missing element or attribute was dereferenced

  /** The warning `PostProcess` logs, if any, with the first mime type found. */
  datatype MimeTypeWarning =
    | NoWarning
    | LooksLikeNewznab(found: Option<string>)     // usenet mime types: wrong protocol
    | UnexpectedMimeTypes(found: Option<string>)  // some other unexpected mime types

  // ---------------------------------------------------------------------------
  // PreProcess: protocol error classification
  // ---------------------------------------------------------------------------

  /** An HTTP error whose content type is missing or does not mention xml: the case in
      which the base class's checks run first. */
  predicate NonXmlHttpError(response: Response) {
    response.hasHttpError &&
    (response.contentType.None? || !Text.Contains(response.contentType.value, "xml"))
  }

  /** `PreProcess`: `Pass` lets item extraction go ahead; every other outcome is the
      exception that aborts the parse. `basePreProcess` is what the base class's check
      does with this response; `error` is the document's first `<error>` element. */
  function PreProcess(response: Response, basePreProcess: Outcome<ParserError>,
                      error: Option<ErrorElement>): (r: Outcome<ParserError>)
    ensures r == Pass <==> error.None? && !(NonXmlHttpError(response) && basePreProcess.Fail?)
    ensures NonXmlHttpError(response) && basePreProcess.Fail? ==> r == basePreProcess
  {
    if NonXmlHttpError(response) && basePreProcess.Fail? then basePreProcess
    else match error
      case None => Pass
      case Some(e) =>
        if e.code.None? then Fail(NullReference("code"))
        else match Numbers.ParseInt32(e.code.value)
          case None => Fail(BadNumber(e.code.value))
          case Some(code) =>
            if e.description.None? then Fail(NullReference("description"))
            else
              var message := e.description.value;
              if 100 <= code <= 199 then Fail(ApiKey("Invalid API key"))
              else if !Text.Contains(response.requestUrl, "apikey=") && message == "Missing parameter"
              then Fail(ApiKey("Indexer requires an API key"))
              else if message == "Request limit reached" then Fail(RequestLimitReached("API limit reached"))
              else Fail(Torznab(message))
  }

  /** The classification of a well-formed `<error code description>` element, outcome
      by outcome, each stated as an if-and-only-if: a code in [100, 199] wins over every
      description, a missing key comes next, then the rate limit, then the rest. */
  lemma PreProcessClassifiesError(response: Response, basePreProcess: Outcome<ParserError>,
                                  codeText: string, code: int, description: string)
    requires !(NonXmlHttpError(response) && basePreProcess.Fail?)
    requires Numbers.ParseInt32(codeText) == Some(code)
    ensures var r := PreProcess(response, basePreProcess, Some(ErrorElement(Some(codeText), Some(description))));
      var invalidKey := 100 <= code <= 199;
      var keyMissing := !Text.Contains(response.requestUrl, "apikey=") && description == "Missing parameter";
      && (r == Fail(ApiKey("Invalid API key")) <==> invalidKey)
      && (r == Fail(ApiKey("Indexer requires an API key")) <==> !invalidKey && keyMissing)
      && (r == Fail(RequestLimitReached("API limit reached")) <==>
            !invalidKey && !keyMissing && description == "Request limit reached")
      && (r == Fail(Torznab(description)) <==>
            !invalidKey && !keyMissing && description != "Request limit reached")
  {
  }

  /** An `<error>` element whose code or description cannot be read aborts with the
      exception the read raises, before any code-range rule is consulted: a code of
      150 with no description is not classified as an invalid key. */
  lemma PreProcessMalformedError(response: Response, basePreProcess: Outcome<ParserError>,
                                 e: ErrorElement)
    requires !(NonXmlHttpError(response) && basePreProcess.Fail?)
    requires e.code.None? || Numbers.ParseInt32(e.code.value).None? || e.description.None?
    ensures var r := PreProcess(response, basePreProcess, Some(e));
      r.Fail? && (r.error.NullReference? || r.error.BadNumber?)
  {
  }

  // ---------------------------------------------------------------------------
  // PostProcess: enclosure mime-type diagnostic
  // ---------------------------------------------------------------------------

  /** The `type` of every enclosure of every item, in document order. */
  function EnclosureTypes(items: seq<Item>): seq<Option<string>> {
    if |items| == 0 then []
    else
      var last := items[|items| - 1].enclosures;
      EnclosureTypes(items[..|items| - 1]) + seq(|last|, i requires 0 <= i < |last| => last[i].mimeType)
  }

  /** Some listed mime type belongs to `mimeTypes` (`Intersect(...).Any()`). */
  predicate Intersects(types: seq<Option<string>>, mimeTypes: set<string>) {
    exists i :: 0 <= i < |types| && types[i].Some? && types[i].value in mimeTypes
  }

  lemma DistinctIntersects(types: seq<Option<string>>, mimeTypes: set<string>)
    ensures Intersects(Seqs.Distinct(types), mimeTypes) <==> Intersects(types, mimeTypes)
  {
    var d := Seqs.Distinct(types);
    if i :| 0 <= i < |types| && types[i].Some? && types[i].value in mimeTypes {
      var j :| 0 <= j < |d| && d[j] == types[i];
    }
    if i :| 0 <= i < |d| && d[i].Some? && d[i].value in mimeTypes {
      var j :| 0 <= j < |types| && types[j] == d[i];
    }
  }

  /** `PostProcess`: the warning chosen from the distinct enclosure types of all items,
      stated over the full list of types: none when there are no enclosures or some
      type is preferred; otherwise the wrong-protocol warning exactly when a usenet
      type is present, and both warnings name the first type in document order. */
  function PostProcess(items: seq<Item>, preferred: set<string>, usenet: set<string>): (r: MimeTypeWarning)
    ensures var all := EnclosureTypes(items);
      && (r == NoWarning <==> |all| == 0 || Intersects(all, preferred))
      && (r.LooksLikeNewznab? <==> |all| > 0 && !Intersects(all, preferred) && Intersects(all, usenet))
      && (!r.NoWarning? ==> r.found == all[0])
  {
    var all := EnclosureTypes(items);
    var types := Seqs.Distinct(all);
    DistinctIntersects(all, preferred);
    DistinctIntersects(all, usenet);
    if |types| > 0 && !Intersects(types, preferred) then
      if Intersects(types, usenet) then LooksLikeNewznab(types[0]) else UnexpectedMimeTypes(types[0])
    else NoWarning
  }

  // ---------------------------------------------------------------------------
  // Attribute-bag lookups
  // ---------------------------------------------------------------------------

  /** The attr's name equals `key`, ignoring case. */
  predicate NameMatches(a: Attr, key: string) {
    Text.EqualsIgnoreCase(a.name, key)
  }

  /** The position of the first attr named `key` (`FirstOrDefault`). */
  function FirstMatch(attrs: seq<Attr>, key: string): (r: Option<nat>)
    ensures r.Some? ==> r.value < |attrs| && NameMatches(attrs[r.value], key)
    ensures r.Some? ==> forall j :: 0 <= j < r.value ==> !NameMatches(attrs[j], key)
    ensures r.None? ==> forall j :: 0 <= j < |attrs| ==> !NameMatches(attrs[j], key)
  {
    if |attrs| == 0 then None
    else if NameMatches(attrs[0], key) then Some(0)
    else match FirstMatch(attrs[1..], key)
      case Some(i) => Some(i + 1)
      case None => None
  }

  /** `TryGetTorznabAttribute`: the value of the first attr named `key`; `defaultValue`
      when no attr has that name or the first one has no value, whatever later attrs of
      that name hold. */
  function TryGetTorznabAttribute(attrs: seq<Attr>, key: string, defaultValue: string): (r: string)
    ensures (forall j :: 0 <= j < |attrs| ==> !NameMatches(attrs[j], key)) ==> r == defaultValue
    ensures forall i :: 0 <= i < |attrs| && NameMatches(attrs[i], key) &&
              (forall j :: 0 <= j < i ==> !NameMatches(attrs[j], key))
              ==> r == attrs[i].value.GetOr(defaultValue)
  {
    match FirstMatch(attrs, key)
    case Some(i) => attrs[i].value.GetOr(defaultValue)
    case None => defaultValue
  }

  /** Attrs after the first one named `key` are never consulted. */
  lemma TryGetIgnoresLaterAttrs(attrs: seq<Attr>, rest: seq<Attr>, key: string, defaultValue: string)
    requires exists i :: 0 <= i < |attrs| && NameMatches(attrs[i], key)
    ensures TryGetTorznabAttribute(attrs + rest, key, defaultValue)
         == TryGetTorznabAttribute(attrs, key, defaultValue)
  {
    var i := FirstMatch(attrs, key).value;
    assert (attrs + rest)[i] == attrs[i];
    assert forall j :: 0 <= j < i ==> (attrs + rest)[j] == attrs[j];
  }

  /** The value an attr contributes to a lookup of `key`. */
  function ValueIfNamed(key: string): Attr -> Option<string> {
    a => if NameMatches(a, key) then a.value else None
  }

  /** The values of all attrs named `key` that have one, in document order: what
      `TryGetMultipleTorznabAttributes` returns. */
  function MatchingValues(attrs: seq<Attr>, key: string): seq<string> {
    Seqs.FilterMap(attrs, ValueIfNamed(key))
  }

  /** `MatchingValues` holds exactly the present values of the attrs named `key`, and
      never more values than there are attrs. */
  lemma MatchingValuesMember(attrs: seq<Attr>, key: string, v: string)
    ensures |MatchingValues(attrs, key)| <= |attrs|
    ensures v in MatchingValues(attrs, key) <==>
      exists i :: 0 <= i < |attrs| && NameMatches(attrs[i], key) && attrs[i].value == Some(v)
  {
    Seqs.FilterMapMember(attrs, ValueIfNamed(key), v);
  }

  /** The single-valued lookup agrees with the head of the multi-valued one when the
      first attr named `key` has a value, and falls back to the default when the
      multi-valued lookup finds nothing. */
  lemma SingleLookupIsFirstOfMultiple(attrs: seq<Attr>, key: string, defaultValue: string)
    ensures MatchingValues(attrs, key) == [] ==> TryGetTorznabAttribute(attrs, key, defaultValue) == defaultValue
    ensures FirstMatch(attrs, key).Some? && attrs[FirstMatch(attrs, key).value].value.Some? ==>
      MatchingValues(attrs, key) != [] &&
      MatchingValues(attrs, key)[0] == TryGetTorznabAttribute(attrs, key, defaultValue)
  {
    match FirstMatch(attrs, key)
    case None =>
    case Some(i) =>
      if attrs[i].value.Some? {
        assert forall j :: 0 <= j < i ==> ValueIfNamed(key)(attrs[j]).None?;
        Seqs.FilterMapFirst(attrs, ValueIfNamed(key), i);
      }
  }

  /** `TryGetMultipleTorznabAttributes`. */
  method TryGetMultipleTorznabAttributes(attrs: seq<Attr>, key: string) returns (results: seq<string>)
    ensures results == MatchingValues(attrs, key)
  {
    results := [];
    for n := 0 to |attrs|
      invariant results == MatchingValues(attrs[..n], key)
    {
      var element := attrs[n];
      if NameMatches(element, key) && element.value.Some? {
        results := results + [element.value.value];
      }
      assert attrs[..n + 1][..n] == attrs[..n];
    }
    assert attrs[..|attrs|] == attrs;
  }

  // ---------------------------------------------------------------------------
  // Field extractors
  // ---------------------------------------------------------------------------

  /** `GetInfoUrl`: the comments link without its trailing anchor, resolved by
      `parseUrl` against the indexer's address. */
  function GetInfoUrl(item: Item, parseUrl: Option<string> -> Option<string>): (r: Option<string>)
    ensures Text.EndsWith(item.comments, CommentsAnchor) ==>
      r == parseUrl(Some(item.comments[..|item.comments| - |CommentsAnchor|]))
    ensures !Text.EndsWith(item.comments, CommentsAnchor) ==> r == parseUrl(Some(item.comments))
  {
    parseUrl(Some(Text.TrimSuffix(item.comments, CommentsAnchor)))
  }

  /** `GetCommentUrl`: the comments link, resolved by `parseUrl`, anchor kept: the
      info link of the same item with the anchor appended to its comments. */
  function GetCommentUrl(item: Item, parseUrl: Option<string> -> Option<string>): (r: Option<string>)
    ensures r == GetInfoUrl(item.(comments := item.comments + CommentsAnchor), parseUrl)
  {
    Text.TrimSuffixAppended(item.comments, CommentsAnchor);
    parseUrl(Some(item.comments))
  }

  /** The info link is the comments link with the `#comments` anchor dropped, and equal
      to it when there is no anchor. */
  lemma InfoUrlDropsCommentsAnchor(item: Item, link: string, parseUrl: Option<string> -> Option<string>)
    ensures GetInfoUrl(item.(comments := link + CommentsAnchor), parseUrl)
         == GetCommentUrl(item.(comments := link), parseUrl)
    ensures !Text.EndsWith(item.comments, CommentsAnchor) ==>
      GetInfoUrl(item, parseUrl) == GetCommentUrl(item, parseUrl)
  {
    Text.TrimSuffixAppended(link, CommentsAnchor);
  }

  /** The language names an item offers: its `language` attr values, or the text of
      its plain `<language>` elements when it has none. */
  function RawLanguages(item: Item): seq<string> {
    var tagged := MatchingValues(item.attrs, "language");
    if |tagged| == 0 then item.plainLanguages else tagged
  }

  /** The languages `GetLanguages` returns: each raw name that `findByName` resolves,
      in order, unresolved names dropped. */
  function LanguagesOf<L>(item: Item, findByName: string -> Option<L>): seq<L> {
    Seqs.FilterMap(RawLanguages(item), findByName)
  }

  /** `GetLanguages`. */
  method GetLanguages<L>(item: Item, findByName: string -> Option<L>) returns (results: seq<L>)
    ensures results == LanguagesOf(item, findByName)
  {
    var languages := TryGetMultipleTorznabAttributes(item.attrs, "language");
    results := [];
    if |languages| == 0 {
      languages := item.plainLanguages;
    }
    for n := 0 to |languages|
      invariant results == Seqs.FilterMap(languages[..n], findByName)
    {
      var mappedLanguage := findByName(languages[n]);
      if mappedLanguage.Some? {
        results := results + [mappedLanguage.value];
      }
      assert languages[..n + 1][..n] == languages[..n];
    }
    assert languages[..|languages|] == languages;
  }

  /** Plain `<language>` elements are read only when no `language` attr has a value;
      the result is never longer than the list of names; a language is in it exactly
      when some name resolves to it. */
  lemma LanguagesProperties<L>(item: Item, findByName: string -> Option<L>, lang: L, plain: seq<string>)
    ensures MatchingValues(item.attrs, "language") != [] ==>
      LanguagesOf(item.(plainLanguages := plain), findByName) == LanguagesOf(item, findByName)
    ensures |LanguagesOf(item, findByName)| <= |RawLanguages(item)|
    ensures lang in LanguagesOf(item, findByName) <==>
      exists i :: 0 <= i < |RawLanguages(item)| && findByName(RawLanguages(item)[i]) == Some(lang)
  {
    Seqs.FilterMapMember(RawLanguages(item), findByName, lang);
  }

  /** `GetSize`: the `size` attr when it is non-blank and parses as a 64-bit integer
      (possibly negative), otherwise `enclosureLength`, the base class's reading of the
      enclosure. An unparsable size never fails the item. */
  function GetSize(item: Item, enclosureLength: int): (r: int)
    ensures var parsed := Numbers.ParseInt64(TryGetTorznabAttribute(item.attrs, "size", ""));
      r == parsed.GetOr(enclosureLength)
  {
    var sizeString := TryGetTorznabAttribute(item.attrs, "size", "");
    if !Text.IsBlank(sizeString) && Numbers.ParseInt64(sizeString).Some? then
      Numbers.ParseInt64(sizeString).value
    else
      Numbers.BlankDoesNotParse(sizeString, Numbers.Int64Min, Numbers.Int64Max);
      enclosureLength
  }

  /** The categories `GetCategories` returns: every `category` attr value that parses
      as a 32-bit integer, in order, duplicates kept. */
  function CategoriesOf(attrs: seq<Attr>): seq<int> {
    Seqs.FilterMap(MatchingValues(attrs, "category"), Numbers.ParseInt32)
  }

  /** `GetCategories`. */
  method GetCategories(item: Item) returns (cats: seq<int>)
    ensures cats == CategoriesOf(item.attrs)
  {
    var values := MatchingValues(item.attrs, "category");
    cats := [];
    for n := 0 to |values|
      invariant cats == Seqs.FilterMap(values[..n], Numbers.ParseInt32)
    {
      var cat := Numbers.ParseInt32(values[n]);
      if cat.Some? {
        cats := cats + [cat.value];
      }
      assert values[..n + 1][..n] == values[..n];
    }
    assert values[..|values|] == values;
  }

  /** A category is returned exactly when some `category` attr's value parses to it;
      every category fits in 32 bits; there are never more categories than attrs. */
  lemma CategoriesProperties(attrs: seq<Attr>, c: int)
    ensures |CategoriesOf(attrs)| <= |attrs|
    ensures c in CategoriesOf(attrs) <==>
      exists v :: v in MatchingValues(attrs, "category") && Numbers.ParseInt32(v) == Some(c)
    ensures c in CategoriesOf(attrs) ==> Numbers.Int32Min <= c <= Numbers.Int32Max
  {
    var values := MatchingValues(attrs, "category");
    Seqs.FilterMapMember(values, Numbers.ParseInt32, c);
    if v :| v in values && Numbers.ParseInt32(v) == Some(c) {
      var i :| 0 <= i < |values| && values[i] == v;
      assert Numbers.ParseInt32(values[i]) == Some(c);
    }
  }

  /** `GetDownloadUrl`: the base class's link when it is a well-formed absolute URI,
      otherwise the first enclosure's `url` resolved by `parseUrl`; an item without an
      enclosure then fails. */
  function GetDownloadUrl(item: Item, baseUrl: Option<string>, isWellFormedAbsolute: string -> bool,
                          parseUrl: Option<string> -> Option<string>): (r: Result<Option<string>, ParserError>)
    ensures r.Failure? <==> !(baseUrl.Some? && isWellFormedAbsolute(baseUrl.value)) && |item.enclosures| == 0
    ensures !(baseUrl.Some? && isWellFormedAbsolute(baseUrl.value)) && |item.enclosures| > 0 ==>
      r == Success(parseUrl(item.enclosures[0].url))
    ensures baseUrl.Some? && isWellFormedAbsolute(baseUrl.value) ==> r == Success(baseUrl)
  {
    if baseUrl.Some? && isWellFormedAbsolute(baseUrl.value) then Success(baseUrl)
    else if |item.enclosures| == 0 then Failure(NullReference("enclosure"))
    else Success(parseUrl(item.enclosures[0].url))
  }

  /** `GetInfoHash`: the first `infohash` attr's value, or "". */
  function GetInfoHash(item: Item): (r: string)
    ensures r == "" || (exists i :: 0 <= i < |item.attrs| &&
                          NameMatches(item.attrs[i], "infohash") && item.attrs[i].value == Some(r))
  {
    TryGetTorznabAttribute(item.attrs, "infohash", "")
  }

  /** `GetMagnetUrl`: the first `magneturl` attr's value, or "". */
  function GetMagnetUrl(item: Item): (r: string)
    ensures r == "" || (exists i :: 0 <= i < |item.attrs| &&
                          NameMatches(item.attrs[i], "magneturl") && item.attrs[i].value == Some(r))
  {
    TryGetTorznabAttribute(item.attrs, "magneturl", "")
  }

  /** `int.Parse` on a non-blank attr value: a rejected value aborts the parse. */
  function ParseCount(text: string): (r: Result<int, ParserError>)
    ensures r.Success? <==> Numbers.ParseInt32(text).Some?
    ensures r.Success? ==> Some(r.value) == Numbers.ParseInt32(text)
    ensures r.Success? ==> Numbers.Int32Min <= r.value <= Numbers.Int32Max
  {
    match Numbers.ParseInt32(text)
    case Some(n) => Success(n)
    case None => Failure(BadNumber(text))
  }

  /** `GetSeeders`: a non-blank `seeders` attr must parse, or the parse fails; a blank
      or missing one gives the base class's value `baseSeeders`. */
  function GetSeeders(item: Item, baseSeeders: Option<int>): (r: Result<Option<int>, ParserError>)
    ensures var s := TryGetTorznabAttribute(item.attrs, "seeders", "");
      && (r.Failure? <==> !Text.IsBlank(s) && Numbers.ParseInt32(s).None?)
      && (Text.IsBlank(s) ==> r == Success(baseSeeders))
      && (Numbers.ParseInt32(s).Some? ==> r == Success(Some(Numbers.ParseInt32(s).value)))
  {
    var seeders := TryGetTorznabAttribute(item.attrs, "seeders", "");
    if !Text.IsBlank(seeders) then
      match ParseCount(seeders)
      case Success(n) => Success(Some(n))
      case Failure(e) => Failure(e)
    else
      Numbers.BlankDoesNotParse(seeders, Numbers.Int32Min, Numbers.Int32Max);
      Success(baseSeeders)
  }

  /** `GetPeers`: a non-blank `peers` attr; else, when `seeders` and `leechers` are
      both non-blank, their sum with 32-bit wrap-around; else the base class's value
      `basePeers`. A non-blank value that does not parse fails the parse. */
  function GetPeers(item: Item, basePeers: Option<int>): (r: Result<Option<int>, ParserError>)
    ensures var p := TryGetTorznabAttribute(item.attrs, "peers", "");
      var s := TryGetTorznabAttribute(item.attrs, "seeders", "");
      var l := TryGetTorznabAttribute(item.attrs, "leechers", "");
      var bothCounts := !Text.IsBlank(s) && !Text.IsBlank(l);
      && (r.Failure? <==>
            if !Text.IsBlank(p) then Numbers.ParseInt32(p).None?
            else bothCounts && (Numbers.ParseInt32(s).None? || Numbers.ParseInt32(l).None?))
      && (Numbers.ParseInt32(p).Some? ==> r == Success(Some(Numbers.ParseInt32(p).value)))
      && (Text.IsBlank(p) && !bothCounts ==> r == Success(basePeers))
      && (Text.IsBlank(p) && Numbers.ParseInt32(s).Some? && Numbers.ParseInt32(l).Some? ==>
            r.Success? && r.value.Some? &&
            Numbers.Int32Min <= r.value.value <= Numbers.Int32Max &&
            (r.value.value - (Numbers.ParseInt32(s).value + Numbers.ParseInt32(l).value)) % 0x1_0000_0000 == 0)
  {
    var peers := TryGetTorznabAttribute(item.attrs, "peers", "");
    Numbers.BlankDoesNotParse(peers, Numbers.Int32Min, Numbers.Int32Max);
    if !Text.IsBlank(peers) then
      match ParseCount(peers)
      case Success(n) => Success(Some(n))
      case Failure(e) => Failure(e)
    else
      var seeders := TryGetTorznabAttribute(item.attrs, "seeders", "");
      var leechers := TryGetTorznabAttribute(item.attrs, "leechers", "");
      Numbers.BlankDoesNotParse(seeders, Numbers.Int32Min, Numbers.Int32Max);
      Numbers.BlankDoesNotParse(leechers, Numbers.Int32Min, Numbers.Int32Max);
      if !Text.IsBlank(seeders) && !Text.IsBlank(leechers) then
        match ParseCount(seeders)
        case Failure(e) => Failure(e)
        case Success(s) =>
          match ParseCount(leechers)
          case Failure(e) => Failure(e)
          case Success(l) => Success(Some(Numbers.Wrap32(s + l)))
      else
        Success(basePeers)
  }

  /** When `peers` is blank and both counts parse, the peers are their sum: exact
      while it fits in 32 bits, wrapped to a negative number past `int.MaxValue`, and
      to a non-negative one below `int.MinValue`. */
  lemma PeersFromSeedersAndLeechers(item: Item, basePeers: Option<int>, seeders: int, leechers: int)
    requires Text.IsBlank(TryGetTorznabAttribute(item.attrs, "peers", ""))
    requires Numbers.ParseInt32(TryGetTorznabAttribute(item.attrs, "seeders", "")) == Some(seeders)
    requires Numbers.ParseInt32(TryGetTorznabAttribute(item.attrs, "leechers", "")) == Some(leechers)
    ensures Numbers.Int32Min <= seeders + leechers <= Numbers.Int32Max ==>
      GetPeers(item, basePeers) == Success(Some(seeders + leechers))
    ensures seeders + leechers > Numbers.Int32Max ==>
      GetPeers(item, basePeers) == Success(Some(seeders + leechers - 0x1_0000_0000)) &&
      seeders + leechers - 0x1_0000_0000 < 0
    ensures seeders + leechers < Numbers.Int32Min ==>
      GetPeers(item, basePeers) == Success(Some(seeders + leechers + 0x1_0000_0000)) &&
      seeders + leechers + 0x1_0000_0000 >= 0
  {
    var sum := seeders + leechers;
    Numbers.BlankDoesNotParse(TryGetTorznabAttribute(item.attrs, "seeders", ""), Numbers.Int32Min, Numbers.Int32Max);
    Numbers.BlankDoesNotParse(TryGetTorznabAttribute(item.attrs, "leechers", ""), Numbers.Int32Min, Numbers.Int32Max);
    assert GetPeers(item, basePeers) == Success(Some(Numbers.Wrap32(sum)));
    if Numbers.Int32Min <= sum <= Numbers.Int32Max {
      Numbers.Wrap32InRange(sum);
    }
  }
}
