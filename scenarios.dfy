/** Worked scenarios: concrete feeds and items run through the Torznab parser model,
    one lemma per worked example feed or item. */
module TorznabScenarios {
  import opened Wrappers
  import Numbers
  import Seqs
  import Text
  import opened TorznabRssParser

  /** `<error code="150" description="Missing parameter"/>` is an invalid key, whether or
      not the request carried one, and whether or not it came with an HTTP error status. */
  lemma InvalidKeyBeforeMissingParameter(response: Response)
    ensures PreProcess(response, Pass, Some(ErrorElement(Some("150"), Some("Missing parameter"))))
         == Fail(ApiKey("Invalid API key"))
  {
    Numbers.ParseFormatRoundTrip(150, Numbers.Int32Min, Numbers.Int32Max);
    assert Numbers.FormatInteger(150) == "150";
  }

  /** `<error code="200" description="Missing parameter"/>` on a request without
      `apikey=` is a missing key; `description="Request limit reached"` is the rate
      limit. */
  lemma MissingKeyAndRateLimit(response: Response)
    requires !Text.Contains(response.requestUrl, "apikey=")
    ensures PreProcess(response, Pass, Some(ErrorElement(Some("200"), Some("Missing parameter"))))
         == Fail(ApiKey("Indexer requires an API key"))
    ensures PreProcess(response, Pass, Some(ErrorElement(Some("200"), Some("Request limit reached"))))
         == Fail(RequestLimitReached("API limit reached"))
  {
    Numbers.ParseFormatRoundTrip(200, Numbers.Int32Min, Numbers.Int32Max);
    assert Numbers.FormatInteger(200) == "200";
  }

  /** An explicit `size` wins over the enclosure length, which is used when there is
      none; a negative size is accepted as it is. */
  lemma SizeScenarios()
    ensures GetSize(Item([Attr("size", Some("12345"))], [], "", []), 9876) == 12345
    ensures GetSize(Item([], [], "", []), 9876) == 9876
    ensures GetSize(Item([Attr("size", Some("-5"))], [], "", []), 9876) == -5
  {
    Numbers.ParseFormatRoundTrip(12345, Numbers.Int64Min, Numbers.Int64Max);
    assert Numbers.DigitString(123) == "123";
    assert Numbers.FormatInteger(12345) == "12345";
  }

  /** Seeders 10 and leechers 5 without a `peers` attr give 15 peers. */
  lemma PeersScenario(basePeers: Option<int>)
    ensures GetPeers(Item([Attr("seeders", Some("10")), Attr("leechers", Some("5"))], [], "", []), basePeers)
         == Success(Some(15))
  {
  }

  /** Seeders "abc" fails `GetSeeders`; with leechers "5" and no `peers` it also fails
      `GetPeers` instead of giving the base value, while on its own it leaves `GetPeers`
      at the base value, because the sum is taken only when both counts are present. */
  lemma BadSeedersScenario(baseSeeders: Option<int>, basePeers: Option<int>)
    ensures GetSeeders(Item([Attr("seeders", Some("abc"))], [], "", []), baseSeeders)
         == Failure(BadNumber("abc"))
    ensures GetPeers(Item([Attr("seeders", Some("abc")), Attr("leechers", Some("5"))], [], "", []), basePeers)
         == Failure(BadNumber("abc"))
    ensures GetPeers(Item([Attr("seeders", Some("abc"))], [], "", []), basePeers)
         == Success(basePeers)
  {
    assert "abc"[0] == 'a' && "5"[0] == '5';
  }

  /** The three `category` attrs contribute their values unchanged, in order. */
  lemma CategoryValues()
    ensures MatchingValues([Attr("category", Some("5030")), Attr("category", Some("abc")),
                            Attr("category", Some("2000"))], "category") == ["5030", "abc", "2000"]
  {
    var attrs := [Attr("category", Some("5030")), Attr("category", Some("abc")), Attr("category", Some("2000"))];
    var values := ["5030", "abc", "2000"];
    var f := ValueIfNamed("category");
    assert forall i :: 0 <= i < 3 ==> f(attrs[i]) == Some(values[i]);
    Seqs.FilterMapTotal(attrs, f);
  }

  /** Categories "5030", "abc", "2000" give [5030, 2000]. */
  lemma CategoryScenario()
    ensures CategoriesOf([Attr("category", Some("5030")), Attr("category", Some("abc")),
                          Attr("category", Some("2000"))]) == [5030, 2000]
  {
    CategoryValues();
    Numbers.ParseFormatRoundTrip(5030, Numbers.Int32Min, Numbers.Int32Max);
    Numbers.ParseFormatRoundTrip(2000, Numbers.Int32Min, Numbers.Int32Max);
    assert Numbers.DigitString(503) == "503";
    assert Numbers.FormatInteger(5030) == "5030";
    assert Numbers.DigitString(200) == "200";
    assert Numbers.FormatInteger(2000) == "2000";
    assert Numbers.ParseInt32("abc") == None;
    var values := ["5030", "abc", "2000"];
    assert values == ["5030"] + ["abc"] + ["2000"];
    Seqs.FilterMapAppend(["5030"] + ["abc"], ["2000"], Numbers.ParseInt32);
    Seqs.FilterMapAppend(["5030"], ["abc"], Numbers.ParseInt32);
  }

  /** `language` attrs "English" and an unknown name give just English; the plain
      `<language>` element is not read because attrs were found. */
  lemma LanguageScenario<L>(findByName: string -> Option<L>, english: L)
    requires findByName("English") == Some(english)
    requires findByName("XYZZY-NOT-A-LANGUAGE") == None
    ensures LanguagesOf(Item([Attr("language", Some("English")), Attr("language", Some("XYZZY-NOT-A-LANGUAGE"))],
                             ["French"], "", []), findByName) == [english]
  {
    var attrs := [Attr("language", Some("English")), Attr("language", Some("XYZZY-NOT-A-LANGUAGE"))];
    var names := ["English", "XYZZY-NOT-A-LANGUAGE"];
    var f := ValueIfNamed("language");
    assert forall i :: 0 <= i < 2 ==> f(attrs[i]) == Some(names[i]);
    Seqs.FilterMapTotal(attrs, f);
    assert MatchingValues(attrs, "language") == names;
    assert names == ["English"] + ["XYZZY-NOT-A-LANGUAGE"];
    Seqs.FilterMapAppend(["English"], ["XYZZY-NOT-A-LANGUAGE"], findByName);
  }
}
