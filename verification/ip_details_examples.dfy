/** buildAPIUrl of src/composables/useIPDetails.ts on concrete search terms. */
module IpDetailsExamples {
  import opened Wrappers
  import opened JsTrim
  import opened IpValidation
  import opened IpValidationExamples
  import opened IpDetails

  /** A term with no white space at either end is its own trim. */
  lemma TrimmedAlready(term: string)
    requires term == [] || (!IsJsWhiteSpace(term[0]) && !IsJsWhiteSpace(term[|term| - 1]))
    ensures Trim(term) == term
  {
    TrimCharacterization([], term, []);
    assert [] + term + [] == term;
  }

  lemma IpAddressLookup(baseUrl: string, apiKey: string, term: string)
    requires term == "192.168.1.1"
    ensures BuildApiUrl(baseUrl, apiKey, term) == Success(baseUrl + "?apiKey=" + apiKey + "&ipAddress=" + term)
  {
    TrimmedAlready(term);
    IpAddressAccepted(term);
    IpAddressTermGivesIpAddressParameter(baseUrl, apiKey, term);
  }

  /** White space around a domain is dropped before it is checked and sent. */
  lemma PaddedDomainLookup(baseUrl: string, apiKey: string, term: string, domain: string)
    requires term == "  example.com\n" && domain == "example.com"
    ensures BuildApiUrl(baseUrl, apiKey, term) == Success(baseUrl + "?apiKey=" + apiKey + "&domain=" + domain)
  {
    assert term == "  " + domain + "\n";
    assert AllWhiteSpace("  ") && AllWhiteSpace("\n");
    TrimCharacterization("  ", domain, "\n");
    DomainAccepted(domain);
    DomainTermGivesDomainParameter(baseUrl, apiKey, term);
  }

  /** A term both validators accept is looked up as an address. */
  lemma AmbiguousTermLookup(baseUrl: string, apiKey: string, term: string)
    requires term == "10.20.30.40"
    ensures BuildApiUrl(baseUrl, apiKey, term) == Success(baseUrl + "?apiKey=" + apiKey + "&ipAddress=" + term)
  {
    TrimmedAlready(term);
    ValidatorsOverlap(term);
    IpAddressTermGivesIpAddressParameter(baseUrl, apiKey, term);
  }

  /** The default term "" and a term of spaces both give the bare base URL. */
  lemma DefaultLookup(baseUrl: string, apiKey: string, spaces: string)
    requires spaces == "   "
    ensures BuildApiUrl(baseUrl, apiKey, "") == Success(baseUrl + "?apiKey=" + apiKey)
    ensures BuildApiUrl(baseUrl, apiKey, spaces) == Success(baseUrl + "?apiKey=" + apiKey)
  {
    BlankTermGivesBaseUrl(baseUrl, apiKey, spaces);
  }

  /** The call with no argument on the real endpoint. */
  lemma IpifyDefaultLookup(apiKey: string)
    ensures BuildApiUrl(IpifyBaseUrl, apiKey, "") ==
      Success("https://geo.ipify.org/api/v2/country,city?apiKey=" + apiKey)
  {
    BlankTermGivesBaseUrl(IpifyBaseUrl, apiKey, "");
    assert IpifyBaseUrl + "?apiKey=" == "https://geo.ipify.org/api/v2/country,city?apiKey=";
  }
}
