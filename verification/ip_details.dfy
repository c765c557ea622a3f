/**
  buildAPIUrl of src/composables/useIPDetails.ts: the lookup URL for a search
  term. The base URL and the API key are opaque strings; the thrown Error
  becomes a `Failure` carrying its message.
*/
module IpDetails {
  import opened Wrappers
  import opened JsTrim
  import opened UriEncoding
  import opened IpValidation

  /** The geolocation endpoint every lookup goes to; the lemmas below hold for any base URL. */
  const IpifyBaseUrl := "https://geo.ipify.org/api/v2/country,city"

  const InvalidInputMessage := "Please enter a valid IP address or domain name"
  const IpAddressParameter := "&ipAddress="
  const DomainParameter := "&domain="

  /** `${baseUrl}?apiKey=${apiKey}`: the URL every lookup starts from. */
  function ApiBase(baseUrl: string, apiKey: string): (url: string)
    ensures |baseUrl| < |url| && url[..|baseUrl|] == baseUrl && url[|baseUrl|] == '?'
    ensures |apiKey| < |url| && url[|url| - |apiKey|..] == apiKey
  {
    UrlPieces(baseUrl, "?apiKey=", apiKey);
    baseUrl + "?apiKey=" + apiKey
  }

  /** buildAPIUrl(term): the base URL for a blank term, one `ipAddress` or `domain`
      parameter for a valid term (IPv4 tried first), the error otherwise. */
  function BuildApiUrl(baseUrl: string, apiKey: string, term: string): (r: Result<string, string>)
    ensures r.Failure? <==> Trim(term) != [] && !IsValidIPAddress(Trim(term)) && !IsValidDomain(Trim(term))
    ensures r.Failure? ==> r.error == InvalidInputMessage
    ensures r.Success? ==> ApiBase(baseUrl, apiKey) <= r.value
  {
    var url := ApiBase(baseUrl, apiKey);
    var trimmedTerm := Trim(term);
    if trimmedTerm != [] then
      if IsValidIPAddress(trimmedTerm) then
        PrefixOfAppend(url, IpAddressParameter, EncodeUriComponent(trimmedTerm));
        Success(url + IpAddressParameter + EncodeUriComponent(trimmedTerm))
      else if IsValidDomain(trimmedTerm) then
        PrefixOfAppend(url, DomainParameter, EncodeUriComponent(trimmedTerm));
        Success(url + DomainParameter + EncodeUriComponent(trimmedTerm))
      else
        Failure(InvalidInputMessage)
    else
      Success(url)
  }

  // Stated on plain variables so that the solver need not reason about the literal pieces of a URL.
  lemma UrlPieces(a: string, b: string, c: string)
    ensures (a + b + c)[..|a|] == a && (a + b + c)[|a + b + c| - |c|..] == c
    ensures |b| > 0 ==> (a + b + c)[|a|] == b[0]
  {
  }

  // Stated on plain variables so that the solver need not reason about the literal pieces of a URL.
  lemma PrefixOfAppend(a: string, b: string, c: string)
    ensures a <= a + b + c
  {
  }

  /** What either validator accepts is left unchanged by encodeURIComponent. */
  lemma AcceptedTermIsNotEscaped(t: string)
    requires IsValidIPAddress(t) || IsValidDomain(t)
    ensures EncodeUriComponent(t) == t
  {
    AcceptedCharacters(t);
    assert AllUnescaped(t) by {
      forall i | 0 <= i < |t| ensures IsUriUnescaped(t[i]) {
        assert IsHostChar(t[i]);
      }
    }
    EncodeUnescapedIsIdentity(t);
  }

  /** An empty or all-white-space term, the default "" included, sends no
      lookup parameter: the result is the base URL alone. */
  lemma BlankTermGivesBaseUrl(baseUrl: string, apiKey: string, term: string)
    requires AllWhiteSpace(term)
    ensures BuildApiUrl(baseUrl, apiKey, term) == Success(baseUrl + "?apiKey=" + apiKey)
    ensures BuildApiUrl(baseUrl, apiKey, "") == Success(baseUrl + "?apiKey=" + apiKey)
  {
    assert AllWhiteSpace("");
  }

  /** A trimmed term that is an IPv4 address is sent verbatim as `ipAddress`. */
  lemma IpAddressTermGivesIpAddressParameter(baseUrl: string, apiKey: string, term: string)
    requires IsValidIPAddress(Trim(term))
    ensures BuildApiUrl(baseUrl, apiKey, term) == Success(ApiBase(baseUrl, apiKey) + IpAddressParameter + Trim(term))
  {
    AcceptedTermIsNotEscaped(Trim(term));
    AcceptedCharacters(Trim(term));
  }

  /** IPv4 is tried first: a term both validators accept never gets a `domain` parameter. */
  lemma IpAddressTakesPriority(baseUrl: string, apiKey: string, term: string)
    requires IsValidIPAddress(Trim(term)) && IsValidDomain(Trim(term))
    ensures var r := BuildApiUrl(baseUrl, apiKey, term);
      r.Success? && !(DomainParameter <= r.value[|ApiBase(baseUrl, apiKey)|..])
  {
    UrlShape(baseUrl, apiKey, term);
    AddressParameterIsNotDomain(Trim(term));
  }

  lemma AddressParameterIsNotDomain(t: string)
    ensures !(DomainParameter <= IpAddressParameter + t)
  {
    assert (IpAddressParameter + t)[1] == 'i';
  }

  /** A trimmed term that is a domain and not an IPv4 address is sent verbatim as `domain`. */
  lemma DomainTermGivesDomainParameter(baseUrl: string, apiKey: string, term: string)
    requires !IsValidIPAddress(Trim(term)) && IsValidDomain(Trim(term))
    ensures BuildApiUrl(baseUrl, apiKey, term) == Success(ApiBase(baseUrl, apiKey) + DomainParameter + Trim(term))
  {
    AcceptedTermIsNotEscaped(Trim(term));
    AcceptedCharacters(Trim(term));
  }

  /** A trimmed term holding any character outside [A-Za-z0-9.-] is refused with the message. */
  lemma ForeignCharacterFails(baseUrl: string, apiKey: string, term: string, k: nat)
    requires k < |Trim(term)| && !IsHostChar(Trim(term)[k])
    ensures BuildApiUrl(baseUrl, apiKey, term) == Failure(InvalidInputMessage)
  {
    ForeignCharacterRejected(Trim(term), k);
  }

  /** Leading and trailing white space of the term does not matter. */
  lemma TrimmingTermChangesNothing(baseUrl: string, apiKey: string, term: string)
    ensures BuildApiUrl(baseUrl, apiKey, term) == BuildApiUrl(baseUrl, apiKey, Trim(term))
  {
    TrimIdempotent(term);
  }

  lemma PaddingChangesNothing(baseUrl: string, apiKey: string, w1: string, term: string, w2: string)
    requires AllWhiteSpace(w1) && AllWhiteSpace(w2)
    ensures BuildApiUrl(baseUrl, apiKey, w1 + term + w2) == BuildApiUrl(baseUrl, apiKey, term)
  {
    TrimIgnoresPadding(w1, term, w2);
  }

  /** The number of times `c` occurs in `s`. */
  function Occurrences(s: string, c: char): (n: nat)
    ensures n <= |s|
    ensures n == 0 <==> c !in s
  {
    if s == [] then 0 else (if s[0] == c then 1 else 0) + Occurrences(s[1..], c)
  }

  lemma {:induction false} OccurrencesOfConcat(a: string, b: string, c: char)
    ensures Occurrences(a + b, c) == Occurrences(a, c) + Occurrences(b, c)
  {
    if a != [] {
      assert (a + b)[1..] == a[1..] + b;
      OccurrencesOfConcat(a[1..], b, c);
    } else {
      assert a + b == b;
    }
  }

  /** The part of a successful URL after the base: nothing for a blank term,
      otherwise one parameter, `ipAddress` for an address and `domain` for
      anything else, whose value is the trimmed term itself. */
  lemma UrlShape(baseUrl: string, apiKey: string, term: string)
    requires BuildApiUrl(baseUrl, apiKey, term).Success?
    ensures var url := BuildApiUrl(baseUrl, apiKey, term).value;
      var q := url[|ApiBase(baseUrl, apiKey)|..];
      && (Trim(term) == [] ==> q == [])
      && (Trim(term) != [] && IsValidIPAddress(Trim(term)) ==> q == IpAddressParameter + Trim(term))
      && (Trim(term) != [] && !IsValidIPAddress(Trim(term)) ==> q == DomainParameter + Trim(term))
  {
    var t := Trim(term);
    if t == [] {
      BlankTermGivesBaseUrl(baseUrl, apiKey, term);
      NothingAfter(ApiBase(baseUrl, apiKey));
    } else if IsValidIPAddress(t) {
      IpAddressTermGivesIpAddressParameter(baseUrl, apiKey, term);
      SuffixAfter(ApiBase(baseUrl, apiKey), IpAddressParameter, t);
    } else {
      DomainTermGivesDomainParameter(baseUrl, apiKey, term);
      SuffixAfter(ApiBase(baseUrl, apiKey), DomainParameter, t);
    }
  }

  // Stated on a plain variable so that the solver need not reason about the literal pieces of a URL.
  lemma NothingAfter(base: string)
    ensures base[|base|..] == []
  {
  }

  // Stated on plain variables so that the solver need not reason about the literal pieces of a URL.
  lemma SuffixAfter(base: string, p: string, t: string)
    ensures (base + p + t)[|base|..] == p + t
  {
  }

  /** One `&key=value` parameter whose key and value hold neither '&' nor '='. */
  lemma OneParameterCounts(key: string, value: string)
    requires '&' !in key && '=' !in key && '&' !in value && '=' !in value
    ensures var p := "&" + key + "=" + value; Occurrences(p, '&') == 1 && Occurrences(p, '=') == 1
  {
    var amp, eq := "&", "=";
    assert Occurrences(amp, '&') == 1 && Occurrences(amp, '=') == 0 by { assert amp[1..] == []; }
    assert Occurrences(eq, '&') == 0 && Occurrences(eq, '=') == 1 by { assert eq[1..] == []; }
    OccurrencesOfConcat(amp + key + eq, value, '&');
    OccurrencesOfConcat(amp + key + eq, value, '=');
    OccurrencesOfConcat(amp + key, eq, '&');
    OccurrencesOfConcat(amp + key, eq, '=');
    OccurrencesOfConcat(amp, key, '&');
    OccurrencesOfConcat(amp, key, '=');
  }

  lemma ParameterPartCounts(q: string, t: string)
    requires q == [] || q == IpAddressParameter + t || q == DomainParameter + t
    requires forall i | 0 <= i < |t| :: IsHostChar(t[i])
    ensures Occurrences(q, '&') <= 1 && Occurrences(q, '=') == Occurrences(q, '&')
  {
    assert '&' !in t && '=' !in t by {
      forall i | 0 <= i < |t| ensures t[i] != '&' && t[i] != '=' { assert IsHostChar(t[i]); }
    }
    if q != [] {
      var key := if q == IpAddressParameter + t then "ipAddress" else "domain";
      assert '&' !in key && '=' !in key;
      assert q == "&" + key + "=" + t;
      OneParameterCounts(key, t);
    }
  }

  /** A successful URL has at most one parameter after the base: at most one
      '&', and as many '=' as '&'. */
  lemma AtMostOneParameter(baseUrl: string, apiKey: string, term: string)
    requires BuildApiUrl(baseUrl, apiKey, term).Success?
    ensures var q := BuildApiUrl(baseUrl, apiKey, term).value[|ApiBase(baseUrl, apiKey)|..];
      Occurrences(q, '&') <= 1 && Occurrences(q, '=') == Occurrences(q, '&')
  {
    var t := Trim(term);
    var q := BuildApiUrl(baseUrl, apiKey, term).value[|ApiBase(baseUrl, apiKey)|..];
    UrlShape(baseUrl, apiKey, term);
    if t != [] {
      AcceptedCharacters(t);
    }
    ParameterPartCounts(q, t);
  }

  /** The parameter part of a URL determines the value it carries. */
  lemma ParameterDeterminesValue(q: string, t1: string, t2: string)
    requires q == IpAddressParameter + t1 || q == DomainParameter + t1
    requires q == IpAddressParameter + t2 || q == DomainParameter + t2
    ensures t1 == t2
  {
    if q[1] == 'i' {
      assert q == IpAddressParameter + t1 && q == IpAddressParameter + t2;
      assert t1 == q[|IpAddressParameter|..] == t2;
    } else {
      assert q == DomainParameter + t1 && q == DomainParameter + t2;
      assert t1 == q[|DomainParameter|..] == t2;
    }
  }

  /** Two terms that give the same URL are the same once trimmed: the URL
      determines the trimmed term. */
  lemma UrlDeterminesTrimmedTerm(baseUrl: string, apiKey: string, term1: string, term2: string)
    requires BuildApiUrl(baseUrl, apiKey, term1).Success?
    requires BuildApiUrl(baseUrl, apiKey, term1) == BuildApiUrl(baseUrl, apiKey, term2)
    ensures Trim(term1) == Trim(term2)
  {
    var q := BuildApiUrl(baseUrl, apiKey, term1).value[|ApiBase(baseUrl, apiKey)|..];
    UrlShape(baseUrl, apiKey, term1);
    UrlShape(baseUrl, apiKey, term2);
    var t1, t2 := Trim(term1), Trim(term2);
    if t1 != [] && t2 != [] {
      ParameterDeterminesValue(q, t1, t2);
    }
  }
}
