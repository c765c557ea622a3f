# IP address tracker: input validation and lookup URL

This project models how the IP address tracker builds the URL for a
geolocation lookup. A user types a search term. The term is trimmed.
An empty term sends no lookup parameter. A dotted IPv4
address is sent as the `ipAddress` parameter. A domain name is sent as
the `domain` parameter. Anything else is refused with
"Please enter a valid IP address or domain name".

The model has eight modules:

- `IpValidation` (`ip_validation.dfy`) holds the two anchored regular
  expressions of `src/utils/ip.ts`. Each expression is built from one
  sub-expression that matches no '.' (the octet alternation, the label
  expression), repeated and separated by literal '.'s. So a string
  matches exactly when it has the right number of '.'-separated groups
  and each group matches the sub-expression. Both validators are
  written that way. The ghost predicates `MatchesIpRegex` and
  `MatchesDomainRegex` state the regular languages directly, and lemmas
  prove the two formulations agree.
- `DotGroups` (`dot_groups.dfy`) defines splitting on '.' and joining
  back, and proves the two are inverses.
- `JsTrim` (`js_trim.dfy`) models `String.prototype.trim`.
  Section 22.1.3.32 of ECMA-262 defines it: it strips WhiteSpace and
  LineTerminator code points from both ends.
- `UriEncoding` (`uri_encoding.dfy`) models `encodeURIComponent`
  (sections 19.2.6.5 and 19.2.6.6 of ECMA-262). It percent-encodes the
  UTF-8 octets of every character outside the unescaped set.
- `IpDetails` (`ip_details.dfy`) models `buildAPIUrl` as a function
  returning a `Result`. The thrown `Error` becomes a `Failure` that
  carries its message.
- `Wrappers` (`wrappers.dfy`) defines the `Result` type.
- `IpValidationExamples` (`ip_validation_examples.dfy`) and
  `IpDetailsExamples` (`ip_details_examples.dfy`) work the edge cases
  out on concrete strings.

The base URL and the API key are parameters: every lemma holds for any
value of either. The endpoint the application uses is the constant
`IpifyBaseUrl`.

`isValidDomain` does no normalisation: no scheme, `www.`, path or port
is stripped before matching. It has no limit on the total length, does
not require a letter in the last label, and rejects one-character
labels. The following are proved of the code as written:

- "a.com" is rejected.
- "example.12" is accepted.
- "https://www.example.com/path" is rejected.
- There is no length limit on the whole name.
- "10.20.30.40" is accepted by both validators. `buildAPIUrl` tries IPv4
  first, so the two classifications overlap rather than exclude each
  other.

## Model

| member | source | states |
|---|---|---|
| `DotGroups.Split` | src/utils/ip.ts:3 | the '.'-separated groups of a string: at least one group, and no group contains '.' |
| `DotGroups.JoinSplit` | src/utils/ip.ts:3 | joining the groups of any string with '.' gives the string back |
| `DotGroups.SplitJoin` | src/utils/ip.ts:9 | splitting a '.'-join of dot-free groups gives exactly those groups back |
| `DotGroups.SplitAtDot` | src/utils/ip.ts:9 | the groups of `a.b` are the groups of `a` followed by the groups of `b` |
| `DotGroups.SplitWithoutDot` | src/utils/ip.ts:9 | a string without '.' is a single group |
| `DotGroups.FirstGroupIsPrefix` | src/utils/ip.ts:9 | the first group is a prefix of the string |
| `DotGroups.LastGroupIsSuffix` | src/utils/ip.ts:9 | the last group is a suffix of the string |
| `DotGroups.JoinCharacters` | src/utils/ip.ts:9 | every character of a '.'-join is a '.' or a character of one of the groups |
| `IpValidation.IsOctet` | src/utils/ip.ts:3 | a string the octet alternation accepts has 1 to 3 characters, all decimal digits |
| `IpValidation.IsValidIPAddress` | src/utils/ip.ts:1-5 | an accepted address has 7 to 15 characters |
| `IpValidation.MatchesIpRegex` | src/utils/ip.ts:3 | a string in the language of the address regex has 7 to 15 characters |
| `IpValidation.IsLabel` | src/utils/ip.ts:9 | every character of an accepted label is in [a-zA-Z0-9-] |
| `IpValidation.IsValidDomain` | src/utils/ip.ts:7-11 | an accepted domain has at least 2 characters and starts and ends with an ASCII letter or digit |
| `IpValidation.MatchesDomainRegex` | src/utils/ip.ts:9 | a string in the language of the domain regex has at least 2 characters and starts with an ASCII letter or digit |
| `IpValidation.OctetIsDecimalOctet` | src/utils/ip.ts:3 | the octet alternation (`25[0-5]`, `2[0-4][0-9]` or `[01]?[0-9][0-9]?`) accepts exactly the strings of 1 to 3 decimal digits whose value is at most 255, leading zeros included (both directions) |
| `IpValidation.IpAddressIsFourDecimalOctets` | src/utils/ip.ts:1-5 | isValidIPAddress holds iff there are exactly four '.'-separated groups, each 1 to 3 digits worth at most 255 |
| `IpValidation.IpAddressMatchesRegex` | src/utils/ip.ts:3 | the split-based validator accepts exactly the language of the anchored regex: three octets each followed by '.', then one octet |
| `IpValidation.SplitOfDotted4` | src/utils/ip.ts:3 | a dotted quad of dot-free parts splits back into exactly those four parts |
| `IpValidation.OctetHasNoDot` | src/utils/ip.ts:3 | no string the octet alternation accepts contains '.' |
| `IpValidation.LabelHasNoDot` | src/utils/ip.ts:9 | no string the label expression accepts contains '.' |
| `IpValidation.DomainMatchesRegex` | src/utils/ip.ts:9 | isValidDomain holds iff the string is a '.'-join of one or more labels: 2 to 63 characters of [A-Za-z0-9-] with alphanumeric first and last characters |
| `IpValidation.DomainConcat` | src/utils/ip.ts:9 | `a.b` is a valid domain iff `a` and `b` both are |
| `IpValidation.DomainLabelStart` | src/utils/ip.ts:9 | in a valid domain, the character that starts the string or follows a '.' is alphanumeric and is followed by a character other than '.' |
| `IpValidation.DomainLabelEnd` | src/utils/ip.ts:9 | in a valid domain, the character that ends the string or precedes a '.' is alphanumeric and is preceded by a character other than '.' |
| `IpValidation.DomainBoundaries` | src/utils/ip.ts:7-11 | a valid domain has at least 2 characters, starts and ends alphanumeric, and every '.' sits between two alphanumeric characters, never in the first two or last two positions |
| `IpValidation.AcceptedCharacters` | src/utils/ip.ts:1-11 | whatever either validator accepts is non-empty and made only of [A-Za-z0-9.-] |
| `IpValidation.ForeignCharacterRejected` | src/utils/ip.ts:1-11 | one character outside [A-Za-z0-9.-] anywhere makes both validators reject |
| `IpValidationExamples.IpAddressAccepted` | src/utils/ip.ts:3 | "192.168.1.1" is an address |
| `IpValidationExamples.LeadingZerosAccepted` | src/utils/ip.ts:3 | "001.02.0.00" is an address |
| `IpValidationExamples.HighestAddressAccepted` | src/utils/ip.ts:3 | "255.255.255.255" is an address |
| `IpValidationExamples.IpAddressOctetTooLarge` | src/utils/ip.ts:3 | "256.1.1.1" is not an address |
| `IpValidationExamples.IpAddressTooFewGroups` | src/utils/ip.ts:3 | "1.2.3" is not an address |
| `IpValidationExamples.IpAddressTooManyGroups` | src/utils/ip.ts:3 | "1.2.3.4.5" is not an address |
| `IpValidationExamples.EmptyStringRejected` | src/utils/ip.ts:1-11 | the empty string is neither an address nor a domain |
| `IpValidationExamples.SurroundingSpaceRejected` | src/utils/ip.ts:1-11 | " 1.2.3.4" and "1.2.3.4 " are neither, since matching covers the whole string |
| `IpValidationExamples.SingleLabelAccepted` | src/utils/ip.ts:9 | "localhost" is a domain |
| `IpValidationExamples.DomainAccepted` | src/utils/ip.ts:1-11 | "example.com" is a domain and not an address |
| `IpValidationExamples.NumericTopLevelLabelAccepted` | src/utils/ip.ts:9 | "example.12" is a domain: no label must hold a letter |
| `IpValidationExamples.HyphenatedDomainAccepted` | src/utils/ip.ts:9 | "my-host.example.org" is a domain |
| `IpValidationExamples.DomainOneCharacterLabel` | src/utils/ip.ts:9 | "a.com" is not a domain: labels have at least two characters |
| `IpValidationExamples.DomainInnerEmptyLabel` | src/utils/ip.ts:9 | "a..bc" is not a domain |
| `IpValidationExamples.DomainOuterEmptyLabel` | src/utils/ip.ts:9 | ".ab" and "ab." are not domains |
| `IpValidationExamples.DomainHyphenAtLabelEnds` | src/utils/ip.ts:9 | "-bad-.com" and "ab-.com" are not domains: no label starts or ends with '-' |
| `IpValidationExamples.UrlNotStripped` | src/utils/ip.ts:9 | "https://www.example.com/path" is not a domain: nothing is stripped before matching |
| `IpValidationExamples.PortNotStripped` | src/utils/ip.ts:9 | "example.com:8080" is not a domain |
| `IpValidationExamples.LabelLengthLimit` | src/utils/ip.ts:9 | a run of n >= 2 letters is a domain iff n <= 63 |
| `IpValidationExamples.ChainIsDomain` | src/utils/ip.ts:9 | "ab.ab. ... .ab" with k + 1 labels is a domain of length 3k + 2 |
| `IpValidationExamples.NoTotalLengthLimit` | src/utils/ip.ts:9 | valid domains exist beyond any length |
| `IpValidationExamples.ValidatorsOverlap` | src/utils/ip.ts:1-11 | "10.20.30.40" passes both validators |
| `IpValidationExamples.AddressNotDomain` | src/utils/ip.ts:1-11 | "1.2.3.4" is an address and not a domain |
| `JsTrim.TrimStart` | src/composables/useIPDetails.ts:30-31 | the result is a suffix of the input; everything removed is white space; the result does not start with white space |
| `JsTrim.TrimEnd` | src/composables/useIPDetails.ts:30-31 | the result is a prefix of the input; everything removed is white space; the result does not end with white space |
| `JsTrim.Trim` | src/composables/useIPDetails.ts:30-31 | `term.trim()` is empty iff the term is all white space; otherwise it neither starts nor ends with white space |
| `JsTrim.TrimStartEmpty` | src/composables/useIPDetails.ts:30 | stripping the front leaves nothing iff the input is all white space |
| `JsTrim.TrimEndEmpty` | src/composables/useIPDetails.ts:30 | stripping the end leaves nothing iff the input is all white space |
| `JsTrim.TrimIgnoresPadding` | src/composables/useIPDetails.ts:30-31 | white space added at either end does not change the trimmed string |
| `JsTrim.TrimCharacterization` | src/composables/useIPDetails.ts:30-31 | if `r` has no white space at either end, trimming `w1 + r + w2` for white-space `w1` and `w2` gives exactly `r` |
| `JsTrim.TrimIdempotent` | src/composables/useIPDetails.ts:30-31 | trimming twice is trimming once |
| `UriEncoding.Utf8` | src/composables/useIPDetails.ts:34 | 1 to 4 octets below 0x100, a single octet exactly for code points below 0x80 |
| `UriEncoding.EncodeChar` | src/composables/useIPDetails.ts:34 | an unescaped character stands for itself; any other becomes 3 to 12 characters starting with '%' |
| `UriEncoding.EncodeUriComponent` | src/composables/useIPDetails.ts:34 | the encoding is never shorter than the input, and has the same length exactly when no character needs escaping |
| `UriEncoding.EncodeUnescapedIsIdentity` | src/composables/useIPDetails.ts:34-36 | encodeURIComponent leaves a string of unescaped characters exactly as it is |
| `UriEncoding.EncodeAlphabet` | src/composables/useIPDetails.ts:34-36 | every character of an encoding is unescaped, '%' or an upper-case hex digit |
| `UriEncoding.EncodeExamples` | src/composables/useIPDetails.ts:34 | " " encodes to "%20", "&" to "%26" and "é" to "%C3%A9" |
| `IpDetails.ApiBase` | src/composables/useIPDetails.ts:28 | the URL starts with the base URL, then '?', and ends with the API key |
| `IpDetails.BuildApiUrl` | src/composables/useIPDetails.ts:27-43 | the lookup fails iff the trimmed term is non-empty and neither an address nor a domain, and then its message is exactly "Please enter a valid IP address or domain name"; every URL starts with `baseUrl?apiKey=apiKey` |
| `IpDetails.AcceptedTermIsNotEscaped` | src/composables/useIPDetails.ts:33-36 | encodeURIComponent leaves any term that either validator accepts unchanged |
| `IpDetails.BlankTermGivesBaseUrl` | src/composables/useIPDetails.ts:27-30 | an all-white-space term, and the default "", give exactly `baseUrl?apiKey=apiKey` |
| `IpDetails.IpAddressTermGivesIpAddressParameter` | src/composables/useIPDetails.ts:33-34 | a trimmed term that is an address gives the base URL, then `&ipAddress=`, then the trimmed term verbatim |
| `IpDetails.IpAddressTakesPriority` | src/composables/useIPDetails.ts:33-36 | a term both validators accept succeeds, and no `&domain=` follows the base URL |
| `IpDetails.DomainTermGivesDomainParameter` | src/composables/useIPDetails.ts:35-36 | a trimmed term that is a domain and not an address gives the base URL, then `&domain=`, then the trimmed term verbatim |
| `IpDetails.ForeignCharacterFails` | src/composables/useIPDetails.ts:37-39 | a trimmed term with any character outside [A-Za-z0-9.-] fails with the message |
| `IpDetails.TrimmingTermChangesNothing` | src/composables/useIPDetails.ts:30-31 | a term and its trim give the same result |
| `IpDetails.PaddingChangesNothing` | src/composables/useIPDetails.ts:30-31 | white space around the term does not change the result |
| `IpDetails.UrlShape` | src/composables/useIPDetails.ts:28-42 | after the base URL comes nothing for a blank term; otherwise `&ipAddress=` plus the trimmed term when it is an address, else `&domain=` plus the trimmed term |
| `IpDetails.OneParameterCounts` | src/composables/useIPDetails.ts:34 | `&key=value` holds one '&' and one '=' when neither key nor value holds either |
| `IpDetails.ParameterPartCounts` | src/composables/useIPDetails.ts:34-36 | the part after the base holds at most one '&' and as many '=' as '&' |
| `IpDetails.AtMostOneParameter` | src/composables/useIPDetails.ts:28-42 | a successful URL appends at most one parameter to the base URL: at most one '&' and one '=' after it |
| `IpDetails.ParameterDeterminesValue` | src/composables/useIPDetails.ts:34-36 | the appended parameter determines the value it carries |
| `IpDetails.UrlDeterminesTrimmedTerm` | src/composables/useIPDetails.ts:27-43 | two terms that give the same URL have the same trim |
| `IpDetailsExamples.IpAddressLookup` | src/composables/useIPDetails.ts:33-34 | "192.168.1.1" gives `baseUrl?apiKey=apiKey&ipAddress=192.168.1.1` |
| `IpDetailsExamples.PaddedDomainLookup` | src/composables/useIPDetails.ts:30-36 | "  example.com\n" gives `baseUrl?apiKey=apiKey&domain=example.com` |
| `IpDetailsExamples.AmbiguousTermLookup` | src/composables/useIPDetails.ts:33-36 | "10.20.30.40" is looked up as `ipAddress` |
| `IpDetailsExamples.DefaultLookup` | src/composables/useIPDetails.ts:27-30 | "" and "   " give the bare base URL |
| `IpDetailsExamples.IpifyDefaultLookup` | src/composables/useIPDetails.ts:16 | with the application's endpoint, "" gives `https://geo.ipify.org/api/v2/country,city?apiKey=` followed by the key |

## Left out

- `fetchIPDetails` (src/composables/useIPDetails.ts:111-183) is left out. It waits on a timer and writes Vue refs from hard-coded mock data. It never calls `buildAPIUrl`.
- The commented-out network version of `fetchIPDetails` (src/composables/useIPDetails.ts:45-109) is not code and is left out.
- The reactive state is left out: the refs (src/composables/useIPDetails.ts:19-25), `reset` (185-190) and the returned object (192-200). So are the `IPDetail` and `MapCoordinates` types (4-13), which only that state uses.
- The API key comes from the build environment (src/composables/useIPDetails.ts:15). It is an opaque parameter here.
- The base URL is also a parameter. Its value in the source (line 16) is the constant `IpDetails.IpifyBaseUrl`.
- src/main.js only mounts the application and is not part of this model.
- `JsTrim.IsJsWhiteSpace` is a fixed list: ECMAScript WhiteSpace, LineTerminator and the Unicode space separators. It does not follow later changes to the Unicode Zs category.
- `UriEncoding.EncodeUriComponent`: its contract speaks only of the length of the result. Its meaning for the terms `buildAPIUrl` sends is given by `EncodeUnescapedIsIdentity` and `EncodeAlphabet`. No percent-decoder is modelled.
- JavaScript strings are sequences of UTF-16 code units. Here a character is a Unicode scalar value, so lone surrogates cannot be written, and the URIError `encodeURIComponent` throws for them is not modelled. The term never reaches the encoder unless it is pure ASCII, so `buildAPIUrl` is unaffected.
