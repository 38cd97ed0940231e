/** URL helpers of lib/utils.ts. Parsing a URL (`new URL(url)`) is done by
    the platform; here it is a parameter `parse` that yields the parsed
    hostname, or None where the constructor throws. Every property below
    holds for any such parser. */
module Utils {
  import opened Results
  import opened Strings

  /** The platform URL parser, reduced to what the helpers read: the hostname. */
  type HostParser = string -> Option<string>

  const FaviconServicePrefix := "https://www.google.com/s2/favicons?domain="
  const FaviconSizeSuffix := "&sz=128"
  const WwwLabel := "www."

  /** `isValidUrl`: the URL constructor accepts the text. */
  predicate IsValidUrl(parse: HostParser, url: string) {
    parse(url).Some?
  }

  /** `extractDomain`: the hostname with its first "www." removed, or "" when
      the text does not parse. */
  function ExtractDomain(parse: HostParser, url: string): (domain: string)
    ensures !IsValidUrl(parse, url) ==> domain == ""
    ensures IsValidUrl(parse, url) ==> |domain| <= |parse(url).value|
    ensures IsValidUrl(parse, url) && !Contains(parse(url).value, WwwLabel) ==> domain == parse(url).value
    ensures IsValidUrl(parse, url) && Contains(parse(url).value, WwwLabel) ==>
              |domain| == |parse(url).value| - |WwwLabel|
  {
    match parse(url)
    case None => ""
    case Some(host) => RemoveFirst(host, WwwLabel)
  }

  /** Where "www." stands in the hostname does not matter: the first occurrence
      goes, and the text on both sides of it is kept. */
  lemma ExtractDomainRemovesFirstWww(parse: HostParser, url: string, before: string, after: string)
    requires parse(url) == Some(before + WwwLabel + after)
    requires forall j: nat :: j < |before| ==> !OccursAt(before + WwwLabel + after, WwwLabel, j)
    ensures ExtractDomain(parse, url) == before + after
  {
    RemoveFirstOccurrence(before, WwwLabel, after);
  }

  /** `getFaviconUrl`: the favicon-service address for the URL's domain. */
  function GetFaviconUrl(parse: HostParser, url: string): (favicon: string)
    ensures |favicon| == |FaviconServicePrefix| + |ExtractDomain(parse, url)| + |FaviconSizeSuffix|
    ensures favicon[..|FaviconServicePrefix|] == FaviconServicePrefix
    ensures favicon[|favicon| - |FaviconSizeSuffix|..] == FaviconSizeSuffix
    ensures !IsValidUrl(parse, url) ==> favicon == FaviconServicePrefix + FaviconSizeSuffix
  {
    FaviconServicePrefix + ExtractDomain(parse, url) + FaviconSizeSuffix
  }

  /** The domain can be read back out of the favicon address. */
  lemma FaviconUrlCarriesDomain(parse: HostParser, url: string)
    ensures var favicon := GetFaviconUrl(parse, url);
      favicon[|FaviconServicePrefix|..|favicon| - |FaviconSizeSuffix|] == ExtractDomain(parse, url)
  {
  }
}
