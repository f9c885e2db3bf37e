/** Turning an href found in the table of contents or in a page into an
    absolute URI on the dhammatalks.org site (`bmc_href_to_uri`). */
module Hrefs {
  import opened Wrappers
  import opened Strings

  /** The directory of the table of contents page
      `https://www.dhammatalks.org/vinaya/bmc/Section0000.html`, against
      which `./` hrefs are resolved. */
  const Site := "https://www.dhammatalks.org"
  const TocDir := Site + "/vinaya/bmc/"

  lemma SiteIsHttp()
    ensures StartsWith(Site, "http")
  {
    assert Site[0] == 'h' && Site[1] == 't' && Site[2] == 't' && Site[3] == 'p';
    assert Site[..4] == [Site[0], Site[1], Site[2], Site[3]];
  }

  datatype HrefError =
    | InPageLink             // `#frag` links must be expanded by the caller
    | UnknownHref(href: string)

  /** Classifies an href by its prefix: `./` is relative to the table of
      contents, `http` is already absolute, `/` is site-rooted; `#` and
      anything else are errors. */
  function HrefToUri(href: string): (r: Result<string, HrefError>)
    ensures r.Success? <==> StartsWith(href, "./") || StartsWith(href, "http") || StartsWith(href, "/")
    ensures r.Success? ==> StartsWith(r.value, "http")
    ensures StartsWith(href, "./") ==> r.value == TocDir + href[2..]
    ensures StartsWith(href, "http") ==> r.value == href
    ensures StartsWith(href, "/") ==> r.value == Site + href
    ensures r.Failure? ==> (r.error == InPageLink <==> StartsWith(href, "#"))
  {
    if StartsWith(href, "./") then
      DistinctHeads(href, "./", "http");
      DistinctHeads(href, "./", "/");
      SiteIsHttp();
      StartsWithConcat(Site, "/vinaya/bmc/", "http");
      StartsWithConcat(TocDir, href[2..], "http");
      Success(TocDir + href[2..])
    else if StartsWith(href, "http") then
      DistinctHeads(href, "http", "/");
      Success(href)
    else if StartsWith(href, "/") then
      SiteIsHttp();
      StartsWithConcat(Site, href, "http");
      Success(Site + href)
    else if StartsWith(href, "#") then Failure(InPageLink)
    else Failure(UnknownHref(href))
  }

  /** Converting an already converted href changes nothing: every URI the
      function produces is absolute. */
  lemma HrefToUriIdempotent(href: string)
    requires HrefToUri(href).Success?
    ensures HrefToUri(HrefToUri(href).value) == HrefToUri(href)
  {
    var u := HrefToUri(href).value;
    DistinctHeads(u, "http", "./");
  }

  /** Site-rooted hrefs are recovered from their URI by removing the site. */
  lemma SiteRootedRoundTrip(href: string)
    requires StartsWith(href, "/")
    ensures StartsWith(HrefToUri(href).value, Site)
    ensures HrefToUri(href).value[|Site|..] == href
  {
    DistinctHeads(href, "/", "./");
    DistinctHeads(href, "/", "http");
    StartsWithConcat(Site, href, Site);
  }
}
