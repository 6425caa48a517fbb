/** Turning what the user typed into the domain whose cookies are wanted:
    `extract_domain`, and the fallback and validation around it in `main`.
    The public-suffix splitter (tldextract, used offline) and the URL parser
    (`urlparse`) are libraries; they enter as oracles, and only the
    branching and composition around them is modelled. */
module DomainResolution {
  import opened Strings

  /** What the public-suffix splitter reports for a URL: the registrable
      label and the public suffix (either may be empty), or that it raised. */
  datatype SuffixSplit = Parts(domain: string, suffix: string) | Raised

  /** The two parsers the resolution calls into. `hostname(u)` is
      `urlparse(u).hostname`: `None` when the URL has no network location. */
  datatype Parsers = Parsers(splitSuffix: string -> SuffixSplit, hostname: string -> Option<string>)

  const HTTP := "http://"
  const HTTPS := "https://"

  /** The case-sensitive scheme test that `extract_domain` makes. */
  predicate HasScheme(url: string)
  {
    StartsWith(url, HTTP) || StartsWith(url, HTTPS)
  }

  /** The URL handed to the parsers: `http://` is put in front of anything
      that does not already start with `http://` or `https://`. */
  function WithScheme(url: string): string
  {
    if HasScheme(url) then url else HTTP + url
  }

  /** The outcome of `extract_domain`: a domain, `None`, or an exception that
      reaches the caller. */
  datatype Extracted = Found(domain: string) | NotFound | Failed

  /** A hostname counts only when it is present and non-empty. */
  function NonEmpty(host: Option<string>): Option<string>
  {
    if host.Some? && host.value != "" then host else None
  }

  /** `extract_domain(url)`. */
  function ExtractDomain(url: string, p: Parsers): (r: Extracted)
    ensures r.Found? ==> r.domain != ""
  {
    var u := WithScheme(url);
    match p.splitSuffix(u)
    case Raised => Failed
    case Parts(registrable, suffix) =>
      if registrable != "" && suffix != "" then Found(registrable + "." + suffix)
      else
        var host := NonEmpty(p.hostname(u));
        if host.Some? then Found(host.value) else NotFound
  }

  /** `target_domain` as `main` computes it: the result of `extract_domain`,
      or, when that raised, the hostname of the input exactly as typed. */
  function TargetDomain(url: string, p: Parsers): Option<string>
  {
    match ExtractDomain(url, p)
    case Found(d) => Some(d)
    case NotFound => None
    case Failed => p.hostname(url)
  }

  /** The domain `main` goes on with, or `None` when it stops with "Invalid
      URL" (exit status 1): an absent or empty target domain is rejected. */
  function ResolveTarget(url: string, p: Parsers): (r: Option<string>)
    ensures r.Some? ==> r.value != ""
  {
    NonEmpty(TargetDomain(url, p))
  }

  /** The scheme rule: after `WithScheme` the URL starts with one of the two
      schemes; an input that already had one is left alone, and any other
      input, `ftp://…` or `HTTP://…` included, gets `http://` in front. */
  lemma WithSchemeRule(url: string)
    ensures HasScheme(WithScheme(url))
    ensures WithScheme(url) == url <==> HasScheme(url)
    ensures !HasScheme(url) ==> WithScheme(url) == HTTP + url
  {
    if !HasScheme(url) {
      assert |HTTP + url| > |url|;
    }
  }

  lemma WithSchemeIdempotent(url: string)
    ensures WithScheme(WithScheme(url)) == WithScheme(url)
  {
    WithSchemeRule(url);
  }

  /** `extract_domain` looks at the input only through `WithScheme`: typing
      the `http://` oneself changes nothing. */
  lemma ExtractDomainIgnoresScheme(url: string, p: Parsers)
    ensures ExtractDomain(WithScheme(url), p) == ExtractDomain(url, p)
  {
    WithSchemeIdempotent(url);
  }

  /** The three outcomes of `extract_domain`. A registrable domain
      `label.suffix` wins when both parts are non-empty; otherwise the
      non-empty hostname of the scheme-prefixed URL; otherwise nothing. The
      suffix splitter raising is the only way to an exception. */
  lemma ExtractDomainCases(url: string, p: Parsers)
    ensures var u := WithScheme(url);
      && (ExtractDomain(url, p).Failed? <==> p.splitSuffix(u).Raised?)
      && (p.splitSuffix(u).Parts? && p.splitSuffix(u).domain != "" && p.splitSuffix(u).suffix != "" ==>
            ExtractDomain(url, p) == Found(p.splitSuffix(u).domain + "." + p.splitSuffix(u).suffix))
      && (p.splitSuffix(u).Parts? && (p.splitSuffix(u).domain == "" || p.splitSuffix(u).suffix == "") ==>
            (ExtractDomain(url, p).Found? <==> NonEmpty(p.hostname(u)).Some?)
            && (ExtractDomain(url, p).Found? ==> ExtractDomain(url, p).domain == p.hostname(u).value))
  {
  }

  /** How `main` settles on a domain: whatever `extract_domain` found, nothing
      when it found nothing, and after an exception the hostname of the raw,
      un-prefixed input; in every case the domain is non-empty. */
  lemma ResolveTargetCases(url: string, p: Parsers)
    ensures ExtractDomain(url, p).Found? ==> ResolveTarget(url, p) == Some(ExtractDomain(url, p).domain)
    ensures ExtractDomain(url, p).NotFound? ==> ResolveTarget(url, p).None?
    ensures ExtractDomain(url, p).Failed? ==> ResolveTarget(url, p) == NonEmpty(p.hostname(url))
  {
  }
}
