/** The decisions `main` takes between reading its arguments and writing the
    cookie file: resolve the domain or stop, pick the output name, read the
    chosen browser's store, stop on a failed read, stop quietly on an empty
    result, and otherwise render the file. The store read itself, the
    clock and the file system are parameters. */
module Crumbix {
  import opened Strings
  import opened Netscape
  import opened DomainResolution
  import opened Extraction

  /** What the reading thread left in the result queue: the cookies, the
      message of the exception the reader raised, or nothing at all. */
  datatype Fetched = Cookies(cookies: seq<Cookie>) | Error(message: string) | NoReport

  /** Everything `main` consults that lies outside the program: the two URL
      parsers, the store reader of each browser (called with the target
      domain), and the rendering of the clock reading for the header. */
  datatype Environment = Environment(
    parsers: Parsers,
    fetch: (Browser, string) -> Fetched,
    timestamp: string)

  /** How a run ends. */
  datatype Exit =
    | InvalidUrl
    | ExtractionFailed(browser: Browser, kind: FailureKind, message: string)
    | NoCookies(domain: string)
    | Saved(path: string, content: string, count: nat)

  /** The process exit status of each ending. */
  function ExitStatus(e: Exit): int
  {
    match e
    case InvalidUrl => 1
    case ExtractionFailed(_, _, _) => 1
    case NoCookies(_) => 0
    case Saved(_, _, _) => 0
  }

  const COOKIES_SUFFIX := ".cookies.txt"

  /** The file to write: the one given with `--output`, or, when none (or an
      empty name) was given, `<domain>.cookies.txt`. */
  function OutputName(domain: string, output: Option<string>): string
  {
    if output.None? || output.value == "" then domain + COOKIES_SUFFIX else output.value
  }

  /** An explicit name is used verbatim; the default name is the domain with
      `.cookies.txt` after it, so it differs for different domains. */
  lemma OutputNameRule(domain: string, other: string, output: Option<string>)
    ensures output.Some? && output.value != "" ==> OutputName(domain, output) == output.value
    ensures output.None? || output.value == "" ==>
      && StartsWith(OutputName(domain, output), domain)
      && OutputName(domain, output)[|domain|..] == COOKIES_SUFFIX
      && (OutputName(domain, output) == OutputName(other, output) ==> domain == other)
  {
    if output.None? || output.value == "" {
      if OutputName(domain, output) == OutputName(other, output) {
        assert |domain| == |other|;
        assert domain == OutputName(domain, output)[..|domain|];
      }
    }
  }

  /** `main`, from the parsed arguments to the end of the run. */
  method Run(url: string, browser: Browser, output: Option<string>, env: Environment) returns (exit: Exit)
    ensures exit == InvalidUrl <==> ResolveTarget(url, env.parsers).None?
    ensures ResolveTarget(url, env.parsers).Some? ==>
      var domain := ResolveTarget(url, env.parsers).value;
      var fetched := env.fetch(browser, domain);
      && (exit.ExtractionFailed? <==> fetched.Error?)
      && (fetched.Error? ==> exit == ExtractionFailed(browser, Classify(fetched.message), fetched.message))
      && (exit == NoCookies(domain) <==> fetched.NoReport? || fetched == Cookies([]))
      && (exit.Saved? <==> fetched.Cookies? && fetched.cookies != [])
      && (exit.Saved? ==>
            && exit.path == OutputName(domain, output)
            && exit.content == Terminated(FileLines(fetched.cookies, env.timestamp))
            && exit.count == |fetched.cookies|)
    ensures ExitStatus(exit) == 1 <==>
      var target := ResolveTarget(url, env.parsers);
      target.None? || env.fetch(browser, target.value).Error?
  {
    var target := ResolveTarget(url, env.parsers);
    if target.None? {
      return InvalidUrl;
    }
    var domain := target.value;
    var path := OutputName(domain, output);

    var cookies: seq<Cookie> := [];
    var fetched := env.fetch(browser, domain);
    match fetched {
      case Cookies(found) =>
        cookies := found;
      case Error(message) =>
        return ExtractionFailed(browser, Classify(message), message);
      case NoReport =>
    }

    if cookies == [] {
      return NoCookies(domain);
    }
    var content := RenderCookieFile(cookies, env.timestamp);
    return Saved(path, content, |cookies|);
  }
}
