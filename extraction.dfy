/** The extraction step as `main` sees it: the fixed set of browsers whose
    cookie stores can be read, chosen by name, and the sorting of a failed
    read into "the store is locked or protected" and everything else. */
module Extraction {
  import opened Strings

  /** The browsers offered on the command line; each selects one store reader. */
  datatype Browser = Chrome | Firefox | Brave | Edge | Chromium | Opera | Safari

  /** The key of each browser in the loader table. */
  function Name(b: Browser): string
  {
    match b
    case Chrome => "chrome"
    case Firefox => "firefox"
    case Brave => "brave"
    case Edge => "edge"
    case Chromium => "chromium"
    case Opera => "opera"
    case Safari => "safari"
  }

  /** `loader_map.get(browser.lower())`: the browser whose key is the
      lower-cased name, if there is one. */
  function Lookup(browser: string): Option<Browser>
  {
    var key := Lower(browser);
    if key == "chrome" then Some(Chrome)
    else if key == "firefox" then Some(Firefox)
    else if key == "brave" then Some(Brave)
    else if key == "edge" then Some(Edge)
    else if key == "chromium" then Some(Chromium)
    else if key == "opera" then Some(Opera)
    else if key == "safari" then Some(Safari)
    else None
  }

  lemma LowerLowerCase(s: string)
    requires forall k :: 0 <= k < |s| ==> !('A' <= s[k] <= 'Z')
    ensures Lower(s) == s
  {
  }

  lemma {:induction false} LowerIdempotent(s: string)
    ensures Lower(Lower(s)) == Lower(s)
  {
    LowerLowerCase(Lower(s));
  }

  /** The lookup is exact on lower-cased names: it finds `b` exactly when the
      name lower-cases to `b`'s key, and it misses every other name. */
  lemma LookupIff(browser: string, b: Browser)
    ensures Lookup(browser) == Some(b) <==> Lower(browser) == Name(b)
  {
  }

  /** Every browser is found under its own key, and the lookup ignores case. */
  lemma LookupRoundTrip(b: Browser, browser: string)
    ensures Lookup(Name(b)) == Some(b)
    ensures Lookup(browser) == Lookup(Lower(browser))
  {
    LowerLowerCase(Name(b));
    LowerIdempotent(browser);
  }

  /** Why a read failed, as far as the message tells. */
  datatype FailureKind = Locked | Other

  const PERMISSION_DENIED := "Permission denied"
  const LOCKED := "locked"

  /** The troubleshooting branch is taken when the message contains
      "Permission denied" with exactly that capitalisation, or contains
      "locked" in any capitalisation. */
  function Classify(message: string): FailureKind
  {
    if Contains(message, PERMISSION_DENIED) || Contains(Lower(message), LOCKED) then Locked else Other
  }

  /** `t` occurs in `s` at `i` when case is ignored (`t` in lower case). */
  ghost predicate OccursFolded(s: string, t: string, i: int)
  {
    0 <= i && i + |t| <= |s| && Lower(s[i..i + |t|]) == t
  }

  /** The classification, as a statement about positions in the message:
      "Permission denied" matched case-sensitively, "locked" matched
      case-insensitively. */
  lemma ClassifyIff(message: string)
    ensures Classify(message) == Locked <==>
      (exists i :: OccursAt(message, PERMISSION_DENIED, i)) || (exists i :: OccursFolded(message, LOCKED, i))
  {
    ContainsIff(message, PERMISSION_DENIED);
    ContainsIff(Lower(message), LOCKED);
    forall i | 0 <= i && i + |LOCKED| <= |message|
      ensures OccursAt(Lower(message), LOCKED, i) <==> OccursFolded(message, LOCKED, i)
    {
      LowerSlice(message, i, i + |LOCKED|);
    }
    if exists i :: OccursAt(Lower(message), LOCKED, i) {
      var i :| OccursAt(Lower(message), LOCKED, i);
      assert OccursFolded(message, LOCKED, i);
    }
    if exists i :: OccursFolded(message, LOCKED, i) {
      var i :| OccursFolded(message, LOCKED, i);
      assert OccursAt(Lower(message), LOCKED, i);
    }
  }

  /** The case handling is lopsided: "LOCKED" is a lock, while
      "permission denied" in lower case is not. */
  lemma ClassifyCaseAsymmetry(upper: string, lower: string)
    requires upper == "DATABASE IS LOCKED"
    requires lower == "permission denied"
    ensures Classify(upper) == Locked
    ensures Classify(lower) == Other
  {
    ClassifyIff(upper);
    assert OccursFolded(upper, LOCKED, 12);
    ClassifyIff(lower);
    assert lower[0..|PERMISSION_DENIED|] != PERMISSION_DENIED by {
      assert lower[0] != PERMISSION_DENIED[0];
    }
    assert !exists i :: OccursAt(lower, PERMISSION_DENIED, i);
    assert !exists i :: OccursFolded(lower, LOCKED, i);
  }
}
