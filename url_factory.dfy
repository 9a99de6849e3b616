/**
 * The parse pipeline of the UrlFactory trait: trim the input, split it with
 * the platform's URL splitter (PHP `parse_url`), and merge the result over an
 * eight-key default map; when the splitter refuses the string, retry once
 * through the authority bug fix, whose applicability is decided by a probe
 * that is computed lazily and cached for the lifetime of the process.
 */
module UrlFactory {
  import opened Wrappers

  /** What PHP `parse_url` returns on success: only the keys it found. */
  type Split = map<string, string>

  /** A component map as `parse` and `createFromComponents` see it; `None` is PHP `null`. */
  type Components = map<string, Option<string>>

  /**
   * The platform's URL splitter, PHP `parse_url`, kept abstract: `None` is its
   * `false` return for a string it cannot split.
   */
  type Splitter = string -> Option<Split>

  /** The InvalidArgumentException "could not be parse", carrying the trimmed URL. */
  datatype ParseError = Unparseable(url: string)

  /** The eight keys every parse result has. */
  const ComponentKeys: set<string> :=
    {"scheme", "user", "pass", "host", "port", "path", "query", "fragment"}

  /** The all-null default map of `parse` and `createFromComponents`. */
  const DefaultComponents: Components := map[
    "scheme" := None, "user" := None, "pass" := None, "host" := None,
    "port" := None, "path" := None, "query" := None, "fragment" := None]

  /** The synthetic scheme the bug fix prepends and later removes. */
  const BugFixScheme: string := "php-bugfix-authority"

  /** The fixed input the probe feeds the splitter. */
  const ProbeInput: string := "//a:1"

  // ---------------------------------------------------------------------------
  // PHP trim() with its default character list " \t\n\r\0\x0B"
  // ---------------------------------------------------------------------------

  predicate IsTrimChar(c: char) {
    c == ' ' || c == '\t' || c == '\n' || c == '\r' || c == '\0' || c == '\U{0B}'
  }

  /** Drops the leading run of trimmed characters. */
  function TrimLeft(s: string): (r: string)
    ensures |r| <= |s| && r == s[|s| - |r|..]
    ensures forall k :: 0 <= k < |s| - |r| ==> IsTrimChar(s[k])
    ensures r == [] || !IsTrimChar(r[0])
  {
    if s != [] && IsTrimChar(s[0]) then TrimLeft(s[1..]) else s
  }

  /** Drops the trailing run of trimmed characters. */
  function TrimRight(s: string): (r: string)
    ensures |r| <= |s| && r == s[..|r|]
    ensures forall k :: |r| <= k < |s| ==> IsTrimChar(s[k])
    ensures r == [] || !IsTrimChar(r[|r| - 1])
  {
    if s != [] && IsTrimChar(s[|s| - 1]) then TrimRight(s[..|s| - 1]) else s
  }

  /** PHP trim(): the result neither starts nor ends with a trimmed character. */
  function Trim(s: string): (r: string)
    ensures |r| <= |s|
    ensures r == [] || (!IsTrimChar(r[0]) && !IsTrimChar(r[|r| - 1]))
    ensures exists i :: KeepsMiddle(s, i, r)
  {
    var left := TrimLeft(s);
    var r := TrimRight(left);
    var i := |s| - |left|;
    assert left == s[i..];
    assert r == left[..|r|];
    assert r == s[i..i + |r|];
    assert forall k :: i + |r| <= k < |s| ==> s[k] == left[k - i];
    assert KeepsMiddle(s, i, r);
    r
  }

  /** `r` is `s` from position `i` on, with only trimmed characters removed before and after it. */
  ghost predicate KeepsMiddle(s: string, i: int, r: string) {
    && 0 <= i && i + |r| <= |s| && r == s[i..i + |r|]
    && (forall k :: 0 <= k < i ==> IsTrimChar(s[k]))
    && (forall k :: i + |r| <= k < |s| ==> IsTrimChar(s[k]))
  }

  /** Trimming an already trimmed string changes nothing. */
  lemma {:induction false} TrimIdempotent(s: string)
    ensures Trim(Trim(s)) == Trim(s)
  {
    var t := Trim(s);
    assert TrimLeft(t) == t;
    assert TrimRight(t) == t;
  }

  /** `strpos($url, '/') === 0`. */
  predicate StartsWithSlash(url: string) {
    |url| > 0 && url[0] == '/'
  }

  // ---------------------------------------------------------------------------
  // The default-key merge
  // ---------------------------------------------------------------------------

  /** The splitter's string values as component values. */
  function Lift(split: Split): (c: Components)
    ensures c.Keys == split.Keys
    ensures forall k :: k in split ==> c[k] == Some(split[k])
  {
    map k | k in split :: Some(split[k])
  }

  /**
   * `array_merge($defaultComponents, $components)`: every one of the eight
   * keys is present, a key the caller supplied keeps its value, and a key it
   * did not supply is null.
   */
  function Merge(components: Components): (r: Components)
    ensures r.Keys == ComponentKeys + components.Keys
    ensures forall k :: k in components ==> r[k] == components[k]
    ensures forall k :: k in ComponentKeys && k !in components ==> r[k] == None
  {
    DefaultComponents + components
  }

  /** Merging over the defaults a second time changes nothing. */
  lemma MergeIdempotent(components: Components)
    ensures Merge(Merge(components)) == Merge(components)
  {
  }

  // ---------------------------------------------------------------------------
  // The parse pipeline as functions of the splitter and the probe's value
  // ---------------------------------------------------------------------------

  /** The probe: the splitter is buggy when it refuses `//a:1`. */
  function ProbeIsBugged(parseUrl: Splitter): (bugged: bool)
    ensures bugged <==> parseUrl(ProbeInput) == None
  {
    parseUrl(ProbeInput).None?
  }

  /**
   * bugFixAuthority once the probe's value is known: a failure is the
   * exception it throws, `Success(None)` is `parse_url` returning `false` on
   * the prefixed string, `Success(Some(split))` its array.
   */
  function BugFixOutcome(parseUrl: Splitter, bugged: bool, url: string):
    (r: Result<Option<Split>, ParseError>)
    ensures r.Failure? <==> !bugged || !StartsWithSlash(url)
    ensures r.Failure? ==> r.error == Unparseable(url)
    ensures r.Success? ==> r.value == parseUrl(BugFixScheme + ":" + url)
  {
    if !bugged || !StartsWithSlash(url) then Failure(Unparseable(url))
    else Success(parseUrl(BugFixScheme + ":" + url))
  }

  /** `parse($url)`, given the value the probe has (or will have) cached. */
  function ParseOutcome(parseUrl: Splitter, bugged: bool, url: string):
    (r: Result<Components, ParseError>)
    ensures r.Success? ==> ComponentKeys <= r.value.Keys
    ensures r.Failure? ==> r.error == Unparseable(Trim(url))
  {
    ParseTrimmed(parseUrl, bugged, Trim(url))
  }

  /** The steps of `parse` after `trim`. */
  function ParseTrimmed(parseUrl: Splitter, bugged: bool, u: string):
    (r: Result<Components, ParseError>)
    ensures r.Success? ==> ComponentKeys <= r.value.Keys
    ensures r.Failure? ==> r.error == Unparseable(u)
  {
    match parseUrl(u)
    case Some(split) => Success(Merge(Lift(split)))
    case None =>
      match BugFixOutcome(parseUrl, bugged, u)
      case Failure(e) => Failure(e)
      case Success(None) => Failure(Unparseable(u))
      case Success(Some(split)) => Success(Merge(Lift(split - {"scheme"})))
  }

  /** `parse(s)` and `parse(trim(s))` give the same outcome. */
  lemma {:induction false} ParseIgnoresSurroundingBlanks(parseUrl: Splitter, bugged: bool, url: string)
    ensures ParseOutcome(parseUrl, bugged, Trim(url)) == ParseOutcome(parseUrl, bugged, url)
  {
    TrimIdempotent(url);
  }

  /**
   * When the splitter accepts the trimmed input, its keys win over the
   * defaults, every key it did not produce is null, and the fallback plays
   * no part (the result does not depend on the probe).
   */
  lemma ParseSplitterWins(parseUrl: Splitter, bugged: bool, url: string)
    requires parseUrl(Trim(url)).Some?
    ensures var split := parseUrl(Trim(url)).value;
      && ParseOutcome(parseUrl, bugged, url).Success?
      && ParseOutcome(parseUrl, bugged, url) == ParseOutcome(parseUrl, !bugged, url)
      && var r := ParseOutcome(parseUrl, bugged, url).value;
      && r.Keys == ComponentKeys + split.Keys
      && (forall k :: k in split ==> r[k] == Some(split[k]))
      && (forall k :: k in ComponentKeys && k !in split ==> r[k] == None)
  {
  }

  /**
   * The fallback is inapplicable, and `parse` fails with no second split,
   * unless the probe says "bugged" and the trimmed input starts with `/`.
   */
  lemma ParseFallbackInapplicable(parseUrl: Splitter, bugged: bool, url: string)
    requires parseUrl(Trim(url)).None?
    requires !bugged || !StartsWithSlash(Trim(url))
    ensures ParseOutcome(parseUrl, bugged, url) == Failure(Unparseable(Trim(url)))
  {
  }

  /**
   * A result the fallback produces has a null scheme (the synthetic scheme
   * never leaks) and carries every other key of the prefixed split.
   */
  lemma ParseFallbackDropsScheme(parseUrl: Splitter, url: string)
    requires parseUrl(Trim(url)).None?
    requires StartsWithSlash(Trim(url))
    requires parseUrl(BugFixScheme + ":" + Trim(url)).Some?
    ensures var split := parseUrl(BugFixScheme + ":" + Trim(url)).value;
      && ParseOutcome(parseUrl, true, url).Success?
      && var r := ParseOutcome(parseUrl, true, url).value;
      && r.Keys == ComponentKeys + (split.Keys - {"scheme"})
      && r["scheme"] == None
      && (forall k :: k in split && k != "scheme" ==> r[k] == Some(split[k]))
      && (forall k :: k in ComponentKeys && k !in split ==> r[k] == None)
  {
    var u := Trim(url);
    var split := parseUrl(BugFixScheme + ":" + u).value;
    var kept := split - {"scheme"};
    assert BugFixOutcome(parseUrl, true, u) == Success(Some(split));
    var r := Merge(Lift(kept));
    assert ParseOutcome(parseUrl, true, url) == Success(r);
    assert "scheme" !in Lift(kept);
    forall k | k in split && k != "scheme"
      ensures r[k] == Some(split[k])
    {
      assert k in kept && kept[k] == split[k];
    }
  }

  /** Every successful parse has a null scheme when the splitter refused the input. */
  lemma ParseFallbackNeverLeaksScheme(parseUrl: Splitter, bugged: bool, url: string)
    requires parseUrl(Trim(url)).None?
    requires ParseOutcome(parseUrl, bugged, url).Success?
    ensures ParseOutcome(parseUrl, bugged, url).value["scheme"] == None
  {
  }

  /** When the prefixed re-parse fails too, `parse` throws and returns no map. */
  lemma ParseFallbackFails(parseUrl: Splitter, bugged: bool, url: string)
    requires parseUrl(Trim(url)).None?
    requires parseUrl(BugFixScheme + ":" + Trim(url)).None?
    ensures ParseOutcome(parseUrl, bugged, url) == Failure(Unparseable(Trim(url)))
  {
  }

  /** Exactly when `parse` succeeds: the splitter accepts the trimmed input, or the fallback applies and its re-parse succeeds. */
  lemma ParseSucceedsExactly(parseUrl: Splitter, bugged: bool, url: string)
    ensures var u := Trim(url);
      ParseOutcome(parseUrl, bugged, url).Success? <==>
        parseUrl(u).Some? || (bugged && StartsWithSlash(u) && parseUrl(BugFixScheme + ":" + u).Some?)
  {
  }

  // ---------------------------------------------------------------------------
  // createFromComponents, up to the values handed to the component constructors
  // ---------------------------------------------------------------------------

  /** The eight values `createFromComponents` hands to the component constructors. */
  datatype ComponentSet = ComponentSet(
    scheme: Option<string>, user: Option<string>, pass: Option<string>, host: Option<string>,
    port: Option<string>, path: Option<string>, query: Option<string>, fragment: Option<string>)
  {
    /** The value read from key `k` of the merged map. */
    function Get(k: string): Option<string> {
      if k == "scheme" then scheme
      else if k == "user" then user
      else if k == "pass" then pass
      else if k == "host" then host
      else if k == "port" then port
      else if k == "path" then path
      else if k == "query" then query
      else if k == "fragment" then fragment
      else None
    }
  }

  /**
   * `createFromComponents($components)`: every constructor receives the
   * caller's value for its key, or null when the caller supplied none.
   */
  function CreateFromComponents(components: Components): (r: ComponentSet)
    ensures forall k :: k in ComponentKeys && k in components ==> r.Get(k) == components[k]
    ensures forall k :: k in ComponentKeys && k !in components ==> r.Get(k) == None
  {
    var m := Merge(components);
    ComponentSet(m["scheme"], m["user"], m["pass"], m["host"],
                 m["port"], m["path"], m["query"], m["fragment"])
  }

  /**
   * `createFromUrl`: feeding a parse result to `createFromComponents` hands
   * each constructor exactly the parsed value of its key.
   */
  lemma CreateFromParsed(parseUrl: Splitter, bugged: bool, url: string)
    requires ParseOutcome(parseUrl, bugged, url).Success?
    ensures var m := ParseOutcome(parseUrl, bugged, url).value;
      forall k :: k in ComponentKeys ==> CreateFromComponents(m).Get(k) == m[k]
  {
  }

  // ---------------------------------------------------------------------------
  // The process state: the splitter and the function-static $is_bugged cache
  // ---------------------------------------------------------------------------

  class Parser {
    /** The platform's `parse_url`. */
    const parseUrl: Splitter
    /** The function-static `$is_bugged`: `None` until the first fallback call. */
    var isBugged: Option<bool>
    /** How many times the probe has been run. */
    ghost var probes: nat

    /** The cache, once written, holds the probe's value, and the probe ran at most once. */
    ghost predicate Valid()
      reads this
    {
      && probes == (if isBugged.Some? then 1 else 0)
      && (isBugged.Some? ==> isBugged.value == ProbeIsBugged(parseUrl))
    }

    /** A fresh process: nothing probed yet. */
    constructor (parseUrl: Splitter)
      ensures Valid()
      ensures this.parseUrl == parseUrl && isBugged == None && probes == 0
    {
      this.parseUrl := parseUrl;
      isBugged := None;
      probes := 0;
    }

    /**
     * `bugFixAuthority($url)`: runs the probe if it has not run yet, then
     * throws unless the platform is buggy and the URL starts with `/`, and
     * otherwise splits the URL behind the synthetic scheme.
     */
    method BugFixAuthority(url: string) returns (r: Result<Option<Split>, ParseError>)
      requires Valid()
      modifies this
      ensures Valid()
      ensures isBugged == Some(ProbeIsBugged(parseUrl))
      ensures old(isBugged).Some? ==> probes == old(probes)
      ensures r == BugFixOutcome(parseUrl, isBugged.value, url)
    {
      if isBugged.None? {
        isBugged := Some(parseUrl(ProbeInput).None?);
        probes := probes + 1;
      }
      if !isBugged.value || !StartsWithSlash(url) {
        return Failure(Unparseable(url));
      }
      r := Success(parseUrl(BugFixScheme + ":" + url));
    }

    /**
     * `parse($url)`: the outcome is the one ParseOutcome gives for the
     * probe's value; the cache is touched only when the splitter refused the
     * trimmed input, and once written it never changes.
     */
    method Parse(url: string) returns (r: Result<Components, ParseError>)
      requires Valid()
      modifies this
      ensures Valid()
      ensures r == ParseOutcome(parseUrl, ProbeIsBugged(parseUrl), url)
      ensures isBugged == if parseUrl(Trim(url)).Some? then old(isBugged) else Some(ProbeIsBugged(parseUrl))
      ensures old(isBugged).Some? ==> isBugged == old(isBugged) && probes == old(probes)
    {
      var u := Trim(url);
      var split := parseUrl(u);
      if split.Some? {
        return Success(Merge(Lift(split.value)));
      }
      var fixed := BugFixAuthority(u);
      if fixed.Failure? {
        return Failure(fixed.error);
      }
      if fixed.value.Some? {
        return Success(Merge(Lift(fixed.value.value - {"scheme"})));
      }
      r := Failure(Unparseable(u));
    }

    /** `createFromUrl($url)`: `createFromComponents(parse($url))`. */
    method CreateFromUrl(url: string) returns (r: Result<ComponentSet, ParseError>)
      requires Valid()
      modifies this
      ensures Valid()
      ensures var p := ParseOutcome(parseUrl, ProbeIsBugged(parseUrl), url);
        r == if p.Success? then Success(CreateFromComponents(p.value)) else Failure(p.error)
      ensures isBugged == if parseUrl(Trim(url)).Some? then old(isBugged) else Some(ProbeIsBugged(parseUrl))
      ensures old(isBugged).Some? ==> isBugged == old(isBugged) && probes == old(probes)
    {
      var p := Parse(url);
      if p.Failure? {
        return Failure(p.error);
      }
      r := Success(CreateFromComponents(p.value));
    }
  }
}
