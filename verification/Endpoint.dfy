/** Node endpoints (crates/dig-app-core/src/control.rs): which ones are tried, and the host and port each names. */
module Endpoints {
  import opened Wrappers
  import opened Text
  import opened Decimal

  const DIG_LOCAL_HOST: string := "dig.local"
  const LOCALHOST: string := "localhost"
  const DIG_NODE_PORT: nat := 9778
  const PORTS: nat := 0x1_0000

  datatype Problem = NoScheme | UnsupportedScheme | NoHost | NotAPort

  /** `split_once("://")`. */
  function SplitScheme(s: string): Option<(string, string)> {
    if |s| < 3 then None
    else if s[..3] == "://" then Some(("", s[3..]))
    else
      var (scheme, rest) :- SplitScheme(s[1..]);
      Some(([s[0]] + scheme, rest))
  }

  /** `rsplit_once` of one character. */
  function RSplitOnce(s: string, c: char): Option<(string, string)> {
    if s == [] then None
    else if s[|s| - 1] == c then Some((s[..|s| - 1], ""))
    else
      var (before, after) :- RSplitOnce(s[..|s| - 1], c);
      Some((before, after + [s[|s| - 1]]))
  }

  predicate EndsAuthority(c: char) {
    c == '/' || c == '?' || c == '#'
  }

  /** What comes before the path, query or fragment. */
  function Authority(rest: string): string {
    if rest == [] || EndsAuthority(rest[0]) then [] else [rest[0]] + Authority(rest[1..])
  }

  function StripBrackets(host: string): string {
    TrimEndMatches(TrimStartMatches(host, '['), ']')
  }

  function HostAndPort(authority: string, defaultPort: nat): Result<(string, nat), Problem> {
    match RSplitOnce(authority, ':')
    case Some((host, port)) =>
      if ']' in port || host == [] then Ok((StripBrackets(authority), defaultPort))
      else (
        match ParseUnsigned(port, PORTS)
        case Some(number) => Ok((StripBrackets(host), number))
        case None => Err(NotAPort)
      )
    case None => Ok((StripBrackets(authority), defaultPort))
  }

  predicate Supported(scheme: string) {
    scheme == "http" || scheme == "https"
  }

  function DefaultPort(scheme: string): nat {
    if scheme == "http" then 80 else 443
  }

  function SplitHostPort(endpoint: string): Result<(string, nat), Problem> {
    match SplitScheme(endpoint)
    case None => Err(NoScheme)
    case Some((scheme, rest)) =>
      if !Supported(scheme) then Err(UnsupportedScheme)
      else if Authority(rest) == [] then Err(NoHost)
      else HostAndPort(Authority(rest), DefaultPort(scheme))
  }

  function Normalized(endpoint: string): string {
    var trimmed := TrimEndMatches(endpoint, '/');
    if SplitScheme(trimmed).Some? then trimmed else "http://" + trimmed
  }

  /** The endpoints to try, in order: a configured one alone, or the two local tiers. */
  function Ladder(configured: Option<string>): seq<string> {
    if configured.Some? && Trim(configured.value) != [] then [Normalized(Trim(configured.value))]
    else ["http://" + DIG_LOCAL_HOST, "http://" + LOCALHOST + ":" + Numeral(DIG_NODE_PORT)]
  }

  // ---------------------------------------------------------------- what an endpoint says

  predicate SchemeEndsAt(s: string, i: nat) {
    i + 3 <= |s| && s[i..i + 3] == "://"
  }

  /** What may follow an authority. */
  predicate PathOrNothing(tail: string) {
    tail != "" ==> tail[0] == '/' || tail[0] == '?' || tail[0] == '#'
  }

  predicate PlainAuthority(s: string) {
    '/' !in s && '?' !in s && '#' !in s
  }

  /** `endpoint` is a scheme, up to its first `://`, then an authority and what follows that. */
  ghost predicate Spells(endpoint: string, scheme: string, authority: string, tail: string) {
    && endpoint == scheme + "://" + (authority + tail)
    && (forall i: nat :: i < |scheme| ==> !SchemeEndsAt(endpoint, i))
    && PlainAuthority(authority) && PathOrNothing(tail)
  }

  /** `authority` is a host, a colon, and what should be a port: no colon or bracket comes after. */
  predicate WithPort(authority: string, host: string, port: string) {
    authority == host + ":" + port && ':' !in port && ']' !in port && host != ""
  }

  /** `authority` names `host` and `port`, the latter by default where it has none of its own. */
  ghost predicate Names(authority: string, defaultPort: nat, host: string, port: nat) {
    || (exists h, p :: WithPort(authority, h, p) && ParseUnsigned(p, 65536) == Some(port) && host == StripBrackets(h))
    || ((forall h, p :: !WithPort(authority, h, p)) && port == defaultPort && host == StripBrackets(authority))
  }

  lemma EndsLater(s: string, i: nat)
    requires s != ""
    ensures SchemeEndsAt(s, i + 1) <==> SchemeEndsAt(s[1..], i)
  {
    if i + 4 <= |s| {
      assert s[i + 1..i + 4] == s[1..][i..i + 3];
    }
  }

  lemma {:induction false} NoSchemeFound(s: string, i: nat)
    requires SplitScheme(s).None?
    ensures !SchemeEndsAt(s, i)
  {
    if |s| >= 3 {
      assert s[0..3] == s[..3];
      if i > 0 {
        NoSchemeFound(s[1..], i - 1);
        EndsLater(s, i - 1);
      }
    }
  }

  lemma {:induction false} SchemeFound(s: string)
    requires SplitScheme(s).Some?
    ensures var (scheme, rest) := SplitScheme(s).value; s == scheme + "://" + rest
  {
    if s[..3] == "://" {
      assert s == "" + "://" + s[3..];
    } else {
      SchemeFound(s[1..]);
      var (scheme, rest) := SplitScheme(s[1..]).value;
      assert s == [s[0]] + (scheme + "://" + rest);
    }
  }

  lemma {:induction false} NoSchemeSooner(s: string, i: nat)
    requires SplitScheme(s).Some? && i < |SplitScheme(s).value.0|
    ensures !SchemeEndsAt(s, i)
  {
    assert s[0..3] == s[..3];
    if i > 0 {
      NoSchemeSooner(s[1..], i - 1);
      EndsLater(s, i - 1);
    }
  }

  lemma SplitSchemeExact(s: string)
    ensures SplitScheme(s).None? <==> forall i: nat :: !SchemeEndsAt(s, i)
    ensures SplitScheme(s).Some? ==>
              var (scheme, rest) := SplitScheme(s).value;
              s == scheme + "://" + rest && forall i: nat :: i < |scheme| ==> !SchemeEndsAt(s, i)
  {
    hide SplitScheme;
    if SplitScheme(s).None? {
      forall i: nat ensures !SchemeEndsAt(s, i) {
        NoSchemeFound(s, i);
      }
    } else {
      SchemeFound(s);
      var (scheme, rest) := SplitScheme(s).value;
      assert s[|scheme|..|scheme| + 3] == "://";
      assert SchemeEndsAt(s, |scheme|);
      forall i: nat | i < |scheme| ensures !SchemeEndsAt(s, i) {
        NoSchemeSooner(s, i);
      }
    }
  }

  lemma {:induction false} RSplitExact(s: string, c: char)
    ensures RSplitOnce(s, c).None? <==> c !in s
    ensures RSplitOnce(s, c).Some? ==>
              var (before, after) := RSplitOnce(s, c).value; s == before + [c] + after && c !in after
  {
    if s != [] {
      var n := |s| - 1;
      RSplitExact(s[..n], c);
      assert s == s[..n] + [s[n]];
    }
  }

  lemma {:induction false} RSplitAt(before: string, c: char, after: string)
    requires c !in after
    ensures RSplitOnce(before + [c] + after, c) == Some((before, after))
  {
    var s := before + [c] + after;
    if after == [] {
      assert s[..|s| - 1] == before;
    } else {
      var n := |after| - 1;
      assert s[..|s| - 1] == before + [c] + after[..n];
      RSplitAt(before, c, after[..n]);
      assert after[..n] + [after[n]] == after;
    }
  }

  lemma {:induction false} AuthorityBefore(authority: string, tail: string)
    requires PathOrNothing(tail) && PlainAuthority(authority)
    ensures Authority(authority + tail) == authority
  {
    if authority == [] {
      assert authority + tail == tail;
    } else {
      assert (authority + tail)[1..] == authority[1..] + tail;
      AuthorityBefore(authority[1..], tail);
    }
  }

  lemma {:induction false} AuthorityExact(rest: string)
    ensures var a := Authority(rest); a <= rest && PlainAuthority(a) && PathOrNothing(rest[|a|..])
  {
    if rest != [] && !EndsAuthority(rest[0]) {
      AuthorityExact(rest[1..]);
      var a := Authority(rest[1..]);
      assert rest == [rest[0]] + rest[1..] && rest[1 + |a|..] == rest[1..][|a|..];
    }
  }

  lemma {:induction false} SchemeBefore(scheme: string, rest: string)
    requires forall i: nat :: i < |scheme| ==> !SchemeEndsAt(scheme + "://" + rest, i)
    ensures SplitScheme(scheme + "://" + rest) == Some((scheme, rest))
  {
    var s := scheme + "://" + rest;
    if scheme == "" {
      assert s[..3] == "://" && s[3..] == rest;
    } else {
      assert !SchemeEndsAt(s, 0) && s[0..3] == s[..3];
      assert s[1..] == scheme[1..] + "://" + rest;
      forall i: nat | i < |scheme| - 1 ensures !SchemeEndsAt(s[1..], i) {
        assert !SchemeEndsAt(s, i + 1);
        EndsLater(s, i);
      }
      SchemeBefore(scheme[1..], rest);
      assert [scheme[0]] + scheme[1..] == scheme;
    }
  }

  /** An endpoint with a `://` spells one scheme, authority and tail, the ones the reader finds. */
  lemma SpellsExactly(endpoint: string, scheme: string, authority: string, tail: string)
    ensures Spells(endpoint, scheme, authority, tail) <==>
            && SplitScheme(endpoint) == Some((scheme, authority + tail))
            && authority == Authority(authority + tail)
  {
    hide SplitScheme, Authority;
    if Spells(endpoint, scheme, authority, tail) {
      SchemeBefore(scheme, authority + tail);
      AuthorityBefore(authority, tail);
    }
    SplitSchemeExact(endpoint);
    AuthorityExact(authority + tail);
    assert (authority + tail)[|authority|..] == tail;
  }

  lemma SpellingOf(endpoint: string) returns (scheme: string, authority: string, tail: string)
    requires SplitScheme(endpoint).Some?
    ensures Spells(endpoint, scheme, authority, tail)
    ensures SplitScheme(endpoint) == Some((scheme, authority + tail)) && authority == Authority(authority + tail)
  {
    hide SplitScheme, Authority, Spells;
    var rest := SplitScheme(endpoint).value.1;
    scheme := SplitScheme(endpoint).value.0;
    authority := Authority(rest);
    AuthorityExact(rest);
    tail := rest[|authority|..];
    assert authority + tail == rest;
    SpellsExactly(endpoint, scheme, authority, tail);
  }

  lemma PortSplits(authority: string, host: string, port: string)
    ensures WithPort(authority, host, port) <==>
            RSplitOnce(authority, ':') == Some((host, port)) && ']' !in port && host != ""
  {
    RSplitExact(authority, ':');
    if WithPort(authority, host, port) {
      RSplitAt(host, ':', port);
    }
  }

  lemma NamesExactly(authority: string, defaultPort: nat, host: string, port: nat)
    ensures HostAndPort(authority, defaultPort) == Ok((host, port)) <==> Names(authority, defaultPort, host, port)
    ensures HostAndPort(authority, defaultPort).Ok? || HostAndPort(authority, defaultPort) == Err(NotAPort)
    ensures HostAndPort(authority, defaultPort).Err? <==>
            exists h, p :: WithPort(authority, h, p) && ParseUnsigned(p, 65536).None?
  {
    hide RSplitOnce, StripBrackets, ParseUnsigned, WithPort;
    forall h, p
      ensures WithPort(authority, h, p) <==> RSplitOnce(authority, ':') == Some((h, p)) && ']' !in p && h != ""
    {
      PortSplits(authority, h, p);
    }
    if RSplitOnce(authority, ':').Some? {
      var (h, p) := RSplitOnce(authority, ':').value;
      assert ']' !in p && h != "" ==> WithPort(authority, h, p);
    }
  }

  /** `endpoint` is of that scheme, and its authority names `host` and `port`. */
  ghost predicate NamesOver(endpoint: string, scheme: string, defaultPort: nat, host: string, port: nat) {
    exists authority, tail ::
      Spells(endpoint, scheme, authority, tail) && authority != "" && Names(authority, defaultPort, host, port)
  }

  /** The reader's whole language: what an endpoint must spell to name a host and port. */
  lemma SplitsExactly(endpoint: string, host: string, port: nat)
    ensures SplitHostPort(endpoint) == Ok((host, port)) <==>
            || NamesOver(endpoint, "http", 80, host, port)
            || NamesOver(endpoint, "https", 443, host, port)
  {
    hide SplitScheme, Authority, Spells, Names, HostAndPort;
    if SplitHostPort(endpoint) == Ok((host, port)) {
      var scheme, authority, tail := SpellingOf(endpoint);
      NamesExactly(authority, DefaultPort(scheme), host, port);
    }
    forall scheme, authority, tail | && Spells(endpoint, scheme, authority, tail) && Supported(scheme) && authority != ""
                                     && Names(authority, DefaultPort(scheme), host, port)
      ensures SplitHostPort(endpoint) == Ok((host, port))
    {
      SpellsExactly(endpoint, scheme, authority, tail);
      NamesExactly(authority, DefaultPort(scheme), host, port);
    }
  }

  /** Each refusal, on its own condition and no other. */
  lemma RefusedExactly(endpoint: string)
    ensures SplitHostPort(endpoint) == Err(NoScheme) <==> forall i: nat :: !SchemeEndsAt(endpoint, i)
    ensures SplitHostPort(endpoint) == Err(UnsupportedScheme) <==>
            exists scheme, authority, tail :: Spells(endpoint, scheme, authority, tail) && scheme !in {"http", "https"}
    ensures SplitHostPort(endpoint) == Err(NoHost) <==>
            exists scheme, tail :: Spells(endpoint, scheme, "", tail) && scheme in {"http", "https"}
    ensures SplitHostPort(endpoint) == Err(NotAPort) <==>
            exists scheme, authority, tail, h, p ::
              && Spells(endpoint, scheme, authority, tail) && scheme in {"http", "https"}
              && WithPort(authority, h, p) && ParseUnsigned(p, 65536).None?
  {
    hide SplitScheme, Authority, Spells, HostAndPort, SchemeEndsAt, ParseUnsigned;
    SplitSchemeExact(endpoint);
    forall scheme, authority, tail | Spells(endpoint, scheme, authority, tail)
      ensures SplitScheme(endpoint) == Some((scheme, authority + tail)) && authority == Authority(authority + tail)
    {
      SpellsExactly(endpoint, scheme, authority, tail);
    }
    if SplitScheme(endpoint).Some? {
      var scheme, authority, tail := SpellingOf(endpoint);
      NamesExactly(authority, DefaultPort(scheme), "", 0);
    }
  }

  // ---------------------------------------------------------------- hosts and ports read back

  /** A host name, with nothing in it that an endpoint gives another meaning. */
  predicate PlainHost(host: string) {
    host != "" && PlainAuthority(host) && ':' !in host && '[' !in host && ']' !in host
  }

  lemma SupportedSpells(scheme: string, authority: string, tail: string)
    requires Supported(scheme) && PlainAuthority(authority) && PathOrNothing(tail)
    ensures Spells(scheme + "://" + (authority + tail), scheme, authority, tail)
  {
    var endpoint := scheme + "://" + (authority + tail);
    forall i: nat | i < |scheme| ensures !SchemeEndsAt(endpoint, i) {
      assert i + 3 <= |endpoint| ==> endpoint[i..i + 3][0] == scheme[i] != ':';
    }
  }

  lemma PortReadsBack(port: nat)
    requires port < PORTS
    ensures ParseUnsigned(Numeral(port), PORTS) == Some(port)
    ensures ':' !in Numeral(port) && ']' !in Numeral(port) && PlainAuthority(Numeral(port))
  {
    ValueOfNumeral(port);
  }

  lemma AuthorityWithPort(scheme: string, host: string, port: nat, tail: string)
    requires Supported(scheme) && host != [] && PlainAuthority(host) && port < PORTS && PathOrNothing(tail)
    ensures SplitHostPort(scheme + "://" + (host + ":" + Numeral(port) + tail)) == Ok((StripBrackets(host), port))
  {
    hide Spells, SplitHostPort, StripBrackets, ParseUnsigned;
    PortReadsBack(port);
    var authority := host + ":" + Numeral(port);
    SupportedSpells(scheme, authority, tail);
    assert WithPort(authority, host, Numeral(port));
    assert Names(authority, DefaultPort(scheme), StripBrackets(host), port);
    assert NamesOver(scheme + "://" + (authority + tail), scheme, DefaultPort(scheme), StripBrackets(host), port);
    SplitsExactly(scheme + "://" + (authority + tail), StripBrackets(host), port);
  }

  lemma AuthorityAlone(scheme: string, host: string, tail: string)
    requires Supported(scheme) && host != [] && PlainAuthority(host) && PathOrNothing(tail)
    requires forall h, p :: !WithPort(host, h, p)
    ensures SplitHostPort(scheme + "://" + (host + tail)) == Ok((StripBrackets(host), DefaultPort(scheme)))
  {
    hide Spells, SplitHostPort, StripBrackets, ParseUnsigned;
    SupportedSpells(scheme, host, tail);
    assert Names(host, DefaultPort(scheme), StripBrackets(host), DefaultPort(scheme));
    assert NamesOver(scheme + "://" + (host + tail), scheme, DefaultPort(scheme), StripBrackets(host), DefaultPort(scheme));
    SplitsExactly(scheme + "://" + (host + tail), StripBrackets(host), DefaultPort(scheme));
  }

  lemma PlainHostKept(host: string)
    requires PlainHost(host)
    ensures StripBrackets(host) == host
  {
  }

  /** A host reads back from either scheme, on the port given or else on the scheme's own, whatever path follows. */
  lemma HostReadsBack(scheme: string, host: string, port: nat, tail: string)
    requires scheme in {"http", "https"} && PlainHost(host) && port < 65536 && PathOrNothing(tail)
    ensures SplitHostPort(scheme + "://" + (host + ":" + Numeral(port) + tail)) == Ok((host, port))
    ensures SplitHostPort(scheme + "://" + (host + tail)) == Ok((host, if scheme == "https" then 443 else 80))
  {
    hide SplitHostPort, StripBrackets;
    PlainHostKept(host);
    AuthorityWithPort(scheme, host, port, tail);
    AuthorityAlone(scheme, host, tail);
  }

  /** A host loses the brackets before and after it, however many, and nothing else. */
  lemma StripBracketsExactly(host: string) returns (lo: nat, hi: nat)
    ensures lo <= hi <= |host| && StripBrackets(host) == host[lo..hi]
    ensures (forall i :: 0 <= i < lo ==> host[i] == '[') && (forall i :: hi <= i < |host| ==> host[i] == ']')
    ensures (lo < |host| ==> host[lo] != '[') && (lo < hi ==> host[hi - 1] != ']')
  {
    hide TrimStartMatches, TrimEndMatches;
    var inner := TrimStartMatches(host, '[');
    TrimStartMatchesExact(host, '[');
    TrimEndMatchesExact(inner, ']');
    lo := |host| - |inner|;
    hi := lo + |StripBrackets(host)|;
    assert forall i :: lo <= i < |host| ==> host[i] == inner[i - lo];
  }

  lemma BracketsStripped(literal: string)
    requires literal != [] && '[' !in literal && ']' !in literal
    ensures StripBrackets("[" + literal + "]") == literal
  {
    assert ("[" + literal + "]")[1..] == literal + "]";
    assert (literal + "]")[..|literal|] == literal && (literal + "]")[0] == literal[0];
    assert TrimEndMatches(literal + "]", ']') == literal;
    assert TrimStartMatches("[" + literal + "]", '[') == literal + "]";
  }

  /** An IPv6 literal keeps its colons and loses its brackets, with a port or without, in either scheme. */
  lemma Ipv6Literal(scheme: string, literal: string, port: nat, tail: string)
    requires scheme in {"http", "https"} && literal != [] && port < 65536 && PathOrNothing(tail)
    requires PlainAuthority(literal) && '[' !in literal && ']' !in literal
    ensures SplitHostPort(scheme + "://" + ("[" + literal + "]" + ":" + Numeral(port) + tail)) == Ok((literal, port))
    ensures SplitHostPort(scheme + "://" + ("[" + literal + "]" + tail)) == Ok((literal, if scheme == "https" then 443 else 80))
  {
    hide SplitHostPort, StripBrackets;
    var host := "[" + literal + "]";
    BracketsStripped(literal);
    AuthorityWithPort(scheme, host, port, tail);
    forall h, p ensures !WithPort(host, h, p) {
      if host == h + ":" + p {
        assert host[|host| - 1] == ']' && (p != "" ==> p[|p| - 1] == host[|host| - 1]);
      }
    }
    AuthorityAlone(scheme, host, tail);
  }

  // ---------------------------------------------------------------- the ladder

  lemma NodePortText()
    ensures Numeral(9778) == "9778"
  {
    hide Value, Numeral;
    NothingCounts();
    ValueNext("", '9', "9");
    ValueNext("9", '7', "97");
    ValueNext("97", '7', "977");
    ValueNext("977", '8', "9778");
    NumeralOfValue("9778");
  }

  lemma TierTexts()
    ensures "http" + "://" + ("dig.local" + "") == "http://dig.local" == "http://" + DIG_LOCAL_HOST
    ensures "http" + "://" + ("localhost" + ":" + "9778" + "") == "http://localhost:9778" == "http://" + LOCALHOST + ":" + "9778"
  {
  }

  lemma TiersNamed()
    ensures SplitHostPort("http" + "://" + ("dig.local" + "")) == Ok(("dig.local", 80))
    ensures SplitHostPort("http" + "://" + ("localhost" + ":" + Numeral(9778) + "")) == Ok(("localhost", 9778))
  {
    hide SplitHostPort, Numeral;
    HostReadsBack("http", "dig.local", 9778, "");
    HostReadsBack("http", "localhost", 9778, "");
  }

  /** With no node configured, or a blank one, two tiers are asked: the machine's own name, and the node's port. */
  lemma LocalTiers(blank: string)
    requires Blank(blank)
    ensures Ladder(None) == Ladder(Some(blank)) == ["http://dig.local", "http://localhost:9778"]
    ensures SplitHostPort("http://dig.local") == Ok(("dig.local", 80))
    ensures SplitHostPort("http://localhost:9778") == Ok(("localhost", 9778))
  {
    hide SplitHostPort, Numeral, Trim, Blank;
    NodePortText();
    TrimEmptyIffBlank(blank);
    TiersNamed();
    TierTexts();
  }

  lemma SlashesAfterAuthority(endpoint: string, scheme: string, defaultPort: nat, host: string, port: nat)
    requires scheme in {"http", "https"} && NamesOver(endpoint, scheme, defaultPort, host, port)
    ensures NamesOver(TrimEndMatches(endpoint, '/'), scheme, defaultPort, host, port)
  {
    hide Names, TrimEndMatches;
    var authority, tail :| Spells(endpoint, scheme, authority, tail) && authority != "" && Names(authority, defaultPort, host, port);
    var trimmed := TrimEndMatches(endpoint, '/');
    TrimEndMatchesExact(endpoint, '/');
    var n := |scheme| + 3 + |authority|;
    assert endpoint[n - 1] == authority[|authority| - 1];
    assert n <= |trimmed|;
    var rest := trimmed[n..];
    assert trimmed == endpoint[..|trimmed|];
    assert trimmed == scheme + "://" + (authority + rest);
    assert rest <= tail;
    SupportedSpells(scheme, authority, rest);
  }

  /** Final slashes are part of what follows the authority, so dropping them changes nothing an endpoint names. */
  lemma FinalSlashesMeanNothing(endpoint: string, host: string, port: nat)
    requires SplitHostPort(endpoint) == Ok((host, port))
    ensures SplitHostPort(TrimEndMatches(endpoint, '/')) == Ok((host, port))
  {
    hide SplitHostPort, NamesOver, TrimEndMatches;
    SplitsExactly(endpoint, host, port);
    SplitsExactly(TrimEndMatches(endpoint, '/'), host, port);
    if NamesOver(endpoint, "http", 80, host, port) {
      SlashesAfterAuthority(endpoint, "http", 80, host, port);
    } else {
      SlashesAfterAuthority(endpoint, "https", 443, host, port);
    }
  }

  lemma SchemeIsPrefixed(rest: string)
    ensures SplitScheme("http://" + rest) == Some(("http", rest))
  {
    hide SplitScheme, Authority;
    AuthorityExact(rest);
    var authority := Authority(rest);
    assert authority + rest[|authority|..] == rest;
    SupportedSpells("http", authority, rest[|authority|..]);
    SpellsExactly("http" + "://" + rest, "http", authority, rest[|authority|..]);
    assert "http" + "://" + rest == "http://" + rest;
  }

  /**
   A configured node is asked alone. Named with a scheme it is the node that endpoint names; named without
   one, it is the node the same text names over http.
   */
  lemma ConfiguredNodeAlone(configured: string, host: string, port: nat)
    requires !Blank(configured)
    ensures |Ladder(Some(configured))| == 1
    ensures var typed, asked := Trim(configured), Ladder(Some(configured))[0];
            && (SplitHostPort(typed) == Ok((host, port)) ==> SplitHostPort(asked) == Ok((host, port)))
            && (SplitScheme(typed).None? && SplitHostPort("http://" + typed) == Ok((host, port)) ==>
                  SplitHostPort(asked) == Ok((host, port)))
  {
    hide SplitHostPort, SplitScheme, Trim, TrimEndMatches;
    TrimEmptyIffBlank(configured);
    var typed := Trim(configured);
    var trimmed := TrimEndMatches(typed, '/');
    TrimEndMatchesExact(typed, '/');
    if SplitHostPort(typed) == Ok((host, port)) {
      FinalSlashesMeanNothing(typed, host, port);
      NamedHasScheme(trimmed);
    }
    if SplitScheme(typed).None? && SplitHostPort("http://" + typed) == Ok((host, port)) {
      FinalSlashesMeanNothing("http://" + typed, host, port);
      NoSchemeInPrefix(typed, trimmed);
      SlashesAfterPrefix(typed);
      if trimmed == "" {
        SlashesNameNothing(typed);
      }
    }
  }

  /** A configured text is asked as typed, white space and final slashes apart, with `http://` before it if it has no `://`. */
  lemma NormalizedExactly(configured: string) returns (n: nat)
    requires !Blank(configured)
    ensures var typed := Trim(configured);
            && n <= |typed| && (n > 0 ==> typed[n - 1] != '/') && (forall i :: n <= i < |typed| ==> typed[i] == '/')
            && Ladder(Some(configured)) ==
                 [if exists i: nat :: SchemeEndsAt(typed[..n], i) then typed[..n] else "http://" + typed[..n]]
  {
    hide SplitScheme, Trim, TrimEndMatches;
    TrimEmptyIffBlank(configured);
    var typed := Trim(configured);
    TrimEndMatchesExact(typed, '/');
    n := |TrimEndMatches(typed, '/')|;
    assert typed[..n] == TrimEndMatches(typed, '/');
    SplitSchemeExact(typed[..n]);
  }

  lemma NamedHasScheme(endpoint: string)
    requires SplitHostPort(endpoint).Ok?
    ensures SplitScheme(endpoint).Some?
  {
  }

  lemma NoSchemeInPrefix(s: string, prefix: string)
    requires prefix <= s && SplitScheme(s).None?
    ensures SplitScheme(prefix).None?
  {
    hide SplitScheme;
    SplitSchemeExact(s);
    SplitSchemeExact(prefix);
    forall i: nat ensures !SchemeEndsAt(prefix, i) {
      assert i + 3 <= |prefix| ==> prefix[i..i + 3] == s[i..i + 3];
      assert !SchemeEndsAt(s, i);
    }
  }

  /** Unless the text is all slashes, dropping its final ones is not changed by what is put before it. */
  lemma {:induction false} SlashesAfterPrefix(s: string)
    ensures TrimEndMatches(s, '/') != "" ==> TrimEndMatches("http://" + s, '/') == "http://" + TrimEndMatches(s, '/')
  {
    if s != "" && s[|s| - 1] == '/' {
      var t := "http://" + s;
      assert t[..|t| - 1] == "http://" + s[..|s| - 1];
      SlashesAfterPrefix(s[..|s| - 1]);
    }
  }

  lemma SlashesNameNothing(s: string)
    requires TrimEndMatches(s, '/') == ""
    ensures SplitHostPort("http://" + s).Err?
  {
    hide SplitScheme, TrimEndMatches;
    TrimEndMatchesExact(s, '/');
    SchemeIsPrefixed(s);
  }
}
