/** DIG links and the node URLs they are served from (crates/dig-app-core/src/link.rs). */
module Link {
  import opened Wrappers
  import opened Text

  /** The parts of a link: a store, perhaps one generation of it, and a path inside it. */
  datatype DigLink = DigLink(store: string, root: Option<string>, path: string) {

    /** What the node's own parser demands. */
    predicate Valid() {
      Is64Hex(store) && (root.Some? ==> Is64Hex(root.value))
    }

    function StoreRef(): string {
      match root
      case Some(r) => store + ":" + r
      case None => store
    }
  }

  datatype LinkError = NotADigLink | BadStoreId | BadRoot

  predicate IsHex(c: char) {
    '0' <= c <= '9' || 'a' <= c <= 'f' || 'A' <= c <= 'F'
  }

  predicate Is64Hex(s: string) {
    |s| == 64 && forall i :: 0 <= i < |s| ==> IsHex(s[i])
  }

  /** Splits `<store>[:<root>][/<path>]`, the part after either scheme. */
  function ParseAfterScheme(rest: string): Result<DigLink, LinkError> {
    var (storePart, path) := match SplitOnce(rest, '/')
      case Some(parts) => parts
      case None => (rest, "");
    var (store, root) := match SplitOnce(storePart, ':')
      case Some((id, r)) => (id, Some(r))
      case None => (storePart, None);
    if !Is64Hex(store) then Err(BadStoreId)
    else if root.Some? && !Is64Hex(root.value) then Err(BadRoot)
    else Ok(DigLink(store, root, path))
  }

  const CHIA: string := "chia://"
  const URN: string := "urn:dig:chia:"

  function Parse(link: string): Result<DigLink, LinkError> {
    if CHIA <= link then ParseAfterScheme(link[|CHIA|..])
    else if URN <= link then ParseAfterScheme(link[|URN|..])
    else Err(NotADigLink)
  }

  /** The endpoint without the slashes it ends in. */
  function Base(endpoint: string): string {
    TrimEndMatches(endpoint, '/')
  }

  function ServeUrl(endpoint: string, link: string): Result<string, LinkError> {
    var parsed :- Parse(link);
    if parsed.path == "" then Ok(Base(endpoint) + "/s/" + parsed.StoreRef() + "/")
    else Ok(Base(endpoint) + "/s/" + parsed.StoreRef() + "/" + parsed.path)
  }

  // ---------------------------------------------------------------- what a link says

  /** The ways to write a valid link's parts: the slash may go when there is nothing after it. */
  ghost predicate Spells(rest: string, l: DigLink) {
    l.Valid() && (rest == l.StoreRef() + "/" + l.path || (l.path == "" && rest == l.StoreRef()))
  }

  lemma HexIsPlain(s: string)
    requires Is64Hex(s)
    ensures '/' !in s && ':' !in s
  {
  }

  /** A digit of base sixteen is one of these characters of ASCII. */
  lemma HexExactly(s: string)
    ensures Is64Hex(s) <==> |s| == 64 && forall i :: 0 <= i < |s| ==>
              0x30 <= s[i] as int <= 0x39 || 0x41 <= s[i] as int <= 0x46 || 0x61 <= s[i] as int <= 0x66
  {
  }

  /** How any text divides: what is before the first slash, that in turn at its first colon, and what is after. */
  ghost predicate Divides(rest: string, l: DigLink) {
    && '/' !in l.store && ':' !in l.store && (l.root.Some? ==> '/' !in l.root.value)
    && (rest == l.StoreRef() + "/" + l.path || (l.path == "" && rest == l.StoreRef()))
  }

  lemma DivisionSplits(l: DigLink)
    requires '/' !in l.store && ':' !in l.store && (l.root.Some? ==> '/' !in l.root.value)
    ensures '/' !in l.StoreRef()
    ensures SplitOnce(l.StoreRef(), ':') == match l.root case Some(r) => Some((l.store, r)) case None => None
  {
    hide SplitOnce;
    if l.root.Some? {
      SplitOnceAt(l.store, ':', l.root.value);
      assert l.StoreRef() == l.store + [':'] + l.root.value;
    } else {
      SplitOnceExact(l.store, ':');
    }
  }

  /** Its store is judged first and then its root, each by the same rule. */
  lemma DividedExactly(rest: string, l: DigLink)
    requires Divides(rest, l)
    ensures ParseAfterScheme(rest)
         == if !Is64Hex(l.store) then Err(BadStoreId)
            else if l.root.Some? && !Is64Hex(l.root.value) then Err(BadRoot)
            else Ok(l)
  {
    hide SplitOnce, Is64Hex;
    DivisionSplits(l);
    if rest == l.StoreRef() + "/" + l.path {
      SplitOnceAt(l.StoreRef(), '/', l.path);
      assert rest == l.StoreRef() + ['/'] + l.path;
    } else {
      SplitOnceExact(rest, '/');
    }
  }

  lemma DivisionExists(rest: string) returns (l: DigLink)
    ensures Divides(rest, l)
  {
    hide SplitOnce;
    SplitOnceExact(rest, '/');
    var (storePart, path) := match SplitOnce(rest, '/') case Some(parts) => parts case None => (rest, "");
    SplitOnceExact(storePart, ':');
    l := match SplitOnce(storePart, ':')
      case Some((id, r)) => DigLink(id, Some(r), path)
      case None => DigLink(storePart, None, path);
    assert storePart == l.StoreRef();
  }

  lemma SpelledIsParsed(rest: string, l: DigLink)
    requires Spells(rest, l)
    ensures ParseAfterScheme(rest) == Ok(l)
  {
    hide Is64Hex;
    HexIsPlain(l.store);
    if l.root.Some? {
      HexIsPlain(l.root.value);
    }
    DividedExactly(rest, l);
  }

  lemma ParsedIsSpelled(rest: string)
    requires ParseAfterScheme(rest).Ok?
    ensures Spells(rest, ParseAfterScheme(rest).value)
  {
    hide Is64Hex, ParseAfterScheme;
    var l := DivisionExists(rest);
    DividedExactly(rest, l);
  }

  /** What follows a scheme parses as `l` exactly when it spells `l`; colons and slashes in the path are the path's. */
  lemma ParsesExactly(rest: string, l: DigLink)
    ensures ParseAfterScheme(rest) == Ok(l) <==> Spells(rest, l)
  {
    if ParseAfterScheme(rest) == Ok(l) {
      ParsedIsSpelled(rest);
    }
    if Spells(rest, l) {
      SpelledIsParsed(rest, l);
    }
  }

  /** Both schemes read a rendered link back to the parts it was rendered from, and nothing else is a link. */
  lemma SchemesAgree(link: string, l: DigLink)
    ensures Parse(link) == Ok(l) <==>
            exists rest :: Spells(rest, l) && (link == "chia://" + rest || link == "urn:dig:chia:" + rest)
    ensures Parse(link) == Err(NotADigLink) <==> !("chia://" <= link) && !("urn:dig:chia:" <= link)
  {
    hide ParseAfterScheme, Spells;
    NeverNotALink(link);
    if Parse(link) == Ok(l) {
      var rest := if CHIA <= link then link[|CHIA|..] else link[|URN|..];
      ParsesExactly(rest, l);
      assert link == CHIA + rest || link == URN + rest;
    }
    forall rest | Spells(rest, l) && (link == CHIA + rest || link == URN + rest) ensures Parse(link) == Ok(l) {
      ParsesExactly(rest, l);
      SchemeStripped(rest);
    }
  }

  lemma NeverNotALink(link: string)
    ensures CHIA <= link ==> ParseAfterScheme(link[|CHIA|..]) != Err(NotADigLink)
    ensures URN <= link ==> ParseAfterScheme(link[|URN|..]) != Err(NotADigLink)
  {
    hide SplitOnce, Is64Hex;
  }

  lemma SchemeStripped(rest: string)
    ensures Parse(CHIA + rest) == ParseAfterScheme(rest) && Parse(URN + rest) == ParseAfterScheme(rest)
  {
    hide ParseAfterScheme;
    assert (CHIA + rest)[|CHIA|..] == rest && (URN + rest)[|URN|..] == rest;
    assert (URN + rest)[0] == 'u' && CHIA[0] == 'c';
  }

  // ---------------------------------------------------------------- what is served

  lemma UrlShape(endpoint: string, l: DigLink, link: string)
    requires Parse(link) == Ok(l)
    ensures ServeUrl(endpoint, link) == Ok(Base(endpoint) + "/s/" + (l.StoreRef() + "/" + l.path))
    ensures l.Valid()
  {
    hide Base, ParseAfterScheme;
    var rest := if CHIA <= link then link[|CHIA|..] else link[|URN|..];
    ParsesExactly(rest, l);
    Slashes(Base(endpoint) + "/s/", l.StoreRef(), l.path);
  }

  lemma Slashes(base: string, ref: string, path: string)
    ensures base + ref + "/" == base + (ref + "/" + "") && base + ref + "/" + path == base + (ref + "/" + path)
  {
  }

  lemma SamePrefix(p: string, a: string, b: string)
    requires p + a == p + b
    ensures a == b
  {
    assert (p + a)[|p|..] == a && (p + b)[|p|..] == b;
  }

  /** Under one endpoint, two links are served from one URL exactly when they name the same store, root and path. */
  lemma UrlDeterminesLink(endpoint: string, a: string, b: string)
    requires Parse(a).Ok? && Parse(b).Ok?
    ensures ServeUrl(endpoint, a) == ServeUrl(endpoint, b) <==> Parse(a) == Parse(b)
  {
    hide Parse, Base, ServeUrl;
    var l, m := Parse(a).value, Parse(b).value;
    UrlShape(endpoint, l, a);
    UrlShape(endpoint, m, b);
    if ServeUrl(endpoint, a) == ServeUrl(endpoint, b) {
      var rest, other := l.StoreRef() + "/" + l.path, m.StoreRef() + "/" + m.path;
      SamePrefix(Base(endpoint) + "/s/", rest, other);
      SpelledIsParsed(rest, l);
      SpelledIsParsed(other, m);
    }
  }

  /** `base` is the endpoint short of the slashes it ends in. */
  ghost predicate IsBase(endpoint: string, base: string) {
    && base <= endpoint && (base != "" ==> base[|base| - 1] != '/')
    && forall i :: |base| <= i < |endpoint| ==> endpoint[i] == '/'
  }

  lemma BaseExactly(endpoint: string, base: string)
    ensures IsBase(endpoint, base) <==> base == Base(endpoint)
  {
    TrimEndMatchesExact(endpoint, '/');
    hide TrimEndMatches;
    var found := Base(endpoint);
    if IsBase(endpoint, base) {
      assert base != "" ==> endpoint[|base| - 1] == base[|base| - 1];
      assert found != "" ==> endpoint[|found| - 1] == found[|found| - 1];
      assert base == endpoint[..|base|] && found == endpoint[..|found|];
    }
  }

  /** And a URL is made for exactly the links that parse; the refusal is the parser's. */
  lemma ServedExactly(endpoint: string, link: string, url: string)
    ensures ServeUrl(endpoint, link) == Ok(url) <==>
            exists base, l :: && IsBase(endpoint, base) && Parse(link) == Ok(l) && l.Valid()
                              && url == base + "/s/" + (l.StoreRef() + "/" + l.path)
    ensures ServeUrl(endpoint, link).Err? <==> Parse(link).Err?
    ensures Parse(link).Err? ==> ServeUrl(endpoint, link).error == Parse(link).error
  {
    hide Base, IsBase, ParseAfterScheme;
    forall base ensures IsBase(endpoint, base) <==> base == Base(endpoint) {
      BaseExactly(endpoint, base);
    }
    if Parse(link).Ok? {
      UrlShape(endpoint, Parse(link).value, link);
    }
  }
}
