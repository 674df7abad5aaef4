/**
 Reading one HTTP/1.1 reply under three header budgets and a body cap
 (crates/dig-app-core/src/control.rs). The connection is what its reads yield at each position, for
 ever: a byte, the end of the stream, or a socket error. A stream that never ends is one of these.
 */
module HttpReply {
  import opened Wrappers
  import opened Utf8
  import opened Text
  import opened Decimal

  const LINE := 4096
  const BLOCK := 16 * 1024
  const COUNT := 32
  const BODY := 8 * 1024 * 1024
  const NEWLINE: byte := 10

  datatype Event = Byte(b: byte) | Eof | Fault(timedOut: bool)
  type Feed = nat -> Event

  datatype Bound = Line | Block | Count

  datatype Error =
    | TimedOut
    | LinkLost
    | BadResponse
    | HeaderTooLarge(bound: Bound)
    | ResponseTooLarge
    | HttpRefused(code: nat)

  datatype LineError = Io(timedOut: bool) | NotUtf8 | TooLong

  // ---------------------------------------------------------------- what is read

  /** The bytes of one line from `at`: up to and including a newline, within `budget`. */
  function LineBytes(feed: Feed, at: nat, budget: nat): (raw: seq<byte>)
    ensures |raw| <= budget
    decreases budget, at
  {
    if budget == 0 then [] else
    match feed(at)
    case Byte(b) => if b == NEWLINE then [b] else [b] + LineBytes(feed, at + 1, budget - 1)
    case _ => []
  }

  predicate Terminated(raw: seq<byte>) {
    raw != [] && raw[|raw| - 1] == 10
  }

  /** The socket error the read of that line runs into, if any. */
  function LineFault(feed: Feed, at: nat, budget: nat): Option<bool>
    decreases budget, at
  {
    if budget == 0 then None else
    match feed(at)
    case Byte(b) => if b == NEWLINE then None else LineFault(feed, at + 1, budget - 1)
    case Eof => None
    case Fault(timedOut) => Some(timedOut)
  }

  /** One bounded line as text, and where the next begins. A read error outranks a decoding error, which outranks length. */
  function LineAt(feed: Feed, at: nat): Result<(string, nat), LineError> {
    var raw := LineBytes(feed, at, LINE + 1);
    var fault := LineFault(feed, at, LINE + 1);
    if fault.Some? then Err(Io(fault.value))
    else match Decode(raw)
      case None => Err(NotUtf8)
      case Some(text) => if |raw| == LINE + 1 then Err(TooLong) else Ok((text, at + |raw|))
  }

  /** An expired socket timeout means the node stalled; any other failure of the status read lost the link. */
  function StatusError(e: LineError): Error {
    match e
    case Io(timedOut) => if timedOut then TimedOut else LinkLost
    case NotUtf8 => LinkLost
    case TooLong => HeaderTooLarge(Line)
  }

  function HeaderError(e: LineError): Error {
    match e
    case Io(_) => BadResponse
    case NotUtf8 => BadResponse
    case TooLong => HeaderTooLarge(Line)
  }

  /** Where the header block that starts at `at` ends, given the headers and bytes already counted. */
  function HeadersAt(feed: Feed, at: nat, count: nat, block: nat): Result<nat, Error>
    requires count <= COUNT
    decreases COUNT - count, at
  {
    match LineAt(feed, at)
    case Err(e) => Err(HeaderError(e))
    case Ok((line, next)) =>
      if Trim(line) == [] then Ok(next)
      else if count + 1 > COUNT then Err(HeaderTooLarge(Count))
      else if block + (next - at) > BLOCK then Err(HeaderTooLarge(Block))
      else HeadersAt(feed, next, count + 1, block + (next - at))
  }

  function BodyBytes(feed: Feed, at: nat, budget: nat): (raw: seq<byte>)
    ensures |raw| <= budget
    decreases budget, at
  {
    if budget > 0 && feed(at).Byte? then [feed(at).b] + BodyBytes(feed, at + 1, budget - 1) else []
  }

  predicate BodyFault(feed: Feed, at: nat, budget: nat)
    decreases budget, at
  {
    budget > 0 && (feed(at).Fault? || (feed(at).Byte? && BodyFault(feed, at + 1, budget - 1)))
  }

  function BodyAt(feed: Feed, at: nat): Result<seq<byte>, Error> {
    var raw := BodyBytes(feed, at, BODY + 1);
    if BodyFault(feed, at, BODY + 1) then Err(BadResponse)
    else if |raw| > BODY then Err(ResponseTooLarge)
    else Ok(raw)
  }

  /** The leading run of `s` free of white space. */
  function Word(s: string): (w: string)
    ensures |w| <= |s|
  {
    if s != [] && !IsWhitespace(s[0]) then [s[0]] + Word(s[1..]) else []
  }

  /** The second white-space-separated word of a status line, as a number. */
  function StatusCode(line: string): Result<nat, Error> {
    var first := TrimStart(line);
    var second := TrimStart(first[|Word(first)|..]);
    if first == [] || second == [] then Err(BadResponse)
    else match ParseUnsigned(Word(second), 0x1_0000)
      case None => Err(BadResponse)
      case Some(code) => Ok(code)
  }

  /** The status code and body of the reply, if the whole of it is within bounds. */
  function Received(feed: Feed, at: nat): Result<(nat, seq<byte>), Error> {
    match LineAt(feed, at)
    case Err(e) => Err(StatusError(e))
    case Ok((status, headersAt)) =>
      var code :- StatusCode(status);
      var bodyAt :- HeadersAt(feed, headersAt, 0, 0);
      var body :- BodyAt(feed, bodyAt);
      Ok((code, body))
  }

  /** The body of a success, or why there is none. */
  function Reply(feed: Feed, at: nat): Result<seq<byte>, Error> {
    var (code, body) :- Received(feed, at);
    if 200 <= code < 300 then Ok(body) else Err(HttpRefused(code))
  }

  lemma NextInLine(feed: Feed, at: nat, budget: nat)
    requires budget > 0
    ensures match feed(at)
            case Byte(b) =>
              && LineBytes(feed, at, budget) == [b] + (if b == NEWLINE then [] else LineBytes(feed, at + 1, budget - 1))
              && LineFault(feed, at, budget) == if b == NEWLINE then None else LineFault(feed, at + 1, budget - 1)
            case Eof => LineBytes(feed, at, budget) == [] && LineFault(feed, at, budget) == None
            case Fault(timedOut) => LineBytes(feed, at, budget) == [] && LineFault(feed, at, budget) == Some(timedOut)
  {
  }

  lemma Regroup(raw: seq<byte>, b: byte, rest: seq<byte>)
    ensures raw + ([b] + rest) == raw + [b] + rest
  {
  }

  lemma LineIsFull(feed: Feed, at: nat)
    ensures LineBytes(feed, at, 0) == [] && LineFault(feed, at, 0) == None
  {
  }

  // ---------------------------------------------------------------- reading it

  class Connection {
    const feed: Feed
    var at: nat

    constructor (feed: Feed)
      ensures this.feed == feed && at == 0
    {
      this.feed := feed;
      at := 0;
    }

    /** `take(limit).read_line`: the bytes read and the error met. */
    method ReadLine(limit: nat) returns (raw: seq<byte>, fault: Option<bool>)
      modifies this
      ensures raw == LineBytes(feed, old(at), limit) && fault == LineFault(feed, old(at), limit)
      ensures at == old(at) + |raw|
    {
      hide LineBytes, LineFault;
      raw := [];
      while |raw| < limit
        invariant |raw| <= limit && at == old(at) + |raw|
        invariant LineBytes(feed, old(at), limit) == raw + LineBytes(feed, at, limit - |raw|)
        invariant LineFault(feed, old(at), limit) == LineFault(feed, at, limit - |raw|)
      {
        NextInLine(feed, at, limit - |raw|);
        match feed(at) {
          case Byte(b) =>
            Regroup(raw, b, LineBytes(feed, at + 1, limit - |raw| - 1));
            raw := raw + [b];
            at := at + 1;
            if b == NEWLINE {
              return raw, None;
            }
          case Eof =>
            return raw, None;
          case Fault(timedOut) =>
            return raw, Some(timedOut);
        }
      }
      LineIsFull(feed, at);
      fault := None;
    }

    method ReadBoundedLine() returns (r: Result<string, LineError>)
      modifies this
      ensures var line := LineAt(feed, old(at));
              if line.Ok? then r == Ok(line.value.0) && at == line.value.1 else r == Err(line.error)
      ensures old(at) <= at <= old(at) + LINE + 1
      ensures r.Ok? ==> at <= old(at) + LINE
    {
      var takeLimit := LINE + 1;
      var raw, fault := ReadLine(takeLimit);
      if fault.Some? {
        return Err(Io(fault.value));
      }
      match Decode(raw) {
        case None =>
          return Err(NotUtf8);
        case Some(line) =>
          if |raw| == takeLimit {
            return Err(TooLong);
          }
          return Ok(line);
      }
    }

    /** `take(limit).read_to_end`. */
    method ReadToEnd(limit: nat) returns (raw: seq<byte>, fault: bool)
      modifies this
      ensures raw == BodyBytes(feed, old(at), limit)
      ensures fault == BodyFault(feed, old(at), limit)
      ensures at == old(at) + |raw|
    {
      raw, fault := [], false;
      while |raw| < limit
        invariant |raw| <= limit && at == old(at) + |raw|
        invariant BodyBytes(feed, old(at), limit) == raw + BodyBytes(feed, at, limit - |raw|)
        invariant BodyFault(feed, old(at), limit) == BodyFault(feed, at, limit - |raw|)
      {
        match feed(at) {
          case Byte(b) =>
            raw := raw + [b];
            at := at + 1;
          case Eof =>
            return raw, false;
          case Fault(_) =>
            return raw, true;
        }
      }
    }

    /** Reads header lines up to the blank one, keeping the count and the byte sum within bounds. */
    method ReadHeaders() returns (r: Result<(), Error>)
      modifies this
      ensures var end := HeadersAt(feed, old(at), 0, 0);
              if end.Ok? then r.Ok? && at == end.value else r == Err(end.error)
      ensures old(at) <= at <= old(at) + BLOCK + LINE + 1
    {
      hide LineAt, Trim;
      var headerBlockBytes: nat, headerCount: nat := 0, 0;
      while true
        invariant headerCount <= COUNT && headerBlockBytes <= BLOCK
        invariant at == old(at) + headerBlockBytes
        invariant HeadersAt(feed, old(at), 0, 0) == HeadersAt(feed, at, headerCount, headerBlockBytes)
        decreases COUNT - headerCount
      {
        var lineAt := at;
        var line := ReadBoundedLine();
        if line.Err? {
          return Err(HeaderError(line.error));
        }
        if Trim(line.value) == [] {
          return Ok(());
        }
        headerCount := headerCount + 1;
        if headerCount > COUNT {
          return Err(HeaderTooLarge(Count));
        }
        headerBlockBytes := headerBlockBytes + (at - lineAt);
        if headerBlockBytes > BLOCK {
          return Err(HeaderTooLarge(Block));
        }
      }
    }

    /** Reads one reply. Whatever the stream, no more than two lines, the header block and the body are consumed. */
    method ReadHttpBody() returns (r: Result<seq<byte>, Error>)
      modifies this
      ensures r == Reply(feed, old(at))
      ensures old(at) <= at <= old(at) + 2 * 4097 + 16 * 1024 + 8 * 1024 * 1024 + 1
    {
      var statusLine := ReadBoundedLine();
      if statusLine.Err? {
        return Err(StatusError(statusLine.error));
      }
      var code :- StatusCode(statusLine.value);
      var _ :- ReadHeaders();
      var body, fault := ReadToEnd(BODY + 1);
      if fault {
        return Err(BadResponse);
      }
      if |body| > BODY {
        return Err(ResponseTooLarge);
      }
      if !(200 <= code < 300) {
        return Err(HttpRefused(code));
      }
      return Ok(body);
    }
  }

  // ---------------------------------------------------------------- what is accepted

  /** From `at` on, the stream is `text` and then ends. */
  ghost predicate Delivers(feed: Feed, at: nat, text: seq<byte>)
    decreases |text|
  {
    if text == [] then feed(at) == Eof else feed(at) == Byte(text[0]) && Delivers(feed, at + 1, text[1..])
  }

  /** From `at` on, the stream starts with `raw`. */
  ghost predicate Begins(feed: Feed, at: nat, raw: seq<byte>)
    decreases |raw|
  {
    raw == [] || (feed(at) == Byte(raw[0]) && Begins(feed, at + 1, raw[1..]))
  }

  /** A reply cut into its status line, its header lines, the line that ends them and the body. */
  datatype Parts = Parts(status: seq<byte>, headers: seq<seq<byte>>, blank: seq<byte>, body: seq<byte>)

  function Flat(lines: seq<seq<byte>>): seq<byte> {
    if lines == [] then [] else lines[0] + Flat(lines[1..])
  }

  function Whole(p: Parts): seq<byte> {
    p.status + (Flat(p.headers) + (p.blank + p.body))
  }

  /** No newline but at the very end. */
  predicate OneLine(raw: seq<byte>) {
    |raw| <= 1 || (raw[0] != 10 && OneLine(raw[1..]))
  }

  /** One readable line within the limit; only the end of the stream may stand in for its newline. */
  predicate IsLine(raw: seq<byte>, rest: seq<byte>) {
    |raw| <= 4096 && OneLine(raw) && Decode(raw).Some? && (Terminated(raw) || rest == [])
  }

  predicate IsBlank(raw: seq<byte>) {
    Decode(raw).Some? && Blank(Decode(raw).value)
  }

  predicate AreHeaders(headers: seq<seq<byte>>, rest: seq<byte>) {
    headers == [] ||
    (IsLine(headers[0], Flat(headers[1..]) + rest) && !IsBlank(headers[0]) && AreHeaders(headers[1..], rest))
  }

  /** Where the first two words of a status line start and end. */
  datatype Cuts = Cuts(first: nat, firstEnd: nat, second: nat, secondEnd: nat)

  predicate BlankBetween(line: string, lo: nat, hi: nat)
    requires lo <= hi <= |line|
  {
    forall i :: lo <= i < hi ==> IsWhitespace(line[i])
  }

  predicate SolidBetween(line: string, lo: nat, hi: nat)
    requires lo <= hi <= |line|
  {
    forall i :: lo <= i < hi ==> !IsWhitespace(line[i])
  }

  /** The line is white space or none, a word, some white space, a word, and nothing more of that word. */
  predicate AreWords(line: string, c: Cuts) {
    && c.first < c.firstEnd < c.second < c.secondEnd <= |line|
    && BlankBetween(line, 0, c.first) && SolidBetween(line, c.first, c.firstEnd)
    && BlankBetween(line, c.firstEnd, c.second) && SolidBetween(line, c.second, c.secondEnd)
    && (c.secondEnd == |line| || IsWhitespace(line[c.secondEnd]))
  }

  /** The second word of the line is `code` below 2^16: digits, with a plus sign before them or none. */
  ghost predicate CarriesCode(line: string, code: nat) {
    exists c, digits ::
      && AreWords(line, c)
      && (line[c.second..c.secondEnd] == digits || line[c.second..c.secondEnd] == "+" + digits)
      && digits != [] && AllDigits(digits) && Value(digits) == code < 65536
  }

  /** The reply is in bounds, line by line and in total, and its status line carries `code`. */
  ghost predicate InBounds(p: Parts, code: nat) {
    && IsLine(p.status, Flat(p.headers) + (p.blank + p.body))
    && AreHeaders(p.headers, p.blank + p.body)
    && IsLine(p.blank, p.body) && IsBlank(p.blank)
    && |p.headers| <= 32 && |Flat(p.headers)| <= 16 * 1024 && |p.body| <= 8 * 1024 * 1024
    && CarriesCode(Decode(p.status).value, code)
  }

  ghost predicate IsReply(feed: Feed, at: nat, p: Parts, code: nat) {
    Delivers(feed, at, Whole(p)) && InBounds(p, code)
  }

  lemma {:induction false} WordExactly(s: string)
    ensures Word(s) <= s && SolidBetween(s, 0, |Word(s)|)
    ensures |Word(s)| == |s| || IsWhitespace(s[|Word(s)|])
  {
    hide IsWhitespace;
    if s != [] && !IsWhitespace(s[0]) {
      WordExactly(s[1..]);
      var w := Word(s[1..]);
      assert s == [s[0]] + s[1..];
      assert forall i :: 1 <= i < |s| ==> s[i] == s[1..][i - 1];
    }
  }

  /** The first word of `line` from `at` on, past the white space before it. */
  lemma WordAfter(line: string, at: nat) returns (lo: nat, hi: nat)
    requires at <= |line|
    ensures at <= lo <= hi <= |line| && BlankBetween(line, at, lo) && SolidBetween(line, lo, hi)
    ensures hi == |line| || IsWhitespace(line[hi])
    ensures TrimStart(line[at..]) == line[lo..] && Word(line[lo..]) == line[lo..hi]
    ensures lo == hi <==> lo == |line|
  {
    hide IsWhitespace, Word, TrimStart;
    var before := TrimStartExactly(line[at..]);
    lo := at + |before|;
    assert forall i :: at <= i < lo ==> line[i] == line[at..][i - at] == before[i - at];
    assert TrimStart(line[at..]) == line[at..][|before|..] == line[lo..];
    WordExactly(line[lo..]);
    hi := lo + |Word(line[lo..])|;
    assert forall i :: lo <= i < |line| ==> line[i] == line[lo..][i - lo];
    assert lo < |line| ==> line[lo] == line[lo..][0];
  }

  /** The words a line is cut into are its own. */
  lemma WordsUnique(line: string, c: Cuts, d: Cuts)
    requires AreWords(line, c) && AreWords(line, d)
    ensures c == d
  {
    hide IsWhitespace;
    assert !IsWhitespace(line[c.first]) && !IsWhitespace(line[d.first]);
    assert c.first == d.first;
    assert IsWhitespace(line[c.firstEnd]) && IsWhitespace(line[d.firstEnd]);
    assert c.firstEnd == d.firstEnd;
    assert !IsWhitespace(line[c.second]) && !IsWhitespace(line[d.second]);
    assert c.second == d.second;
  }

  /** What a status line with two words is read as, and one without. */
  lemma StatusWords(line: string) returns (c: Cuts)
    ensures AreWords(line, c) ==>
              var code := ParseUnsigned(line[c.second..c.secondEnd], 65536);
              StatusCode(line) == if code.Some? then Ok(code.value) else Err(BadResponse)
    ensures !AreWords(line, c) ==> StatusCode(line) == Err(BadResponse) && forall d :: !AreWords(line, d)
  {
    hide IsWhitespace, Word, TrimStart, ParseUnsigned;
    var a, b := WordAfter(line, 0);
    var e, f := WordAfter(line, b);
    c := Cuts(a, b, e, f);
    assert line[0..] == line && line[a..][|line[a..b]|..] == line[b..];
    forall d | AreWords(line, d) ensures AreWords(line, c) {
      assert !IsWhitespace(line[d.first]) && !IsWhitespace(line[d.second]) && IsWhitespace(line[d.firstEnd]);
      assert a < |line| && !IsWhitespace(line[a]) && a == d.first;
      assert b < |line| && IsWhitespace(line[b]) && b == d.firstEnd;
      assert e < |line| && !IsWhitespace(line[e]);
    }
  }

  /** The code a status line is read as is the one it carries, and a line that carries none is malformed. */
  lemma StatusExactly(line: string, code: nat)
    ensures StatusCode(line) == Ok(code) <==> CarriesCode(line, code)
    ensures StatusCode(line) == Err(BadResponse) <==> forall n: nat :: !CarriesCode(line, n)
  {
    hide StatusCode, ParseUnsigned, Value, IsWhitespace;
    var c := StatusWords(line);
    forall n: nat ensures StatusCode(line) == Ok(n) <==> CarriesCode(line, n) {
      if AreWords(line, c) {
        ParseUnsignedExactly(line[c.second..c.secondEnd], 65536, n);
        forall d | AreWords(line, d) ensures d == c {
          WordsUnique(line, c, d);
        }
      }
    }
    if StatusCode(line).Ok? {
      assert CarriesCode(line, StatusCode(line).value);
    }
  }

  /** Every status line a server writes reads back as its code, whatever the reason phrase. */
  lemma StatusReadsBack(code: nat, reason: string)
    requires code < 65536
    ensures StatusCode("HTTP/1.1 " + Numeral(code) + " " + reason + "\r\n") == Ok(code)
  {
    hide StatusCode, Numeral, Value, Word, TrimStart;
    var word := Numeral(code);
    var line := "HTTP/1.1 " + word + " " + reason + "\r\n";
    var c := Cuts(0, 8, 9, 9 + |word|);
    ValueOfNumeral(code);
    assert line[9..9 + |word|] == word;
    assert forall i :: 9 <= i < 9 + |word| ==> line[i] == word[i - 9];
    assert AreWords(line, c);
    StatusExactly(line, code);
  }

  lemma {:induction false} DeliversSplit(feed: Feed, at: nat, raw: seq<byte>, rest: seq<byte>)
    ensures Delivers(feed, at, raw + rest) <==> Begins(feed, at, raw) && Delivers(feed, at + |raw|, rest)
    decreases |raw|
  {
    if raw == [] {
      assert raw + rest == rest;
    } else {
      assert (raw + rest)[1..] == raw[1..] + rest;
      DeliversSplit(feed, at + 1, raw[1..], rest);
    }
  }

  lemma TerminatedTail(raw: seq<byte>)
    requires |raw| > 1
    ensures Terminated(raw[1..]) <==> Terminated(raw)
  {
  }

  /** A line the stream has is read as itself. */
  lemma {:induction false} LineIsRead(feed: Feed, at: nat, raw: seq<byte>, budget: nat)
    requires Begins(feed, at, raw) && |raw| <= budget && OneLine(raw)
    requires Terminated(raw) || |raw| == budget || feed(at + |raw|) == Eof
    ensures LineBytes(feed, at, budget) == raw && LineFault(feed, at, budget) == None
    decreases |raw|
  {
    if |raw| > 1 {
      TerminatedTail(raw);
      LineIsRead(feed, at + 1, raw[1..], budget - 1);
    } else if |raw| == 1 && raw[0] != NEWLINE {
      LineIsRead(feed, at + 1, [], budget - 1);
    }
  }

  /**
   A line that runs past the limit is refused as too long just when the octets read so far are whole
   characters; a limit that falls inside a character makes it an unreadable line instead.
   */
  lemma OverlongLine(feed: Feed, at: nat, raw: seq<byte>)
    requires Begins(feed, at, raw) && |raw| == LINE + 1 && OneLine(raw)
    ensures LineAt(feed, at) == Err(if Decode(raw).Some? then TooLong else NotUtf8)
  {
    LineIsRead(feed, at, raw, LINE + 1);
  }

  lemma {:induction false} BeginsSooner(feed: Feed, at: nat, raw: seq<byte>, n: nat)
    requires Begins(feed, at, raw) && n <= |raw|
    ensures Begins(feed, at, raw[..n])
    decreases n
  {
    if n > 0 {
      BeginsSooner(feed, at + 1, raw[1..], n - 1);
      assert raw[..n][1..] == raw[1..][..n - 1];
    }
  }

  /**
   Of a readable line past the limit, exactly: it is too long when one of its characters ends just where the
   reading stops, and unreadable when none does.
   */
  lemma OverlongText(feed: Feed, at: nat, text: string)
    requires Begins(feed, at, Encode(text)) && |Encode(text)| > LINE && OneLine(Encode(text)[..LINE + 1])
    ensures LineAt(feed, at) == Err(TooLong) <==> exists n :: 0 <= n <= |text| && |Encode(text[..n])| == LINE + 1
    ensures LineAt(feed, at) == Err(TooLong) || LineAt(feed, at) == Err(NotUtf8)
  {
    hide LineAt, Decode, Encode, OneLine;
    var raw := Encode(text)[..LINE + 1];
    BeginsSooner(feed, at, Encode(text), LINE + 1);
    OverlongLine(feed, at, raw);
    if Decode(raw).Some? {
      var t := Decode(raw).value;
      EncodeOfDecode(raw, t);
      EncodedPrefix(t, text);
      assert text[..|t|] == t;
    }
    forall n | 0 <= n <= |text| && |Encode(text[..n])| == LINE + 1 ensures Decode(raw).Some? {
      EncodeAppend(text[..n], text[n..]);
      assert text[..n] + text[n..] == text;
      DecodeOfEncode(text[..n]);
      assert raw == Encode(text[..n]);
    }
  }

  /** `count` plain characters, one of two octets, and the end of the line. */
  function AccentedLine(count: nat): string {
    seq(count, _ => 'a') + ['\U{E9}', '\n']
  }

  lemma AccentOctets()
    ensures Encode(['\U{E9}']) == [0xC3, 0xA9] && Encode(['\U{E9}', '\n']) == [0xC3, 0xA9, 0x0A]
  {
  }

  lemma AccentedOctets(count: nat)
    ensures Encode(AccentedLine(count)) == seq(count, _ => 0x61) + [0xC3, 0xA9, 0x0A]
  {
    hide Encode;
    PlainOctets(count);
    EncodeAppend(seq(count, _ => 'a'), ['\U{E9}', '\n']);
    AccentOctets();
  }

  /** No character of the line ends where its accent's second octet would. */
  lemma AccentStraddles(count: nat, n: nat)
    requires n <= |AccentedLine(count)|
    ensures |Encode(AccentedLine(count)[..n])| == if n <= count then n else n + 1
  {
    hide Encode;
    var text := AccentedLine(count);
    AccentOctets();
    if n <= count {
      PlainOctets(n);
      assert text[..n] == seq(n, _ => 'a');
    } else {
      PlainOctets(count);
      var tail: string := if n == count + 1 then ['\U{E9}'] else ['\U{E9}', '\n'];
      assert text[..n] == seq(count, _ => 'a') + tail;
      EncodeAppend(seq(count, _ => 'a'), tail);
    }
  }

  lemma {:induction false} PlainOctets(count: nat)
    ensures Encode(seq(count, _ => 'a')) == seq(count, _ => 0x61)
  {
    var plain: string := seq(count, _ => 'a');
    if count > 0 {
      assert plain[1..] == seq(count - 1, _ => 'a');
      PlainOctets(count - 1);
    }
  }

  lemma {:induction false} PlainIsOneLine(count: nat, last: byte)
    ensures OneLine(seq(count, _ => 0x61) + [last])
  {
    var raw: seq<byte> := seq(count, _ => 0x61) + [last];
    if count > 0 {
      assert raw[1..] == seq(count - 1, _ => 0x61) + [last];
      PlainIsOneLine(count - 1, last);
    }
  }

  /** A line of readable text whose last character straddles the limit: over it, and refused as unreadable. */
  lemma StraddlingLineIsUnreadable(feed: Feed, at: nat)
    requires Begins(feed, at, Encode(AccentedLine(LINE)))
    ensures Decode(Encode(AccentedLine(LINE))) == Some(AccentedLine(LINE)) && |Encode(AccentedLine(LINE))| > LINE
    ensures LineAt(feed, at) == Err(NotUtf8)
  {
    hide LineAt, Decode, Encode, OneLine;
    var text := AccentedLine(LINE);
    AccentedOctets(LINE);
    DecodeOfEncode(text);
    assert Encode(text)[..LINE + 1] == seq(LINE, _ => 0x61) + [0xC3];
    PlainIsOneLine(LINE, 0xC3);
    forall n | 0 <= n <= |text| ensures |Encode(text[..n])| != LINE + 1 {
      AccentStraddles(LINE, n);
    }
    OverlongText(feed, at, text);
  }

  /** What was read as a line is one, and is what the stream had there. */
  lemma {:induction false} LineWasDelivered(feed: Feed, at: nat, budget: nat)
    requires LineFault(feed, at, budget) == None
    ensures var raw := LineBytes(feed, at, budget);
            && OneLine(raw) && Begins(feed, at, raw)
            && (Terminated(raw) || |raw| == budget || feed(at + |raw|) == Eof)
    decreases budget
  {
    hide LineBytes, LineFault;
    if budget == 0 {
      LineIsFull(feed, at);
    } else {
      NextInLine(feed, at, budget);
      if feed(at).Byte? && feed(at).b != NEWLINE {
        LineWasDelivered(feed, at + 1, budget - 1);
        LineGrows(feed, at, LineBytes(feed, at + 1, budget - 1));
      } else if feed(at).Byte? {
        LineEnds(feed, at);
      }
    }
  }

  lemma LineGrows(feed: Feed, at: nat, tail: seq<byte>)
    requires feed(at).Byte? && feed(at).b != NEWLINE && OneLine(tail) && Begins(feed, at + 1, tail)
    ensures var raw := [feed(at).b] + tail;
            OneLine(raw) && Begins(feed, at, raw) && (Terminated(raw) <==> Terminated(tail))
  {
    var raw := [feed(at).b] + tail;
    assert raw[1..] == tail;
    if tail != [] {
      TerminatedTail(raw);
    }
  }

  lemma LineEnds(feed: Feed, at: nat)
    requires feed(at) == Byte(NEWLINE)
    ensures OneLine([NEWLINE]) && Begins(feed, at, [NEWLINE]) && Terminated([NEWLINE])
  {
  }

  /** Reading a line gives `raw` exactly when the stream has it there and it is a line. */
  lemma LineCollected(feed: Feed, at: nat, line: string, next: nat, rest: seq<byte>) returns (raw: seq<byte>)
    requires LineAt(feed, at) == Ok((line, next)) && Delivers(feed, next, rest)
    ensures next == at + |raw| && Decode(raw) == Some(line) && IsLine(raw, rest)
    ensures Delivers(feed, at, raw + rest)
  {
    hide LineBytes, LineFault, Decode, OneLine, Begins;
    raw := LineBytes(feed, at, LINE + 1);
    LineWasDelivered(feed, at, LINE + 1);
    DeliversSplit(feed, at, raw, rest);
  }

  lemma LineGiven(feed: Feed, at: nat, raw: seq<byte>, rest: seq<byte>)
    requires Delivers(feed, at, raw + rest) && IsLine(raw, rest)
    ensures LineAt(feed, at) == Ok((Decode(raw).value, at + |raw|))
    ensures Delivers(feed, at + |raw|, rest)
  {
    DeliversSplit(feed, at, raw, rest);
    LineIsRead(feed, at, raw, LINE + 1);
  }

  lemma HeaderGiven(feed: Feed, at: nat, headers: seq<seq<byte>>, rest: seq<byte>) returns (line: string)
    requires headers != [] && Delivers(feed, at, Flat(headers) + rest) && AreHeaders(headers, rest)
    ensures LineAt(feed, at) == Ok((line, at + |headers[0]|)) && Trim(line) != []
    ensures Delivers(feed, at + |headers[0]|, Flat(headers[1..]) + rest) && AreHeaders(headers[1..], rest)
  {
    hide Decode;
    assert Flat(headers) + rest == headers[0] + (Flat(headers[1..]) + rest);
    LineGiven(feed, at, headers[0], Flat(headers[1..]) + rest);
    line := Decode(headers[0]).value;
    TrimEmptyIffBlank(line);
  }

  lemma BlankGiven(feed: Feed, at: nat, blank: seq<byte>, body: seq<byte>, count: nat, block: nat)
    requires Delivers(feed, at, blank + body) && IsLine(blank, body) && IsBlank(blank) && count <= COUNT
    ensures HeadersAt(feed, at, count, block) == Ok(at + |blank|) && Delivers(feed, at + |blank|, body)
  {
    LineGiven(feed, at, blank, body);
    TrimEmptyIffBlank(Decode(blank).value);
  }

  lemma HeaderCounted(feed: Feed, at: nat, line: string, next: nat, count: nat, block: nat)
    requires LineAt(feed, at) == Ok((line, next)) && next >= at && Trim(line) != []
    requires count < COUNT && block + (next - at) <= BLOCK
    ensures HeadersAt(feed, at, count, block) == HeadersAt(feed, next, count + 1, block + (next - at))
  {
  }

  lemma {:induction false} HeadersGiven(
    feed: Feed, at: nat, headers: seq<seq<byte>>, blank: seq<byte>, body: seq<byte>, count: nat, block: nat)
    requires Delivers(feed, at, Flat(headers) + (blank + body))
    requires AreHeaders(headers, blank + body) && IsLine(blank, body) && IsBlank(blank)
    requires count + |headers| <= COUNT && block + |Flat(headers)| <= BLOCK
    ensures HeadersAt(feed, at, count, block) == Ok(at + |Flat(headers)| + |blank|)
    ensures Delivers(feed, at + |Flat(headers)| + |blank|, body)
    decreases |headers|
  {
    hide Decode, LineAt, IsLine, IsBlank, AreHeaders, HeadersAt, Delivers, Trim;
    if headers == [] {
      assert Flat(headers) + (blank + body) == blank + body;
      BlankGiven(feed, at, blank, body, count, block);
    } else {
      var raw, more := headers[0], headers[1..];
      var line := HeaderGiven(feed, at, headers, blank + body);
      HeaderCounted(feed, at, line, at + |raw|, count, block);
      HeadersGiven(feed, at + |raw|, more, blank, body, count + 1, block + |raw|);
    }
  }

  lemma LineAdvances(feed: Feed, at: nat)
    ensures LineAt(feed, at).Ok? ==> at <= LineAt(feed, at).value.1
  {
    hide Decode, LineBytes, LineFault;
  }

  lemma BlankIsTrimmed(raw: seq<byte>, line: string)
    requires Decode(raw) == Some(line)
    ensures IsBlank(raw) <==> Trim(line) == []
  {
    hide Decode;
    TrimEmptyIffBlank(line);
  }

  lemma OneMoreHeader(raw: seq<byte>, more: seq<seq<byte>>, rest: seq<byte>)
    requires IsLine(raw, Flat(more) + rest) && !IsBlank(raw) && AreHeaders(more, rest)
    ensures var headers := [raw] + more;
            && AreHeaders(headers, rest) && |Flat(headers)| == |raw| + |Flat(more)|
            && Flat(headers) + rest == raw + (Flat(more) + rest)
  {
    hide IsLine, IsBlank;
    var headers := [raw] + more;
    assert headers[1..] == more && Flat(headers) == raw + Flat(more);
  }

  lemma {:induction false} HeadersCollected(feed: Feed, at: nat, count: nat, block: nat, end: nat, body: seq<byte>)
    returns (headers: seq<seq<byte>>, blank: seq<byte>)
    requires count <= COUNT && block <= BLOCK
    requires HeadersAt(feed, at, count, block) == Ok(end) && Delivers(feed, end, body)
    ensures Delivers(feed, at, Flat(headers) + (blank + body))
    ensures AreHeaders(headers, blank + body) && IsLine(blank, body) && IsBlank(blank)
    ensures count + |headers| <= COUNT && block + |Flat(headers)| <= BLOCK
    decreases COUNT - count
  {
    hide Decode, LineAt, IsLine, IsBlank, Trim, Delivers;
    var (line, next) := LineAt(feed, at).value;
    LineAdvances(feed, at);
    if Trim(line) == [] {
      blank := LineCollected(feed, at, line, next, body);
      BlankIsTrimmed(blank, line);
      headers := [];
      assert Flat(headers) + (blank + body) == blank + body;
    } else {
      var more;
      more, blank := HeadersCollected(feed, next, count + 1, block + (next - at), end, body);
      var raw := LineCollected(feed, at, line, next, Flat(more) + (blank + body));
      BlankIsTrimmed(raw, line);
      OneMoreHeader(raw, more, blank + body);
      headers := [raw] + more;
    }
  }

  lemma {:induction false} BodyIsRead(feed: Feed, at: nat, body: seq<byte>, budget: nat)
    requires Delivers(feed, at, body) && |body| < budget
    ensures BodyBytes(feed, at, budget) == body && !BodyFault(feed, at, budget)
    decreases |body|
  {
    if body != [] {
      BodyIsRead(feed, at + 1, body[1..], budget - 1);
    }
  }

  lemma {:induction false} BodyWasDelivered(feed: Feed, at: nat, budget: nat)
    requires !BodyFault(feed, at, budget) && |BodyBytes(feed, at, budget)| < budget
    ensures Delivers(feed, at, BodyBytes(feed, at, budget))
    decreases budget
  {
    if feed(at).Byte? {
      BodyWasDelivered(feed, at + 1, budget - 1);
      assert BodyBytes(feed, at, budget)[1..] == BodyBytes(feed, at + 1, budget - 1);
    }
  }

  lemma StatusIsRead(p: Parts, code: nat)
    requires InBounds(p, code)
    ensures Decode(p.status).Some? && StatusCode(Decode(p.status).value) == Ok(code)
  {
    hide StatusCode, CarriesCode, Decode;
    StatusExactly(Decode(p.status).value, code);
  }

  lemma ReplyGiven(feed: Feed, at: nat, p: Parts, code: nat)
    requires IsReply(feed, at, p, code)
    ensures Received(feed, at) == Ok((code, p.body))
  {
    hide Decode, StatusCode, CarriesCode, LineAt, HeadersAt, BodyBytes, BodyFault, IsLine, AreHeaders;
    StatusIsRead(p, code);
    LineGiven(feed, at, p.status, Flat(p.headers) + (p.blank + p.body));
    HeadersGiven(feed, at + |p.status|, p.headers, p.blank, p.body, 0, 0);
    BodyIsRead(feed, at + |p.status| + |Flat(p.headers)| + |p.blank|, p.body, BODY + 1);
  }

  lemma ReplyCollected(feed: Feed, at: nat, code: nat, body: seq<byte>) returns (p: Parts)
    requires Received(feed, at) == Ok((code, body))
    ensures IsReply(feed, at, p, code) && p.body == body
  {
    hide CarriesCode;
    var (line, headersAt) := LineAt(feed, at).value;
    StatusExactly(line, code);
    var bodyAt := HeadersAt(feed, headersAt, 0, 0).value;
    BodyWasDelivered(feed, bodyAt, BODY + 1);
    var headers, blank := HeadersCollected(feed, headersAt, 0, 0, bodyAt, body);
    var status := LineCollected(feed, at, line, headersAt, Flat(headers) + (blank + body));
    p := Parts(status, headers, blank, body);
  }

  /**
   The exact acceptance condition. A code and body are received just when the whole stream is a status
   line with that code, header lines, a line of white space and that body, each line readable and within
   its limit, the header lines within their count and their total, and the body within its cap.
   */
  lemma ReceivedExactly(feed: Feed, at: nat, code: nat, body: seq<byte>)
    ensures Received(feed, at) == Ok((code, body)) <==> exists p :: IsReply(feed, at, p, code) && p.body == body
  {
    if Received(feed, at) == Ok((code, body)) {
      var p := ReplyCollected(feed, at, code, body);
      assert IsReply(feed, at, p, code);
    }
    if p :| IsReply(feed, at, p, code) && p.body == body {
      ReplyGiven(feed, at, p, code);
    }
  }

  /**
   A body is returned just for an in-bounds reply whose code is 2xx; an in-bounds reply with any other
   code is refused with that code, and nothing else is refused so.
   */
  lemma ReplyExactly(feed: Feed, at: nat, code: nat, body: seq<byte>)
    ensures Reply(feed, at) == Ok(body) <==> exists p, c: nat :: IsReply(feed, at, p, c) && p.body == body && 200 <= c < 300
    ensures Reply(feed, at) == Err(HttpRefused(code)) <==> !(200 <= code < 300) && exists p :: IsReply(feed, at, p, code)
  {
    var r := Received(feed, at);
    if r.Ok? {
      ReceivedExactly(feed, at, r.value.0, r.value.1);
    } else {
      OtherRefusals(feed, at);
    }
    forall p, c: nat | IsReply(feed, at, p, c) ensures r == Ok((c, p.body)) {
      ReplyGiven(feed, at, p, c);
    }
  }

  lemma OtherRefusals(feed: Feed, at: nat)
    requires Received(feed, at).Err?
    ensures !Received(feed, at).error.HttpRefused?
  {
    if LineAt(feed, at).Ok? {
      HeaderRefusals(feed, LineAt(feed, at).value.1, 0, 0);
    }
  }

  lemma {:induction false} HeaderRefusals(feed: Feed, at: nat, count: nat, block: nat)
    requires count <= COUNT
    ensures var r := HeadersAt(feed, at, count, block); r.Err? ==> !r.error.HttpRefused? && !r.error.ResponseTooLarge?
    decreases COUNT - count
  {
    hide LineAt, Trim;
    if LineAt(feed, at).Ok? && count < COUNT {
      LineAdvances(feed, at);
      var (line, next) := LineAt(feed, at).value;
      HeaderRefusals(feed, next, count + 1, block + (next - at));
    }
  }

  // ---------------------------------------------------------------- what is refused

  /** The octets a bounded line read takes: up to a newline, or one past the limit, or until none comes. */
  ghost predicate IsReading(feed: Feed, at: nat, raw: seq<byte>) {
    && Begins(feed, at, raw) && OneLine(raw) && |raw| <= 4097
    && (Terminated(raw) || |raw| == 4097 || !feed(at + |raw|).Byte?)
  }

  lemma {:induction false} ReadingIsBytes(feed: Feed, at: nat, raw: seq<byte>, budget: nat)
    requires Begins(feed, at, raw) && OneLine(raw) && |raw| <= budget
    requires Terminated(raw) || |raw| == budget || !feed(at + |raw|).Byte?
    ensures LineBytes(feed, at, budget) == raw
    ensures LineFault(feed, at, budget)
         == if Terminated(raw) || |raw| == budget || feed(at + |raw|).Eof? then None else Some(feed(at + |raw|).timedOut)
    decreases |raw|
  {
    hide LineBytes, LineFault;
    if budget == 0 {
      LineIsFull(feed, at);
    } else {
      NextInLine(feed, at, budget);
      if |raw| > 1 {
        TerminatedTail(raw);
        ReadingIsBytes(feed, at + 1, raw[1..], budget - 1);
      } else if |raw| == 1 && raw[0] != NEWLINE {
        ReadingIsBytes(feed, at + 1, [], budget - 1);
      }
    }
  }

  /** What a line is read as, told from the octets taken: a socket error first, then unreadable text, then its length. */
  lemma LineExactly(feed: Feed, at: nat, raw: seq<byte>)
    requires IsReading(feed, at, raw)
    ensures LineAt(feed, at)
         == if |raw| <= 4096 && !Terminated(raw) && feed(at + |raw|).Fault? then Err(Io(feed(at + |raw|).timedOut))
            else if Decode(raw).None? then Err(NotUtf8)
            else if |raw| == 4097 then Err(TooLong)
            else Ok((Decode(raw).value, at + |raw|))
  {
    hide LineBytes, LineFault, OneLine, Begins, Decode;
    ReadingIsBytes(feed, at, raw, 4097);
  }

  /** There is always one such run of octets. */
  lemma {:induction false} ReadingOf(feed: Feed, at: nat, budget: nat) returns (raw: seq<byte>)
    ensures Begins(feed, at, raw) && OneLine(raw) && |raw| <= budget
    ensures Terminated(raw) || |raw| == budget || !feed(at + |raw|).Byte?
    decreases budget
  {
    if budget == 0 || !feed(at).Byte? {
      raw := [];
    } else if feed(at).b == NEWLINE {
      raw := [NEWLINE];
      LineEnds(feed, at);
    } else {
      var tail := ReadingOf(feed, at + 1, budget - 1);
      LineGrows(feed, at, tail);
      raw := [feed(at).b] + tail;
    }
  }

  lemma ReadingExists(feed: Feed, at: nat) returns (raw: seq<byte>)
    ensures IsReading(feed, at, raw)
  {
    raw := ReadingOf(feed, at, 4097);
  }

  /** From `at` on, `n` lines are read, none of them blank, and the next one starts at `mid`. */
  ghost predicate Walked(feed: Feed, at: nat, n: nat, mid: nat)
    decreases n
  {
    if n == 0 then mid == at
    else
      && LineAt(feed, at).Ok? && !Blank(LineAt(feed, at).value.0)
      && Walked(feed, LineAt(feed, at).value.1, n - 1, mid)
  }

  /** Headers are read in bounds up to the line at `mid`, and that line is the last one looked at. */
  ghost predicate StopsAt(feed: Feed, at: nat, n: nat, mid: nat) {
    && Walked(feed, at, n, mid) && n <= 32 && mid - at <= 16384
    && (|| LineAt(feed, mid).Err?
        || Blank(LineAt(feed, mid).value.0)
        || n == 32
        || LineAt(feed, mid).value.1 - at > 16384)
  }

  lemma {:induction false} WalkForward(feed: Feed, at: nat, n: nat, mid: nat)
    requires Walked(feed, at, n, mid)
    ensures at <= mid
    decreases n
  {
    hide LineAt, Blank;
    if n > 0 {
      LineAdvances(feed, at);
      WalkForward(feed, LineAt(feed, at).value.1, n - 1, mid);
    }
  }

  lemma {:induction false} HeadersFollow(feed: Feed, at: nat, count: nat, block: nat, n: nat, mid: nat)
    requires Walked(feed, at, n, mid) && count + n <= COUNT && block + (mid - at) <= BLOCK
    ensures at <= mid && HeadersAt(feed, at, count, block) == HeadersAt(feed, mid, count + n, block + (mid - at))
    decreases n
  {
    hide LineAt, Trim, Blank, HeadersAt;
    WalkForward(feed, at, n, mid);
    if n > 0 {
      var (line, next) := LineAt(feed, at).value;
      LineAdvances(feed, at);
      WalkForward(feed, next, n - 1, mid);
      TrimEmptyIffBlank(line);
      HeaderCounted(feed, at, line, next, count, block);
      HeadersFollow(feed, next, count + 1, block + (next - at), n - 1, mid);
    }
  }

  /** How a header block ends, or what it is refused for, told from the line it stops at. */
  lemma HeadersExactly(feed: Feed, at: nat, n: nat, mid: nat)
    requires StopsAt(feed, at, n, mid)
    ensures HeadersAt(feed, at, 0, 0)
         == match LineAt(feed, mid)
            case Err(TooLong) => Err(HeaderTooLarge(Line))
            case Err(_) => Err(BadResponse)
            case Ok((line, next)) => if Blank(line) then Ok(next) else if n == 32 then Err(HeaderTooLarge(Count)) else Err(HeaderTooLarge(Block))
  {
    HeadersFollow(feed, at, 0, 0, n, mid);
    hide LineAt, Trim, Blank, Walked;
    if LineAt(feed, mid).Ok? {
      TrimEmptyIffBlank(LineAt(feed, mid).value.0);
      LineAdvances(feed, mid);
    }
  }

  /** Every header block stops somewhere. */
  lemma HeadersStop(feed: Feed, at: nat) returns (n: nat, mid: nat)
    ensures StopsAt(feed, at, n, mid)
  {
    hide LineAt, Blank;
    n, mid := 0, at;
    while !StopsAt(feed, at, n, mid)
      invariant n <= 32 && at <= mid && mid - at <= 16384 && Walked(feed, at, n, mid)
      decreases 32 - n
    {
      LineAdvances(feed, mid);
      WalkOn(feed, at, n, mid);
      n, mid := n + 1, LineAt(feed, mid).value.1;
    }
  }

  lemma {:induction false} WalkOn(feed: Feed, at: nat, n: nat, mid: nat)
    requires Walked(feed, at, n, mid) && LineAt(feed, mid).Ok? && !Blank(LineAt(feed, mid).value.0)
    ensures Walked(feed, at, n + 1, LineAt(feed, mid).value.1)
    decreases n
  {
    hide LineAt, Blank;
    if n > 0 {
      WalkOn(feed, LineAt(feed, at).value.1, n - 1, mid);
    } else {
      assert Walked(feed, LineAt(feed, mid).value.1, 0, LineAt(feed, mid).value.1);
    }
  }

  /** The `n` octets from `at` on come, and the next does not, or one too many have. */
  ghost predicate BodyRuns(feed: Feed, at: nat, n: nat) {
    && (forall i :: at <= i < at + n ==> feed(i).Byte?)
    && n <= 8 * 1024 * 1024 + 1 && (n == 8 * 1024 * 1024 + 1 || !feed(at + n).Byte?)
  }

  lemma {:induction false} BodyRead(feed: Feed, at: nat, n: nat, budget: nat)
    requires forall i :: at <= i < at + n ==> feed(i).Byte?
    requires n <= budget && (n == budget || !feed(at + n).Byte?)
    ensures |BodyBytes(feed, at, budget)| == n && (BodyFault(feed, at, budget) <==> n < budget && feed(at + n).Fault?)
    decreases n
  {
    if n > 0 {
      BodyRead(feed, at + 1, n - 1, budget - 1);
    }
  }

  /** A status line that cannot be read: a stalled node, a lost link, or a line too long. */
  lemma StatusRefused(feed: Feed, at: nat)
    requires LineAt(feed, at).Err?
    ensures Reply(feed, at)
         == match LineAt(feed, at).error
            case Io(true) => Err(TimedOut)
            case Io(false) => Err(LinkLost)
            case NotUtf8 => Err(LinkLost)
            case TooLong => Err(HeaderTooLarge(Line))
  {
    hide LineAt;
  }

  /** A status line without a code is malformed, whatever follows it. */
  lemma CodeRefused(feed: Feed, at: nat)
    requires LineAt(feed, at).Ok? && forall code: nat :: !CarriesCode(LineAt(feed, at).value.0, code)
    ensures Reply(feed, at) == Err(BadResponse)
  {
    hide LineAt, StatusCode, CarriesCode;
    StatusExactly(LineAt(feed, at).value.0, 0);
  }

  /** After a status line with a code, a header block that does not end is refused for the reason it has. */
  lemma HeadersRefused(feed: Feed, at: nat, status: string, headersAt: nat, code: nat)
    requires LineAt(feed, at) == Ok((status, headersAt)) && CarriesCode(status, code)
    requires HeadersAt(feed, headersAt, 0, 0).Err?
    ensures Reply(feed, at) == Err(HeadersAt(feed, headersAt, 0, 0).error)
  {
    hide LineAt, StatusCode, CarriesCode, HeadersAt;
    StatusExactly(status, code);
  }

  /** And past the headers: size first, then a broken body, then the code, and the body only for a 2xx. */
  lemma BodyDecides(feed: Feed, at: nat, status: string, headersAt: nat, code: nat, bodyAt: nat, n: nat)
    requires LineAt(feed, at) == Ok((status, headersAt)) && CarriesCode(status, code)
    requires HeadersAt(feed, headersAt, 0, 0) == Ok(bodyAt) && BodyRuns(feed, bodyAt, n)
    ensures n > 8 * 1024 * 1024 ==> Reply(feed, at) == Err(ResponseTooLarge)
    ensures n <= 8 * 1024 * 1024 ==>
              && (feed(bodyAt + n).Fault? ==> Reply(feed, at) == Err(BadResponse))
              && (feed(bodyAt + n).Eof? && !(200 <= code < 300) ==> Reply(feed, at) == Err(HttpRefused(code)))
              && (feed(bodyAt + n).Eof? && 200 <= code < 300 ==> Reply(feed, at).Ok? && |Reply(feed, at).value| == n)
  {
    hide LineAt, StatusCode, CarriesCode, HeadersAt, BodyBytes, BodyFault;
    StatusExactly(status, code);
    BodyRead(feed, bodyAt, n, BODY + 1);
  }

  // ---------------------------------------------------------------- endless and oversized streams

  ghost predicate Agree(f: Feed, g: Feed, n: nat) {
    forall i :: 0 <= i < n ==> f(i) == g(i)
  }

  lemma {:induction false} LineAgrees(f: Feed, g: Feed, n: nat, at: nat, budget: nat)
    requires Agree(f, g, n) && at + budget <= n
    ensures LineBytes(f, at, budget) == LineBytes(g, at, budget) && LineFault(f, at, budget) == LineFault(g, at, budget)
    decreases budget
  {
    if budget > 0 {
      LineAgrees(f, g, n, at + 1, budget - 1);
    }
  }

  lemma {:induction false} BodyAgrees(f: Feed, g: Feed, n: nat, at: nat, budget: nat)
    requires Agree(f, g, n) && at + budget <= n
    ensures BodyBytes(f, at, budget) == BodyBytes(g, at, budget) && BodyFault(f, at, budget) == BodyFault(g, at, budget)
    decreases budget
  {
    if budget > 0 {
      BodyAgrees(f, g, n, at + 1, budget - 1);
    }
  }

  lemma LinesAgree(f: Feed, g: Feed, n: nat, at: nat)
    requires Agree(f, g, n) && at + LINE + 1 <= n
    ensures LineAt(f, at) == LineAt(g, at)
    ensures LineAt(f, at).Ok? ==> at <= LineAt(f, at).value.1 <= at + LINE
  {
    hide Decode, LineBytes, LineFault;
    LineAgrees(f, g, n, at, LINE + 1);
  }

  lemma {:induction false} HeadersAgree(f: Feed, g: Feed, n: nat, at: nat, count: nat, block: nat)
    requires count <= COUNT && block <= BLOCK
    requires Agree(f, g, n) && at + (BLOCK - block) + LINE + 1 <= n
    ensures HeadersAt(f, at, count, block) == HeadersAt(g, at, count, block)
    ensures HeadersAt(f, at, count, block).Ok? ==> HeadersAt(f, at, count, block).value <= at + (BLOCK - block) + LINE
    decreases COUNT - count
  {
    hide LineAt, Trim;
    LinesAgree(f, g, n, at);
    if LineAt(f, at).Ok? {
      var (line, next) := LineAt(f, at).value;
      if Trim(line) != [] && count + 1 <= COUNT && block + (next - at) <= BLOCK {
        HeadersAgree(f, g, n, next, count + 1, block + (next - at));
      }
    }
  }

  /**
   The first 8 413 187 reads decide. Two streams alike that far get one answer, so a stream that never
   ends is answered like any stream it begins as.
   */
  lemma PrefixDecides(f: Feed, g: Feed, at: nat)
    requires Agree(f, g, at + 8_413_187)
    ensures Reply(f, at) == Reply(g, at)
  {
    hide StatusCode, LineAt, HeadersAt, BodyBytes, BodyFault;
    LinesAgree(f, g, at + 8_413_187, at);
    if LineAt(f, at).Ok? {
      var headersAt := LineAt(f, at).value.1;
      HeadersAgree(f, g, at + 8_413_187, headersAt, 0, 0);
      if HeadersAt(f, headersAt, 0, 0).Ok? {
        BodyAgrees(f, g, at + 8_413_187, HeadersAt(f, headersAt, 0, 0).value, BODY + 1);
      }
    }
  }

  lemma {:induction false} BytesFillTheBudget(feed: Feed, at: nat, budget: nat)
    requires forall i :: at <= i < at + budget ==> feed(i).Byte?
    ensures |BodyBytes(feed, at, budget)| == budget && !BodyFault(feed, at, budget)
    decreases budget
  {
    if budget > 0 {
      BytesFillTheBudget(feed, at + 1, budget - 1);
    }
  }

  /** A body past the cap is refused for its size, whatever the status code and whether or not it ever ends. */
  lemma SizeOutranksTheCode(feed: Feed, at: nat, code: nat, headersAt: nat, bodyAt: nat, status: string)
    requires LineAt(feed, at) == Ok((status, headersAt)) && CarriesCode(status, code)
    requires HeadersAt(feed, headersAt, 0, 0) == Ok(bodyAt)
    requires forall i :: bodyAt <= i <= bodyAt + BODY ==> feed(i).Byte?
    ensures Reply(feed, at) == Err(ResponseTooLarge)
  {
    StatusExactly(status, code);
    BytesFillTheBudget(feed, bodyAt, BODY + 1);
  }
}
