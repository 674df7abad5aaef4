/**
 Opening a view from outside (crates/dig-app-core/src/activation.rs): the `dig-app:` URI gate, and the
 one-shot file a second launch leaves for the instance already running.
 */
module Activation {
  import opened Wrappers
  import opened Text
  import opened Utf8

  const SCHEME_PREFIX: string := "dig-app:"
  const MAX_HANDOFF_BYTES: nat := 64

  /** In nanoseconds. */
  const MAX_HANDOFF_AGE: nat := 60_000_000_000

  datatype Route = Deposit {

    function Token(): string {
      match this case Deposit => "deposit"
    }
  }

  const ROUTES: seq<Route> := [Deposit]

  function FirstNamed(routes: seq<Route>, token: string): (r: Option<Route>)
    ensures r.Some? ==> r.value in routes && EqIgnoreCase(token, r.value.Token())
    ensures r.None? ==> forall route :: route in routes ==> !EqIgnoreCase(token, route.Token())
  {
    if routes == [] then None
    else if EqIgnoreCase(token, routes[0].Token()) then Some(routes[0])
    else FirstNamed(routes[1..], token)
  }

  /** The allowlist both entry points pass through. */
  function FromToken(token: string): (r: Option<Route>)
    ensures r.Some? ==> EqIgnoreCase(token, r.value.Token())
    ensures forall route: Route :: EqIgnoreCase(token, route.Token()) ==> r == Some(route)
  {
    assert Deposit == ROUTES[0];
    assert forall route: Route :: EqIgnoreCase(token, route.Token()) ==> route.Deposit? && route in ROUTES;
    FirstNamed(ROUTES, token)
  }

  /** One token is on the list, in any case. */
  lemma AllowlistExactly(token: string, route: Route)
    ensures FromToken(token) == Some(route) <==> SameButForCase(token, "deposit") && route == Deposit
    ensures EqIgnoreCase(token, route.Token()) <==> SameButForCase(token, "deposit")
  {
    EqIgnoreCaseExactly(token, "deposit");
    hide EqIgnoreCase, SameButForCase;
  }

  // ---------------------------------------------------------------- the URI gate

  /** `str::get(..n)` and `str::get(n..)`: the text at a byte offset, if that is where a character starts. */
  function SplitAtByte(s: string, n: nat): Option<(string, string)> {
    if n == 0 then Some(("", s))
    else if s == [] then None
    else
      var width := |EncodeChar(s[0])|;
      if width > n then None
      else
        var (head, rest) :- SplitAtByte(s[1..], n - width);
        Some(([s[0]] + head, rest))
  }

  function StripPrefixIgnoreCase(s: string, prefix: string): Option<string> {
    var (head, rest) :- SplitAtByte(s, |Encode(prefix)|);
    if EqIgnoreCase(head, prefix) then Some(rest) else None
  }

  function WithoutSlashes(s: string): string {
    if "//" <= s then s[2..] else s
  }

  function WithoutFinalSlash(s: string): string {
    if s != [] && s[|s| - 1] == '/' then s[..|s| - 1] else s
  }

  /** The route a launch argument asks for. */
  function RouteOf(arg: string): Option<Route> {
    var rest :- StripPrefixIgnoreCase(arg, SCHEME_PREFIX);
    FromToken(WithoutFinalSlash(WithoutSlashes(rest)))
  }

  /** The first route named among the arguments. */
  function Requested(args: seq<string>): Option<Route> {
    if args == [] then None
    else if RouteOf(args[0]).Some? then RouteOf(args[0])
    else Requested(args[1..])
  }

  lemma {:induction false} SplitAtByteExact(s: string, n: nat)
    ensures SplitAtByte(s, n).Some? ==>
              var (head, rest) := SplitAtByte(s, n).value; s == head + rest && |Encode(head)| == n
  {
    if n > 0 && s != [] && |EncodeChar(s[0])| <= n {
      var m := n - |EncodeChar(s[0])|;
      SplitAtByteExact(s[1..], m);
      if SplitAtByte(s[1..], m).Some? {
        var (head, rest) := SplitAtByte(s[1..], m).value;
        EncodeCons(s[0], head);
        assert s == [s[0]] + s[1..];
      }
    }
  }

  lemma {:induction false} SplitAtByteOf(head: string, rest: string)
    ensures SplitAtByte(head + rest, |Encode(head)|) == Some((head, rest))
  {
    if head == [] {
      assert head + rest == rest;
    } else {
      EncodeCons(head[0], head[1..]);
      assert head == [head[0]] + head[1..];
      assert (head + rest)[1..] == head[1..] + rest;
      SplitAtByteOf(head[1..], rest);
    }
  }

  lemma RecasedAscii(s: string, t: string)
    requires EqIgnoreCase(s, t) && IsAscii(t)
    ensures IsAscii(s) && |Encode(s)| == |Encode(t)| == |s| == |t|
  {
    forall i | 0 <= i < |s| ensures s[i] as int < 128 {
      assert Upper(s)[i] == Upper(t)[i];
    }
    AsciiWidth(s);
    AsciiWidth(t);
  }

  /** A multi-byte character across the prefix's end, like anything else that is not the prefix, strips nothing. */
  lemma StripExact(s: string, prefix: string, rest: string)
    requires IsAscii(prefix)
    ensures StripPrefixIgnoreCase(s, prefix) == Some(rest) <==>
            exists head :: EqIgnoreCase(head, prefix) && s == head + rest
  {
    SplitAtByteExact(s, |Encode(prefix)|);
    forall head | EqIgnoreCase(head, prefix) && s == head + rest
      ensures StripPrefixIgnoreCase(s, prefix) == Some(rest)
    {
      RecasedAscii(head, prefix);
      SplitAtByteOf(head, rest);
    }
  }

  /** A scheme in any case, an optional double slash, a token in any case, and an optional slash after it. */
  ghost predicate Asks(arg: string, scheme: string, slashes: string, token: string, tail: string, route: Route) {
    && arg == scheme + (slashes + token + tail)
    && SameButForCase(scheme, "dig-app:") && SameButForCase(token, "deposit") && route == Deposit
    && (slashes == "" || slashes == "//") && (tail == "" || tail == "/")
  }

  lemma Decorated(slashes: string, token: string, tail: string)
    requires token != "" && token[0] != '/' && token[|token| - 1] != '/'
    requires (slashes == "" || slashes == "//") && (tail == "" || tail == "/")
    ensures WithoutFinalSlash(WithoutSlashes(slashes + token + tail)) == token
  {
    hide WithoutSlashes, WithoutFinalSlash;
    assert slashes + token + tail == slashes + (token + tail);
    SlashesDropped(slashes, token + tail);
    FinalSlashDropped(token, tail);
  }

  lemma SlashesDropped(slashes: string, bare: string)
    requires bare != "" && bare[0] != '/' && (slashes == "" || slashes == "//")
    ensures WithoutSlashes(slashes + bare) == bare
  {
    if slashes == "" {
      assert slashes + bare == bare;
    } else {
      assert (slashes + bare)[..2] == "//" && (slashes + bare)[2..] == bare;
    }
  }

  lemma FinalSlashDropped(token: string, tail: string)
    requires token != "" && token[|token| - 1] != '/' && (tail == "" || tail == "/")
    ensures WithoutFinalSlash(token + tail) == token
  {
    if tail == "" {
      assert token + tail == token;
    } else {
      assert (token + tail)[..|token|] == token;
    }
  }

  lemma Undecorated(rest: string) returns (slashes: string, tail: string)
    ensures (slashes == "" || slashes == "//") && (tail == "" || tail == "/")
    ensures rest == slashes + WithoutFinalSlash(WithoutSlashes(rest)) + tail
  {
    var bare := WithoutSlashes(rest);
    slashes := if "//" <= rest then "//" else "";
    tail := if bare != [] && bare[|bare| - 1] == '/' then "/" else "";
  }

  lemma TokenEnds(token: string, route: Route)
    requires FromToken(token) == Some(route)
    ensures token != "" && token[0] != '/' && token[|token| - 1] != '/'
  {
    AllowlistExactly(token, route);
  }

  /** The URI gate's whole language. */
  lemma RouteOfExactly(arg: string, route: Route)
    ensures RouteOf(arg) == Some(route) <==>
            exists scheme, slashes, token, tail :: Asks(arg, scheme, slashes, token, tail, route)
  {
    hide StripPrefixIgnoreCase, WithoutSlashes, WithoutFinalSlash, EqIgnoreCase, SameButForCase, FromToken;
    forall token ensures FromToken(token) == Some(route) <==> SameButForCase(token, "deposit") && route == Deposit {
      AllowlistExactly(token, route);
    }
    forall scheme ensures EqIgnoreCase(scheme, SCHEME_PREFIX) <==> SameButForCase(scheme, "dig-app:") {
      EqIgnoreCaseExactly(scheme, "dig-app:");
    }
    if RouteOf(arg) == Some(route) {
      var rest := StripPrefixIgnoreCase(arg, SCHEME_PREFIX).value;
      StripExact(arg, SCHEME_PREFIX, rest);
      var scheme :| EqIgnoreCase(scheme, SCHEME_PREFIX) && arg == scheme + rest;
      var slashes, tail := Undecorated(rest);
      assert Asks(arg, scheme, slashes, WithoutFinalSlash(WithoutSlashes(rest)), tail, route);
    }
    forall scheme, slashes, token, tail | Asks(arg, scheme, slashes, token, tail, route)
      ensures RouteOf(arg) == Some(route)
    {
      StripExact(arg, SCHEME_PREFIX, slashes + token + tail);
      TokenEnds(token, route);
      Decorated(slashes, token, tail);
    }
  }

  /**
   The two gates side by side, on what follows the colon: the URI admits what the file admits, and beyond
   it only those texts' decorations.
   */
  lemma GatesCompared(text: string, route: Route)
    ensures RouteOf(SCHEME_PREFIX + text) == Some(route) <==>
            exists slashes, token, tail ::
              && FromToken(token) == Some(route) && text == slashes + token + tail
              && (slashes == "" || slashes == "//") && (tail == "" || tail == "/")
    ensures FromToken(text) == Some(route) ==> RouteOf(SCHEME_PREFIX + text) == Some(route)
  {
    hide StripPrefixIgnoreCase, WithoutSlashes, WithoutFinalSlash, EqIgnoreCase, FromToken;
    StripExact(SCHEME_PREFIX + text, SCHEME_PREFIX, text);
    SchemeItself();
    forall slashes, token, tail | && FromToken(token) == Some(route) && text == slashes + token + tail
                                  && (slashes == "" || slashes == "//") && (tail == "" || tail == "/")
      ensures RouteOf(SCHEME_PREFIX + text) == Some(route)
    {
      TokenEnds(token, route);
      Decorated(slashes, token, tail);
    }
    if RouteOf(SCHEME_PREFIX + text) == Some(route) {
      var slashes, tail := Undecorated(text);
    }
    if FromToken(text) == Some(route) {
      assert text == "" + text + "";
    }
  }

  lemma SchemeItself()
    ensures EqIgnoreCase(SCHEME_PREFIX, SCHEME_PREFIX)
  {
  }

  lemma {:induction false} RequestedIsTheFirst(args: seq<string>, route: Route)
    ensures Requested(args) == Some(route) <==>
            exists i :: && 0 <= i < |args| && RouteOf(args[i]) == Some(route)
                        && forall j :: 0 <= j < i ==> RouteOf(args[j]) == None
  {
    hide RouteOf;
    if args != [] {
      RequestedIsTheFirst(args[1..], route);
      if RouteOf(args[0]).None? && Requested(args[1..]) == Some(route) {
        var i :| && 0 <= i < |args[1..]| && RouteOf(args[1..][i]) == Some(route)
                 && forall j :: 0 <= j < i ==> RouteOf(args[1..][j]) == None;
        forall j | 0 <= j < i + 1 ensures RouteOf(args[j]) == None {
          assert j > 0 ==> args[j] == args[1..][j - 1];
        }
        assert args[i + 1] == args[1..][i];
      }
      forall i | && 0 <= i < |args| && RouteOf(args[i]) == Some(route)
                 && forall j :: 0 <= j < i ==> RouteOf(args[j]) == None
        ensures Requested(args) == Some(route)
      {
        if i > 0 {
          assert args[1..][i - 1] == args[i];
          assert forall j :: 0 <= j < i - 1 ==> args[1..][j] == args[j + 1];
        }
      }
    }
  }

  // ---------------------------------------------------------------- the file gate

  /** What lies at the hand-off path: its bytes, if they can be read, and its time, if the host can say. */
  datatype File = File(bytes: Option<seq<byte>>, written: Option<nat>)

  /** How old a file is, `None` being the age no bound exceeds: unknown, or written in the future. */
  function AgeOf(written: Option<nat>, now: nat): Option<nat> {
    if written.Some? && written.value <= now then Some(now - written.value) else None
  }

  predicate Younger(age: Option<nat>, maxAge: nat) {
    age.Some? && age.value < maxAge
  }

  /** At most the first `MAX_HANDOFF_BYTES` bytes, as UTF-8. */
  function ReadBounded(file: File): Option<string> {
    var bytes :- file.bytes;
    Decode(if |bytes| > MAX_HANDOFF_BYTES then bytes[..MAX_HANDOFF_BYTES] else bytes)
  }

  /** A write that lands on the hand-off path: a hand-off's rename, or whatever another program leaves there. */
  datatype Write = HandedOff(route: Route, at: nat) | Planted(file: File) {

    function Leaves(): File {
      match this
      case HandedOff(route, at) => File(Some(Encode(route.Token())), Some(at))
      case Planted(f) => f
    }
  }

  function After(file: Option<File>, writes: seq<Write>): Option<File> {
    if writes == [] then file else Some(writes[|writes| - 1].Leaves())
  }

  /** The route a take honours that read the file `read` and then, at `now`, found `dated` there to date. */
  function Honoured(read: Option<File>, dated: Option<File>, now: nat, maxAge: nat): Option<Route> {
    var r :- read;
    var text :- ReadBounded(r);
    var d :- dated;
    if Younger(AgeOf(d.written, now), maxAge) then FromToken(text) else None
  }

  /** How far a hand-off gets: not as far as the rename, only as far as that, or to the end. */
  datatype Progress = Stopped | Renamed | Durable

  /** The hand-off path of one brand directory. One instance, the live one, ever takes from it. */
  class HandoffPath {
    var file: Option<File>

    constructor ()
      ensures file == None
    {
      file := None;
    }

    /**
     Leaves `route` for the running instance; `written` is the time the host stamps on it. A refusal does not
     mean nothing was left: the rename may be done and its directory not yet synced.
     */
    method HandOff(route: Route, written: nat, progress: Progress) returns (ok: bool)
      modifies this
      ensures ok <==> progress.Durable?
      ensures file == if progress.Stopped? then old(file) else Some(HandedOff(route, written).Leaves())
    {
      if progress.Stopped? {
        return false;
      }
      file := Some(File(Some(Encode(route.Token())), Some(written)));
      ok := progress.Durable?;
    }

    /** Other processes' writes. */
    method Land(writes: seq<Write>)
      modifies this
      ensures file == After(old(file), writes)
    {
      for i := 0 to |writes|
        invariant file == After(old(file), writes[..i])
      {
        file := Some(writes[i].Leaves());
      }
      assert writes[..|writes|] == writes;
    }

    /**
     Takes the pending hand-off. `early` lands between reading the file and dating it, `late` between that
     and removing it; `removes` is whether the file system lets the file go.
     */
    method TakeWithin(maxAge: nat, early: seq<Write>, now: nat, late: seq<Write>, removes: bool)
      returns (route: Option<Route>)
      modifies this
      ensures file == if removes then None else After(After(old(file), early), late)
      ensures route == Honoured(old(file), After(old(file), early), now, maxAge)
    {
      var contents := if file.Some? then ReadBounded(file.value) else None;
      Land(early);
      if contents.Some? {
        var age := if file.Some? then AgeOf(file.value.written, now) else None;
        if !Younger(age, maxAge) {
          contents := None;
        }
      }
      Land(late);
      if removes {
        file := None;
      }
      match contents {
        case Some(text) => route := FromToken(text);
        case None => route := None;
      }
    }
  }

  lemma ShortText(bytes: seq<byte>, text: string, route: Route)
    requires EqIgnoreCase(text, route.Token())
    ensures ReadBounded(File(Some(bytes), None)) == Some(text) <==> bytes == Encode(text)
  {
    hide Decode, Encode, EncodeChar;
    TokenAscii(route);
    RecasedAscii(text, route.Token());
    var read := if |bytes| > MAX_HANDOFF_BYTES then bytes[..MAX_HANDOFF_BYTES] else bytes;
    if Decode(read) == Some(text) {
      EncodeOfDecode(read, text);
    }
    if bytes == Encode(text) {
      DecodeOfEncode(text);
    }
  }

  lemma TokenAscii(route: Route)
    ensures IsAscii(route.Token()) && |route.Token()| < MAX_HANDOFF_BYTES
  {
  }

  /** The file's bytes are those of a token of `route` in some case, and nothing else. */
  ghost predicate Names(file: File, route: Route) {
    && file.bytes.Some?
    && exists text :: file.bytes.value == Encode(text) && SameButForCase(text, "deposit") && route == Deposit
  }

  /** The file is dated neither in the future nor `maxAge` or more ago. */
  predicate InTime(file: File, now: nat, maxAge: nat) {
    file.written.Some? && file.written.value <= now < file.written.value + maxAge
  }

  /** The file gate's whole language: a readable file of a token and nothing else, and a date in time. */
  lemma HonouredExactly(read: Option<File>, dated: Option<File>, now: nat, maxAge: nat, route: Route)
    ensures Honoured(read, dated, now, maxAge) == Some(route) <==>
            read.Some? && dated.Some? && Names(read.value, route) && InTime(dated.value, now, maxAge)
  {
    hide EqIgnoreCase, SameButForCase, Encode, Decode, FromToken;
    if read.Some? && read.value.bytes.Some? {
      var bytes := read.value.bytes.value;
      forall text | EqIgnoreCase(text, route.Token())
        ensures ReadBounded(read.value) == Some(text) <==> bytes == Encode(text)
      {
        ShortText(bytes, text, route);
      }
    }
    forall text
      ensures FromToken(text) == Some(route) <==> SameButForCase(text, "deposit") && route == Deposit
      ensures EqIgnoreCase(text, route.Token()) <==> SameButForCase(text, "deposit")
    {
      AllowlistExactly(text, route);
    }
  }

  /** A hand-off's file names its route, and no other. */
  lemma HandOffNamesItsRoute(route: Route, at: nat, other: Route)
    ensures Names(HandedOff(route, at).Leaves(), other) <==> other == route
  {
    hide Encode;
    assert SameButForCase("deposit", "deposit");
  }

  // ---------------------------------------------------------------- runs

  /** A write, or a take and the writes that land in the middle of it. With one taker this is every interleaving. */
  datatype Step = Wrote(write: Write) | Took(early: seq<Write>, now: nat, late: seq<Write>, removes: bool)

  function FileAfter(file: Option<File>, step: Step): Option<File> {
    match step
    case Wrote(w) => Some(w.Leaves())
    case Took(early, _, late, removes) => if removes then None else After(After(file, early), late)
  }

  function FileAt(run: seq<Step>, n: nat): Option<File>
    requires n <= |run|
  {
    if n == 0 then None else FileAfter(FileAt(run, n - 1), run[n - 1])
  }

  /** The file the take at `n` finds there to date. */
  function DatedAt(run: seq<Step>, n: nat): Option<File>
    requires n < |run| && run[n].Took?
  {
    After(FileAt(run, n), run[n].early)
  }

  function Opens(run: seq<Step>, n: nat): Option<Route>
    requires n < |run|
  {
    if run[n].Took? then Honoured(FileAt(run, n), DatedAt(run, n), run[n].now, MAX_HANDOFF_AGE) else None
  }

  /** The takes that opened a route. */
  function Opened(run: seq<Step>, n: nat): nat
    requires n <= |run|
  {
    if n == 0 then 0 else Opened(run, n - 1) + if Opens(run, n - 1).Some? then 1 else 0
  }

  /** Those of them that did not get the file removed. */
  function Unremoved(run: seq<Step>, n: nat): nat
    requires n <= |run|
  {
    if n == 0 then 0 else Unremoved(run, n - 1) + if Opens(run, n - 1).Some? && !run[n - 1].removes then 1 else 0
  }

  function WritesIn(step: Step): nat {
    if step.Wrote? then 1 else |step.early| + |step.late|
  }

  function Writes(run: seq<Step>, n: nat): nat
    requires n <= |run|
  {
    if n == 0 then 0 else Writes(run, n - 1) + WritesIn(run[n - 1])
  }

  /** Every write that landed, in order. */
  function Landed(run: seq<Step>, n: nat): seq<Write>
    requires n <= |run|
  {
    if n == 0 then [] else
    Landed(run, n - 1) + match run[n - 1] case Wrote(w) => [w] case Took(early, _, late, _) => early + late
  }

  /** The takes that open, and those of them that leave their file behind. */
  function Opening(run: seq<Step>, n: nat): set<nat>
    requires n <= |run|
  {
    set i: nat | i < n && Opens(run, i).Some?
  }

  function OpeningUnremoved(run: seq<Step>, n: nat): set<nat>
    requires n <= |run|
  {
    set i: nat | i < n && Opens(run, i).Some? && !run[i].removes
  }

  /** The bound's three counts are what they say: takes that open, those whose file stays, and writes that landed. */
  lemma CountsExactly(run: seq<Step>, n: nat)
    requires n <= |run|
    ensures Opened(run, n) == |Opening(run, n)| && Unremoved(run, n) == |OpeningUnremoved(run, n)|
    ensures Writes(run, n) == |Landed(run, n)|
  {
    hide Opened, Unremoved, Writes, Landed, Opening, OpeningUnremoved;
    OpenedCounted(run, n);
    UnremovedCounted(run, n);
    WritesCounted(run, n);
  }

  lemma {:induction false} OpenedCounted(run: seq<Step>, n: nat)
    requires n <= |run|
    ensures Opened(run, n) == |Opening(run, n)|
  {
    hide Opens;
    if n > 0 {
      OpenedCounted(run, n - 1);
      var sooner := Opening(run, n - 1);
      assert Opening(run, n) == if Opens(run, n - 1).Some? then sooner + {n - 1} else sooner;
    }
  }

  lemma {:induction false} UnremovedCounted(run: seq<Step>, n: nat)
    requires n <= |run|
    ensures Unremoved(run, n) == |OpeningUnremoved(run, n)|
  {
    hide Honoured;
    if n > 0 {
      UnremovedCounted(run, n - 1);
      var sooner := OpeningUnremoved(run, n - 1);
      assert OpeningUnremoved(run, n)
          == if Opens(run, n - 1).Some? && !run[n - 1].removes then sooner + {n - 1} else sooner;
    }
  }

  lemma {:induction false} WritesCounted(run: seq<Step>, n: nat)
    requires n <= |run|
    ensures Writes(run, n) == |Landed(run, n)|
  {
    if n > 0 {
      WritesCounted(run, n - 1);
    }
  }

  /**
   The one-shot bound, over every run: no more routes open than files were written, but for one more each time
   a take that opened one did not get its file removed.
   */
  lemma {:induction false} OneShot(run: seq<Step>, n: nat)
    requires n <= |run|
    ensures Opened(run, n) + (if FileAt(run, n).Some? then 1 else 0) <= Writes(run, n) + Unremoved(run, n)
  {
    hide Honoured;
    if n > 0 {
      OneShot(run, n - 1);
      NothingThereNothingOpens(run, n - 1);
    }
  }

  lemma NothingThereNothingOpens(run: seq<Step>, n: nat)
    requires n < |run|
    ensures Opens(run, n).Some? ==> FileAt(run, n).Some?
  {
  }

  /** The write whose file `step` leaves at the path, if it leaves one of its own. */
  function Leaves(step: Step): Option<Write> {
    match step
    case Wrote(w) => Some(w)
    case Took(early, _, late, removes) =>
      if removes || early + late == [] then None else Some((early + late)[|early + late| - 1])
  }

  /** A take that leaves the path as it was: the file is not removed, and nothing lands. */
  predicate Keeps(step: Step) {
    step.Took? && !step.removes && step.early + step.late == []
  }

  /** Step `k` left the file that is there before step `n`. */
  ghost predicate LeftBy(run: seq<Step>, k: nat, n: nat) {
    && k < n <= |run| && Leaves(run[k]).Some?
    && forall i :: k < i < n ==> Keeps(run[i])
  }

  lemma StepLeaves(file: Option<File>, step: Step)
    ensures Leaves(step).Some? ==> FileAfter(file, step) == Some(Leaves(step).value.Leaves())
    ensures Keeps(step) ==> FileAfter(file, step) == file
    ensures Leaves(step).None? && !Keeps(step) ==> FileAfter(file, step) == None
  {
    if step.Took? {
      assert step.late == [] ==> step.early + step.late == step.early;
    }
  }

  /** A file is there exactly when some step left it, and then it is the one that step left. */
  lemma {:induction false} FileWasLeft(run: seq<Step>, n: nat)
    requires n <= |run|
    ensures FileAt(run, n).Some? <==> exists k: nat :: LeftBy(run, k, n)
    ensures forall k: nat :: LeftBy(run, k, n) ==> FileAt(run, n) == Some(Leaves(run[k]).value.Leaves())
  {
    if n > 0 {
      hide FileAfter, Leaves, Keeps;
      FileWasLeft(run, n - 1);
      StepLeaves(FileAt(run, n - 1), run[n - 1]);
      LeftByStep(run, n);
      if Leaves(run[n - 1]).None? && Keeps(run[n - 1]) && FileAt(run, n - 1).Some? {
        var k: nat :| LeftBy(run, k, n - 1);
        assert LeftBy(run, k, n);
      }
      forall k: nat | LeftBy(run, k, n) ensures FileAt(run, n) == Some(Leaves(run[k]).value.Leaves()) {
        assert k < n - 1 ==> LeftBy(run, k, n - 1);
      }
    }
  }

  lemma LeftByStep(run: seq<Step>, n: nat)
    requires 0 < n <= |run|
    ensures Leaves(run[n - 1]).Some? ==> LeftBy(run, n - 1, n)
    ensures forall k: nat :: LeftBy(run, k, n) ==> if k == n - 1 then Leaves(run[k]).Some? else Keeps(run[n - 1]) && LeftBy(run, k, n - 1)
    ensures forall k: nat :: LeftBy(run, k, n - 1) && Keeps(run[n - 1]) ==> LeftBy(run, k, n)
    ensures Keeps(run[n - 1]) ==> Leaves(run[n - 1]).None?
  {
  }

  /** The take at `n` opens `route` from the file step `k` left, having found `dated` there to date. */
  ghost predicate OpensFrom(run: seq<Step>, k: nat, n: nat, route: Route) {
    && n < |run| && run[n].Took? && LeftBy(run, k, n)
    && var left := Leaves(run[k]).value.Leaves();
       && Names(left, route)
       && InTime(After(Some(left), run[n].early).value, run[n].now, 60_000_000_000)
  }

  /**
   When a route opens, exactly: the last file left at the path, which no take has removed since, is a token of
   it, and the file there when the take came to date it (the same one, unless another landed) is in time.
   */
  lemma OpensExactly(run: seq<Step>, n: nat, route: Route)
    requires n < |run|
    ensures Opens(run, n) == Some(route) <==> exists k: nat :: OpensFrom(run, k, n, route)
  {
    hide Honoured, Names, InTime, FileAt, Leaves, Keeps;
    FileWasLeft(run, n);
    if run[n].Took? {
      HonouredExactly(FileAt(run, n), DatedAt(run, n), run[n].now, 60_000_000_000, route);
      if Opens(run, n) == Some(route) {
        var k: nat :| LeftBy(run, k, n);
        assert OpensFrom(run, k, n, route);
      }
    }
  }

  /**
   When a hand-off that has opened opens again, exactly: no take since then got the file removed and nothing
   was written, and the file there to date is in time. That the first of those takes fails to remove it is
   the error that is ignored.
   */
  lemma OpensAgainExactly(run: seq<Step>, k: nat, n: nat, m: nat, route: Route)
    requires n < m < |run| && OpensFrom(run, k, n, route)
    ensures OpensFrom(run, k, m, route) <==>
            && run[m].Took? && (forall i :: n <= i < m ==> Keeps(run[i]))
            && InTime(After(Some(Leaves(run[k]).value.Leaves()), run[m].early).value, run[m].now, 60_000_000_000)
  {
    hide Names, InTime, Leaves, Keeps;
    if OpensFrom(run, k, m, route) {
      assert LeftBy(run, k, m);
    }
  }

  /** Of two takes with nothing written in between, the second opens just when the first did not get the file removed, in time. */
  lemma NextTakeOpens(run: seq<Step>, n: nat)
    requires n + 1 < |run| && Opens(run, n).Some? && run[n + 1].Took?
    requires run[n].early == [] && run[n].late == [] && run[n + 1].early == []
    ensures Opens(run, n + 1).Some? <==> !run[n].removes && InTime(FileAt(run, n).value, run[n + 1].now, 60_000_000_000)
  {
    hide Honoured, Names;
    var route := Opens(run, n).value;
    HonouredExactly(FileAt(run, n), DatedAt(run, n), run[n].now, 60_000_000_000, route);
    HonouredExactly(FileAt(run, n + 1), DatedAt(run, n + 1), run[n + 1].now, 60_000_000_000, route);
    if Opens(run, n + 1).Some? {
      HonouredExactly(FileAt(run, n + 1), DatedAt(run, n + 1), run[n + 1].now, 60_000_000_000, Opens(run, n + 1).value);
    }
  }

  /** A hand-off opens its route at the next take just when it is in time there, or is overwritten in mid-take by a file that is. */
  lemma HandOffArrives(run: seq<Step>, n: nat)
    requires n + 1 < |run| && run[n].Wrote? && run[n].write.HandedOff? && run[n + 1].Took?
    ensures Opens(run, n + 1) == Some(run[n].write.route) <==>
            InTime(After(Some(run[n].write.Leaves()), run[n + 1].early).value, run[n + 1].now, 60_000_000_000)
  {
    hide Honoured, Names;
    var w := run[n].write;
    assert FileAt(run, n + 1) == Some(w.Leaves());
    HandOffNamesItsRoute(w.route, w.at, w.route);
    HonouredExactly(FileAt(run, n + 1), DatedAt(run, n + 1), run[n + 1].now, 60_000_000_000, w.route);
  }

  /** When a route opens from a file that is not itself in time, exactly: a file that is in time landed after it was read. */
  lemma StaleOpensExactly(run: seq<Step>, n: nat, route: Route)
    requires n < |run| && run[n].Took? && FileAt(run, n).Some? && !InTime(FileAt(run, n).value, run[n].now, 60_000_000_000)
    ensures Opens(run, n) == Some(route) <==>
            && Names(FileAt(run, n).value, route)
            && run[n].early != [] && InTime(run[n].early[|run[n].early| - 1].Leaves(), run[n].now, 60_000_000_000)
  {
    hide Honoured, Names, InTime;
    HonouredExactly(FileAt(run, n), DatedAt(run, n), run[n].now, 60_000_000_000, route);
  }

  /** The removal's failure is ignored, and then one hand-off opens its route again and again. */
  lemma UnremovedOpensTwice(at: nat)
    ensures var run := [Wrote(HandedOff(Deposit, at)), Took([], at, [], false), Took([], at, [], false)];
            Writes(run, 3) == 1 && Opened(run, 3) == 2
  {
    hide Honoured;
    var run := [Wrote(HandedOff(Deposit, at)), Took([], at, [], false), Took([], at, [], false)];
    HandOffArrives(run, 0);
    NextTakeOpens(run, 1);
    assert Opened(run, 1) == 0 && Opened(run, 2) == 1;
    assert Writes(run, 1) == 1 && Writes(run, 2) == 1;
  }

  /** An old hand-off opens its route when a newer file, of whatever content, lands before it is dated. */
  lemma StaleTextOpens(now: nat, other: seq<byte>)
    requires now >= 60_000_000_000
    ensures var run := [Wrote(HandedOff(Deposit, now - 60_000_000_000)),
                        Took([Planted(File(Some(other), Some(now)))], now, [], true)];
            Opens(run, 1) == Some(Deposit)
  {
    HandOffArrives([Wrote(HandedOff(Deposit, now - 60_000_000_000)),
                    Took([Planted(File(Some(other), Some(now)))], now, [], true)], 0);
  }
}
