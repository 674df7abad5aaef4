/**
 Global shortcuts (crates/dig-app-core/src/hotkey.rs): reading a chord such as "Ctrl+Shift+D", writing it
 back, and the pair of numbers it is registered with.
 */
module Hotkeys {
  import opened Wrappers
  import opened Text
  import opened Decimal

  datatype Key = Space | Letter(c: char) | Digit(d: nat) | Function(n: nat) {

    /** The keys the type's own documentation admits. */
    predicate Valid() {
      match this
      case Space => true
      case Letter(c) => IsUpper(c)
      case Digit(d) => d < 10
      case Function(n) => 1 <= n <= 24
    }
  }

  datatype Hotkey = Hotkey(ctrl: bool, alt: bool, shift: bool, win: bool, key: Key) {

    predicate HasModifier() {
      ctrl || alt || shift || win
    }
  }

  datatype HotkeyError = Empty | NoKey | NoModifier | TwoKeys | UnknownKey(token: string)

  // ---------------------------------------------------------------- one token

  function ParseKey(token: string): Option<Key> {
    var upper := Upper(token);
    if upper == "SPACE" then Some(Space)
    else if upper != [] && upper[0] == 'F' then
      var n :- ParseUnsigned(upper[1..], 256);
      if 1 <= n <= 24 then Some(Function(n)) else None
    else if |upper| != 1 then None
    else if IsUpper(upper[0]) then Some(Letter(upper[0]))
    else if IsDigit(upper[0]) then Some(Digit(DigitValue(upper[0])))
    else None
  }

  datatype Role = Ctrl | Alt | Shift | Win | AKey(key: Key) | Unknown

  /** What one token of a chord stands for. */
  function RoleOf(token: string): Role {
    var upper := Upper(token);
    if upper == "CTRL" || upper == "CONTROL" then Ctrl
    else if upper == "ALT" || upper == "OPTION" then Alt
    else if upper == "SHIFT" then Shift
    else if upper == "WIN" || upper == "SUPER" || upper == "CMD" || upper == "COMMAND" then Win
    else match ParseKey(token)
      case Some(key) => AKey(key)
      case None => Unknown
  }

  // ---------------------------------------------------------------- what a token means

  /** The names of each key: a word, one letter but not F, one digit, or an F and its number. */
  ghost predicate NamesKey(token: string, key: Key) {
    match key
    case Space => SameButForCase(token, "Space")
    case Letter(c) => |token| == 1 && 'A' <= c <= 'Z' && c != 'F' && (token[0] == c || token[0] as int == c as int + 32)
    case Digit(d) => |token| == 1 && d < 10 && token[0] as int == 0x30 + d
    case Function(n) =>
      && token != "" && (token[0] == 'F' || token[0] == 'f') && 1 <= n <= 24
      && exists digits :: && (token[1..] == digits || token[1..] == "+" + digits)
                          && digits != "" && AllDigits(digits) && Value(digits) == n
  }

  lemma UpperNumber(s: string, limit: nat)
    ensures ParseUnsigned(Upper(s), limit) == ParseUnsigned(s, limit)
  {
    hide Value;
    var u := Upper(s);
    if AllDigits(s) {
      assert u == s;
    } else if |s| > 1 && s[0] == '+' {
      assert u[0] == '+' && u[1..] == Upper(s[1..]);
      DigitsUpper(s[1..]);
    } else {
      DigitsUpper(s);
    }
  }

  lemma DigitsUpper(s: string)
    ensures AllDigits(Upper(s)) <==> AllDigits(s)
    ensures AllDigits(s) ==> Upper(s) == s
  {
    forall i | 0 <= i < |s| ensures IsDigit(Upper(s)[i]) <==> IsDigit(s[i]) {
      assert Upper(s)[i] == UpperChar(s[i]);
    }
  }

  lemma FunctionExactly(token: string, n: nat)
    requires token != "" && (token[0] == 'F' || token[0] == 'f')
    ensures ParseKey(token) == Some(Function(n)) <==> NamesKey(token, Function(n))
    ensures ParseKey(token).Some? ==> ParseKey(token).value.Function?
  {
    hide ParseUnsigned, Value;
    var upper := Upper(token);
    assert upper[0] == 'F' && upper[1..] == Upper(token[1..]);
    assert "SPACE"[0] == 'S';
    UpperNumber(token[1..], 256);
    ParseUnsignedExactly(token[1..], 256, n);
  }

  lemma OtherKeyExactly(token: string, key: Key)
    requires token == "" || (token[0] != 'F' && token[0] != 'f')
    ensures ParseKey(token) == Some(key) <==> NamesKey(token, key)
  {
    hide ParseUnsigned, Value;
    assert Upper("Space") == "SPACE";
    EqIgnoreCaseExactly(token, "Space");
    hide SameButForCase;
    var upper := Upper(token);
    assert token != "" ==> upper[0] == UpperChar(token[0]);
    assert token != "" ==> upper[0] != 'F';
  }

  /** A token names a key by these names, and at most one key. */
  lemma KeyExactly(token: string, key: Key)
    ensures ParseKey(token) == Some(key) <==> NamesKey(token, key)
  {
    if token != "" && (token[0] == 'F' || token[0] == 'f') {
      FunctionExactly(token, if key.Function? then key.n else 0);
      if !key.Function? {
        assert !NamesKey(token, key);
      }
    } else {
      OtherKeyExactly(token, key);
    }
  }

  lemma WordIs(token: string, word: string, upper: string)
    requires Upper(word) == upper
    ensures Upper(token) == upper <==> SameButForCase(token, word)
  {
    EqIgnoreCaseExactly(token, word);
  }

  lemma KeyRole(token: string, key: Key)
    ensures RoleOf(token) == AKey(key) <==> NamesKey(token, key)
  {
    KeyExactly(token, key);
    hide ParseUnsigned, NamesKey;
  }

  /** The words each modifier goes by, in any case; every other token is a key's name or means nothing. */
  lemma RoleExactly(token: string)
    ensures RoleOf(token) == Ctrl <==> SameButForCase(token, "Ctrl") || SameButForCase(token, "Control")
    ensures RoleOf(token) == Alt <==> SameButForCase(token, "Alt") || SameButForCase(token, "Option")
    ensures RoleOf(token) == Shift <==> SameButForCase(token, "Shift")
    ensures RoleOf(token) == Win <==> || SameButForCase(token, "Win") || SameButForCase(token, "Super")
                                      || SameButForCase(token, "Cmd") || SameButForCase(token, "Command")
    ensures forall key :: RoleOf(token) == AKey(key) <==> NamesKey(token, key)
  {
    forall key ensures RoleOf(token) == AKey(key) <==> NamesKey(token, key) {
      KeyRole(token, key);
    }
    ModifierWords(token);
    hide *;
  }

  lemma ModifierWords(token: string)
    ensures RoleOf(token) == Ctrl <==> SameButForCase(token, "Ctrl") || SameButForCase(token, "Control")
    ensures RoleOf(token) == Alt <==> SameButForCase(token, "Alt") || SameButForCase(token, "Option")
    ensures RoleOf(token) == Shift <==> SameButForCase(token, "Shift")
    ensures RoleOf(token) == Win <==> || SameButForCase(token, "Win") || SameButForCase(token, "Super")
                                      || SameButForCase(token, "Cmd") || SameButForCase(token, "Command")
  {
    FirstWords(token);
    LastWords(token);
    hide Upper, SameButForCase, ParseKey;
  }

  lemma FirstWords(token: string)
    ensures Upper(token) == "CTRL" <==> SameButForCase(token, "Ctrl")
    ensures Upper(token) == "CONTROL" <==> SameButForCase(token, "Control")
    ensures Upper(token) == "ALT" <==> SameButForCase(token, "Alt")
    ensures Upper(token) == "OPTION" <==> SameButForCase(token, "Option")
    ensures Upper(token) == "SHIFT" <==> SameButForCase(token, "Shift")
  {
    hide SameButForCase;
    WordIs(token, "Ctrl", "CTRL");
    WordIs(token, "Control", "CONTROL");
    WordIs(token, "Alt", "ALT");
    WordIs(token, "Option", "OPTION");
    WordIs(token, "Shift", "SHIFT");
  }

  lemma LastWords(token: string)
    ensures Upper(token) == "WIN" <==> SameButForCase(token, "Win")
    ensures Upper(token) == "SUPER" <==> SameButForCase(token, "Super")
    ensures Upper(token) == "CMD" <==> SameButForCase(token, "Cmd")
    ensures Upper(token) == "COMMAND" <==> SameButForCase(token, "Command")
  {
    hide SameButForCase;
    WordIs(token, "Win", "WIN");
    WordIs(token, "Super", "SUPER");
    WordIs(token, "Cmd", "CMD");
    WordIs(token, "Command", "COMMAND");
  }

  // ---------------------------------------------------------------- the tokens of a chord

  function TrimmedNonEmpty(parts: seq<string>): seq<string> {
    if parts == [] then []
    else (if Trim(parts[0]) == "" then [] else [Trim(parts[0])]) + TrimmedNonEmpty(parts[1..])
  }

  function Tokens(text: string): seq<string> {
    TrimmedNonEmpty(Split(text, '+'))
  }

  // ---------------------------------------------------------------- a whole chord

  function Roles(tokens: seq<string>): (roles: seq<Role>)
    ensures |roles| == |tokens| && forall i :: 0 <= i < |tokens| ==> roles[i] == RoleOf(tokens[i])
  {
    seq(|tokens|, i requires 0 <= i < |tokens| => RoleOf(tokens[i]))
  }

  /** The keys named, in order. */
  function Keys(roles: seq<Role>): seq<Key> {
    if roles == [] then []
    else
      var last := roles[|roles| - 1];
      Keys(roles[..|roles| - 1]) + if last.AKey? then [last.key] else []
  }

  /** Why the first offending token is refused, if one is: it names nothing, or a second key. */
  function Refusal(tokens: seq<string>): Option<HotkeyError> {
    if tokens == [] then None
    else
      var before, last := tokens[..|tokens| - 1], tokens[|tokens| - 1];
      if Refusal(before).Some? then Refusal(before)
      else if RoleOf(last).Unknown? then Some(UnknownKey(last))
      else if RoleOf(last).AKey? && Keys(Roles(before)) != [] then Some(TwoKeys)
      else None
  }

  function Chord(roles: seq<Role>, key: Key): Hotkey {
    Hotkey(Ctrl in roles, Alt in roles, Shift in roles, Win in roles, key)
  }

  function Parsed(text: string): Result<Hotkey, HotkeyError> {
    var tokens := Tokens(text);
    var roles := Roles(tokens);
    if tokens == [] then Err(Empty)
    else if Refusal(tokens).Some? then Err(Refusal(tokens).value)
    else if Keys(roles) == [] then Err(NoKey)
    else
      var hotkey := Chord(roles, Keys(roles)[0]);
      if hotkey.HasModifier() then Ok(hotkey) else Err(NoModifier)
  }

  lemma NextRole(tokens: seq<string>, i: nat)
    requires i < |tokens|
    ensures tokens[..i + 1][..i] == tokens[..i]
    ensures Roles(tokens[..i + 1]) == Roles(tokens[..i]) + [RoleOf(tokens[i])]
    ensures Keys(Roles(tokens[..i + 1]))
         == Keys(Roles(tokens[..i])) + if RoleOf(tokens[i]).AKey? then [RoleOf(tokens[i]).key] else []
  {
    var roles := Roles(tokens[..i + 1]);
    assert roles == Roles(tokens[..i]) + [RoleOf(tokens[i])];
    assert roles[..|roles| - 1] == Roles(tokens[..i]);
  }

  lemma {:induction false} RefusalPersists(tokens: seq<string>, i: nat)
    requires i <= |tokens| && Refusal(tokens[..i]).Some?
    ensures Refusal(tokens) == Refusal(tokens[..i])
    decreases |tokens|
  {
    if i < |tokens| {
      assert tokens[..|tokens| - 1][..i] == tokens[..i];
      RefusalPersists(tokens[..|tokens| - 1], i);
    } else {
      assert tokens[..i] == tokens;
    }
  }

  lemma NothingYet()
    ensures Refusal([]).None? && Roles([]) == [] && Keys(Roles([])) == []
  {
  }

  lemma NextRefusal(tokens: seq<string>, i: nat)
    requires i < |tokens| && Refusal(tokens[..i]).None?
    ensures Refusal(tokens[..i + 1]) ==
            if RoleOf(tokens[i]).Unknown? then Some(UnknownKey(tokens[i]))
            else if RoleOf(tokens[i]).AKey? && Keys(Roles(tokens[..i])) != [] then Some(TwoKeys)
            else None
  {
    NextRole(tokens, i);
  }

  method Parse(text: string) returns (r: Result<Hotkey, HotkeyError>)
    ensures r == Parsed(text)
  {
    hide Tokens, RoleOf, Roles, Keys, Refusal;
    NothingYet();
    var hotkey := Hotkey(false, false, false, false, Space);
    var key: Option<Key> := None;
    var tokens := Tokens(text);
    if tokens == [] {
      return Err(Empty);
    }
    for i := 0 to |tokens|
      invariant Refusal(tokens[..i]).None?
      invariant Keys(Roles(tokens[..i])) == if key.Some? then [key.value] else []
      invariant hotkey == Chord(Roles(tokens[..i]), Space)
    {
      var token := tokens[i];
      NextRole(tokens, i);
      NextRefusal(tokens, i);
      match RoleOf(token) {
        case Ctrl => hotkey := hotkey.(ctrl := true);
        case Alt => hotkey := hotkey.(alt := true);
        case Shift => hotkey := hotkey.(shift := true);
        case Win => hotkey := hotkey.(win := true);
        case AKey(parsed) =>
          if key.Some? {
            RefusalPersists(tokens, i + 1);
            return Err(TwoKeys);
          }
          key := Some(parsed);
        case Unknown =>
          RefusalPersists(tokens, i + 1);
          return Err(UnknownKey(token));
      }
    }
    assert tokens[..|tokens|] == tokens;
    if key.None? {
      return Err(NoKey);
    }
    hotkey := hotkey.(key := key.value);
    if !hotkey.HasModifier() {
      return Err(NoModifier);
    }
    return Ok(hotkey);
  }

  // ---------------------------------------------------------------- which chords are read

  lemma {:induction false} KeysAreNamed(roles: seq<Role>, i: nat)
    requires i < |roles| && roles[i].AKey?
    ensures roles[i].key in Keys(roles)
  {
    if i < |roles| - 1 {
      KeysAreNamed(roles[..|roles| - 1], i);
    }
  }

  lemma {:induction false} NamedKeysAreRoles(roles: seq<Role>, key: Key)
    requires key in Keys(roles)
    ensures AKey(key) in roles
  {
    if roles != [] && roles[|roles| - 1] != AKey(key) {
      NamedKeysAreRoles(roles[..|roles| - 1], key);
    }
  }

  lemma {:induction false} RefusalExact(tokens: seq<string>)
    ensures Refusal(tokens).None? <==> Unknown !in Roles(tokens) && |Keys(Roles(tokens))| <= 1
  {
    NothingYet();
    hide RoleOf, Roles, Keys;
    if tokens != [] {
      var n := |tokens| - 1;
      RefusalExact(tokens[..n]);
      NextRole(tokens, n);
      assert tokens[..n + 1] == tokens;
    }
  }

  predicate IsModifier(role: Role) {
    role in {Ctrl, Alt, Shift, Win}
  }

  /**
   A chord is read exactly when every token means something, one and only one of them names a key, and one
   at least is a modifier. What is read is which modifiers there were, and that key.
   */
  lemma SucceedsExactly(text: string)
    ensures var roles := Roles(Tokens(text));
            && (Parsed(text).Ok? <==> && Unknown !in roles
                                      && |Keys(roles)| == 1
                                      && (Ctrl in roles || Alt in roles || Shift in roles || Win in roles))
            && (Parsed(text).Ok? ==>
                  Parsed(text).value == Hotkey(Ctrl in roles, Alt in roles, Shift in roles, Win in roles, Keys(roles)[0]))
  {
    hide Tokens, RoleOf, Refusal;
    var tokens := Tokens(text);
    var roles := Roles(tokens);
    RefusalExact(tokens);
  }

  /** The keys are the ones named, as often as they are named and in that order. */
  lemma KeysExactly(a: seq<Role>, b: seq<Role>, key: Key, modifier: Role)
    requires !modifier.AKey?
    ensures Keys(a + b) == Keys(a) + Keys(b) && Keys([AKey(key)]) == [key] && Keys([modifier]) == []
  {
    KeysAppend(a, b);
    assert [AKey(key)][..0] == [] && [modifier][..0] == [];
  }

  /** Each piece between plus signs is a token, white space on either side apart, unless there is nothing else in it. */
  lemma TokensExactly(a: seq<string>, b: seq<string>, piece: string, text: string)
    ensures TrimmedNonEmpty(a + b) == TrimmedNonEmpty(a) + TrimmedNonEmpty(b)
    ensures TrimmedNonEmpty([piece]) == if Blank(piece) then [] else [Trim(piece)]
    ensures Tokens(text) == TrimmedNonEmpty(Split(text, '+'))
  {
    TokensAppend(a, b);
    TrimEmptyIffBlank(piece);
    hide Trim, Blank;
    assert [piece][1..] == [];
  }

  lemma {:induction false} TokensAppend(a: seq<string>, b: seq<string>)
    ensures TrimmedNonEmpty(a + b) == TrimmedNonEmpty(a) + TrimmedNonEmpty(b)
  {
    hide Trim;
    if a == [] {
      assert a + b == b;
    } else {
      assert (a + b)[1..] == a[1..] + b;
      TokensAppend(a[1..], b);
    }
  }

  /** Every other refusal: nothing but white space, modifiers alone, or a key alone. */
  lemma RefusedExactly(text: string)
    ensures var tokens := Tokens(text); var roles := Roles(tokens);
            && (Parsed(text) == Err(Empty) <==> tokens == [])
            && (Parsed(text) == Err(NoKey) <==> tokens != [] && forall i :: 0 <= i < |roles| ==> roles[i] in {Ctrl, Alt, Shift, Win})
            && (Parsed(text) == Err(NoModifier) <==> |roles| == 1 && roles[0].AKey?)
  {
    hide Tokens, RoleOf, Refusal;
    var tokens := Tokens(text);
    var roles := Roles(tokens);
    RefusalExact(tokens);
    RefusalKinds(tokens);
    KeylessExactly(roles);
    LoneKey(roles);
  }

  lemma RefusalKinds(tokens: seq<string>)
    ensures Refusal(tokens).Some? ==> Refusal(tokens).value.UnknownKey? || Refusal(tokens).value.TwoKeys?
  {
    if Refusal(tokens).Some? {
      var i := RefusalIsTheFirst(tokens);
    }
  }

  lemma KeylessExactly(roles: seq<Role>)
    ensures Keys(roles) == [] <==> forall i :: 0 <= i < |roles| ==> !roles[i].AKey?
  {
    hide Keys;
    if i :| 0 <= i < |roles| && roles[i].AKey? {
      KeysAreNamed(roles, i);
    } else {
      NoKeysNamed(roles);
    }
  }

  lemma {:induction false} NoKeysNamed(roles: seq<Role>)
    requires forall i :: 0 <= i < |roles| ==> !roles[i].AKey?
    ensures Keys(roles) == []
  {
    if roles != [] {
      NoKeysNamed(roles[..|roles| - 1]);
    }
  }

  lemma LoneKey(roles: seq<Role>)
    ensures && |Keys(roles)| == 1 && Unknown !in roles && Ctrl !in roles && Alt !in roles && Shift !in roles && Win !in roles
       <==> |roles| == 1 && roles[0].AKey?
  {
    if |roles| > 1 && forall i :: 0 <= i < |roles| ==> roles[i].AKey? {
      assert roles == roles[..1] + roles[1..];
      assert roles[..1][..0] == [] && roles[1..][0].AKey?;
      KeysAppend(roles[..1], roles[1..]);
      KeylessExactly(roles[1..]);
    } else if |roles| == 1 {
      assert roles[..0] == [];
    } else if roles != [] {
      var i :| 0 <= i < |roles| && !roles[i].AKey?;
      assert roles[i] in roles;
    }
  }

  /** The first token that cannot be accepted decides the refusal, and everything before it could be. */
  lemma {:induction false} RefusalIsTheFirst(tokens: seq<string>) returns (i: nat)
    requires Refusal(tokens).Some?
    ensures i < |tokens| && Unknown !in Roles(tokens[..i]) && |Keys(Roles(tokens[..i]))| <= 1
    ensures match RoleOf(tokens[i])
            case Unknown => Refusal(tokens) == Some(UnknownKey(tokens[i]))
            case AKey(_) => Refusal(tokens) == Some(TwoKeys) && |Keys(Roles(tokens[..i]))| == 1
            case _ => false
  {
    var before := tokens[..|tokens| - 1];
    if Refusal(before).Some? {
      i := RefusalIsTheFirst(before);
      assert tokens[..i] == before[..i];
    } else {
      i := |tokens| - 1;
      RefusalExact(before);
    }
  }

  // ---------------------------------------------------------------- order, case and repetition

  /** A chord's meaning is the set of its roles: repeating a modifier, or moving one, changes nothing. */
  lemma RolesDecide(s: string, t: string)
    requires Parsed(s).Ok? && |Keys(Roles(Tokens(t)))| == 1
    requires forall role :: role in Roles(Tokens(s)) <==> role in Roles(Tokens(t))
    ensures Parsed(t) == Parsed(s)
  {
    hide Tokens, RoleOf, Refusal, Parsed;
    var a, b := Roles(Tokens(s)), Roles(Tokens(t));
    SucceedsExactly(s);
    SucceedsExactly(t);
    NamedKeysAreRoles(b, Keys(b)[0]);
    var k := AKey(Keys(b)[0]);
    assert k in a;
    var i :| 0 <= i < |a| && a[i] == k;
    KeysAreNamed(a, i);
    var m :| 0 <= m < |a| && IsModifier(a[m]);
    assert a[m] in b;
  }

  lemma {:induction false} KeysAppend(a: seq<Role>, b: seq<Role>)
    ensures Keys(a + b) == Keys(a) + Keys(b)
  {
    if b == [] {
      assert a + b == a;
    } else {
      var n := |b| - 1;
      assert (a + b)[..|a + b| - 1] == a + b[..n];
      KeysAppend(a, b[..n]);
    }
  }

  lemma MultisetWithout(s: seq<Role>, j: nat)
    requires j < |s|
    ensures multiset(s) == multiset(s[..j] + s[j + 1..]) + multiset{s[j]}
  {
    assert s == s[..j] + ([s[j]] + s[j + 1..]);
  }

  lemma Cancel<T>(p: multiset<T>, q: multiset<T>, x: T)
    requires p + multiset{x} == q + multiset{x}
    ensures p == q
  {
    forall e ensures p[e] == q[e] {
      assert (p + multiset{x})[e] == (q + multiset{x})[e];
    }
  }

  lemma MatchLast(a: seq<Role>, b: seq<Role>) returns (j: nat)
    requires a != [] && multiset(a) == multiset(b)
    ensures j < |b| && b[j] == a[|a| - 1]
    ensures multiset(a[..|a| - 1]) == multiset(b[..j] + b[j + 1..])
  {
    var x := a[|a| - 1];
    assert x in multiset(b) by { assert x in multiset(a); }
    j :| 0 <= j < |b| && b[j] == x;
    MultisetWithout(a, |a| - 1);
    MultisetWithout(b, j);
    assert a[..|a| - 1] + a[|a|..] == a[..|a| - 1];
    Cancel(multiset(a[..|a| - 1]), multiset(b[..j] + b[j + 1..]), x);
  }

  lemma KeyCountWithout(b: seq<Role>, j: nat)
    requires j < |b|
    ensures |Keys(b)| == |Keys(b[..j] + b[j + 1..])| + |Keys([b[j]])|
  {
    hide Keys;
    assert b == b[..j] + ([b[j]] + b[j + 1..]);
    KeysAppend(b[..j], [b[j]] + b[j + 1..]);
    KeysAppend([b[j]], b[j + 1..]);
    KeysAppend(b[..j], b[j + 1..]);
  }

  lemma {:induction false} KeyCountOfPermutation(a: seq<Role>, b: seq<Role>)
    requires multiset(a) == multiset(b)
    ensures |Keys(a)| == |Keys(b)|
  {
    if a == [] {
      assert |multiset(b)| == |b|;
    } else {
      hide Keys;
      var j := MatchLast(a, b);
      KeyCountWithout(a, |a| - 1);
      KeyCountWithout(b, j);
      assert a[..|a| - 1] + a[|a|..] == a[..|a| - 1];
      KeyCountOfPermutation(a[..|a| - 1], b[..j] + b[j + 1..]);
    }
  }

  // ---------------------------------------------------------------- recased text

  lemma {:induction false} SplitUpper(s: string)
    ensures |Split(Upper(s), '+')| == |Split(s, '+')|
    ensures forall i :: 0 <= i < |Split(s, '+')| ==> Split(Upper(s), '+')[i] == Upper(Split(s, '+')[i])
  {
    if s != [] {
      assert Upper(s)[1..] == Upper(s[1..]);
      SplitUpper(s[1..]);
      var rest, uppers := Split(s[1..], '+'), Split(Upper(s[1..]), '+');
      assert Split(Upper(s), '+') == NextPiece(UpperChar(s[0]), uppers);
      assert Split(s, '+') == NextPiece(s[0], rest);
      NextPieceUpper(s[0], rest, uppers);
    }
  }

  function NextPiece(c: char, pieces: seq<string>): seq<string>
    requires pieces != []
  {
    if c == '+' then [""] + pieces else [[c] + pieces[0]] + pieces[1..]
  }

  lemma NextPieceUpper(c: char, pieces: seq<string>, uppers: seq<string>)
    requires pieces != [] && |uppers| == |pieces| && forall i :: 0 <= i < |pieces| ==> uppers[i] == Upper(pieces[i])
    ensures var r, u := NextPiece(c, pieces), NextPiece(UpperChar(c), uppers);
            |u| == |r| && forall i :: 0 <= i < |r| ==> u[i] == Upper(r[i])
  {
    assert [UpperChar(c)] + uppers[0] == Upper([c] + pieces[0]);
    assert Upper("") == "";
  }

  lemma {:induction false} TrimStartUpper(s: string)
    ensures TrimStart(Upper(s)) == Upper(TrimStart(s))
  {
    if s != [] {
      assert Upper(s)[1..] == Upper(s[1..]);
      TrimStartUpper(s[1..]);
    }
  }

  lemma {:induction false} TrimEndUpper(s: string)
    ensures TrimEnd(Upper(s)) == Upper(TrimEnd(s))
  {
    if s != [] {
      assert Upper(s)[..|s| - 1] == Upper(s[..|s| - 1]);
      TrimEndUpper(s[..|s| - 1]);
    }
  }

  /** One piece's token keeps its role when the piece is put in upper case. */
  lemma PieceUpper(piece: string)
    ensures Trim(Upper(piece)) == "" <==> Trim(piece) == ""
    ensures RoleOf(Trim(Upper(piece))) == RoleOf(Trim(piece))
  {
    hide TrimStart, TrimEnd, ParseKey;
    TrimStartUpper(piece);
    TrimEndUpper(TrimStart(piece));
    UpperTwice(Trim(piece));
  }

  lemma UpperTwice(s: string)
    ensures RoleOf(Upper(s)) == RoleOf(s)
  {
    assert Upper(Upper(s)) == Upper(s);
  }

  lemma RolesCons(first: string, rest: seq<string>)
    ensures Roles([first] + rest) == [RoleOf(first)] + Roles(rest)
  {
  }

  lemma {:induction false} TokensOfUpper(parts: seq<string>, uppers: seq<string>)
    requires |parts| == |uppers| && forall i :: 0 <= i < |parts| ==> uppers[i] == Upper(parts[i])
    ensures Roles(TrimmedNonEmpty(uppers)) == Roles(TrimmedNonEmpty(parts))
  {
    if parts != [] {
      hide RoleOf, Upper, Trim, Roles;
      PieceUpper(parts[0]);
      TokensOfUpper(parts[1..], uppers[1..]);
      RolesCons(Trim(parts[0]), TrimmedNonEmpty(parts[1..]));
      RolesCons(Trim(uppers[0]), TrimmedNonEmpty(uppers[1..]));
    }
  }

  /** Recasing a text leaves the role of each of its tokens alone. */
  lemma RecasedRoles(s: string, t: string)
    requires EqIgnoreCase(s, t)
    ensures Roles(Tokens(s)) == Roles(Tokens(t))
  {
    SplitUpper(s);
    SplitUpper(t);
    TokensOfUpper(Split(s, '+'), Split(Upper(s), '+'));
    TokensOfUpper(Split(t, '+'), Split(Upper(t), '+'));
  }

  /** Reading is indifferent to the order of the tokens. */
  lemma OrderDoesNotMatter(s: string, t: string)
    requires multiset(Roles(Tokens(s))) == multiset(Roles(Tokens(t)))
    ensures Parsed(s).Ok? <==> Parsed(t).Ok?
    ensures Parsed(s).Ok? ==> Parsed(t) == Parsed(s)
  {
    hide Tokens, RoleOf, Refusal, Parsed;
    var a, b := Roles(Tokens(s)), Roles(Tokens(t));
    KeyCountOfPermutation(a, b);
    forall role ensures role in a <==> role in b {
      assert role in a <==> role in multiset(a);
      assert role in b <==> role in multiset(b);
    }
    SucceedsExactly(s);
    SucceedsExactly(t);
    if Parsed(s).Ok? {
      RolesDecide(s, t);
    }
    if Parsed(t).Ok? {
      RolesDecide(t, s);
    }
  }

  /** And to their case. */
  lemma CaseDoesNotMatter(s: string, t: string)
    requires EqIgnoreCase(s, t)
    ensures Parsed(s).Ok? <==> Parsed(t).Ok?
    ensures Parsed(s).Ok? ==> Parsed(t) == Parsed(s)
  {
    RecasedRoles(s, t);
    OrderDoesNotMatter(s, t);
  }

  // ---------------------------------------------------------------- writing a chord

  function KeyText(key: Key): string {
    match key
    case Space => "Space"
    case Letter(c) => [c]
    case Digit(d) => Numeral(d)
    case Function(n) => "F" + Numeral(n)
  }

  /** The modifiers' names, in the order they are written. */
  function ModifierNames(h: Hotkey): seq<string> {
    (if h.ctrl then ["Ctrl"] else []) + (if h.alt then ["Alt"] else [])
    + (if h.shift then ["Shift"] else []) + (if h.win then ["Win"] else [])
  }

  function Displayed(h: Hotkey): string {
    Join(ModifierNames(h) + [KeyText(h.key)], '+')
  }

  /** What the loop over the modifiers has written once it has written `names`. */
  function Written(names: seq<string>): string {
    if names == [] then "" else Written(names[..|names| - 1]) + names[|names| - 1] + "+"
  }

  function HeldNames(table: seq<(bool, string)>): seq<string> {
    if table == [] then []
    else HeldNames(table[..|table| - 1]) + if table[|table| - 1].0 then [table[|table| - 1].1] else []
  }

  lemma {:induction false} WrittenIsJoined(names: seq<string>, last: string)
    ensures Written(names) + last == Join(names + [last], '+')
  {
    if names == [] {
      assert "" + last == last && [] + [last] == [last];
    } else {
      var n := |names| - 1;
      WrittenIsJoined(names[..n], names[n] + "+" + last);
      assert Written(names) + last == Written(names[..n]) + (names[n] + "+" + last);
      JoinLast(names[..n], names[n], last);
      assert names + [last] == names[..n] + [names[n], last];
    }
  }

  lemma {:induction false} JoinLast(front: seq<string>, a: string, b: string)
    ensures Join(front + [a + "+" + b], '+') == Join(front + [a, b], '+')
  {
    if front != [] {
      JoinLast(front[1..], a, b);
      assert (front + [a + "+" + b])[1..] == front[1..] + [a + "+" + b];
      assert (front + [a, b])[1..] == front[1..] + [a, b];
    }
  }

  lemma NextName(table: seq<(bool, string)>, row: (bool, string))
    ensures HeldNames(table + [row]) == HeldNames(table) + if row.0 then [row.1] else []
    ensures Written(HeldNames(table + [row])) == Written(HeldNames(table)) + if row.0 then row.1 + "+" else ""
  {
    var names := HeldNames(table);
    assert (table + [row])[..|table|] == table;
    if row.0 {
      assert (names + [row.1])[..|names|] == names;
      assert Written(names) + row.1 + "+" == Written(names) + (row.1 + "+");
    } else {
      assert names + [] == names && Written(names) + "" == Written(names);
    }
  }

  method Display(h: Hotkey) returns (text: string)
    ensures text == Displayed(h)
  {
    var table := [(h.ctrl, "Ctrl"), (h.alt, "Alt"), (h.shift, "Shift"), (h.win, "Win")];
    text := "";
    for i := 0 to |table|
      invariant text == Written(HeldNames(table[..i]))
    {
      assert table[..i + 1] == table[..i] + [table[i]];
      NextName(table[..i], table[i]);
      if table[i].0 {
        text := text + (table[i].1 + "+");
      }
    }
    assert table[..|table|] == table;
    HeldNamesOf(h);
    WrittenIsJoined(ModifierNames(h), KeyText(h.key));
    text := text + KeyText(h.key);
  }

  lemma HeldNamesOf(h: Hotkey)
    ensures HeldNames([(h.ctrl, "Ctrl"), (h.alt, "Alt"), (h.shift, "Shift"), (h.win, "Win")]) == ModifierNames(h)
  {
    var a, b, c, d := (h.ctrl, "Ctrl"), (h.alt, "Alt"), (h.shift, "Shift"), (h.win, "Win");
    assert [] + [a] + [b] + [c] + [d] == [a, b, c, d];
    NextName([], a);
    NextName([] + [a], b);
    NextName([] + [a] + [b], c);
    NextName([] + [a] + [b] + [c], d);
  }

  /** What is written: each modifier held, in this order and with a plus sign after it, and the key. */
  lemma DisplayedExactly(h: Hotkey)
    ensures Displayed(h)
         == (if h.ctrl then "Ctrl+" else "") + (if h.alt then "Alt+" else "") + (if h.shift then "Shift+" else "")
            + (if h.win then "Win+" else "") + KeyText(h.key)
  {
    hide KeyText, Written, Join, HeldNames, ModifierNames;
    WrittenIsJoined(ModifierNames(h), KeyText(h.key));
    HeldNamesOf(h);
    WrittenNames((h.ctrl, "Ctrl"), (h.alt, "Alt"), (h.shift, "Shift"), (h.win, "Win"));
  }

  lemma WrittenNames(a: (bool, string), b: (bool, string), c: (bool, string), d: (bool, string))
    ensures Written(HeldNames([a, b, c, d]))
         == (if a.0 then a.1 + "+" else "") + (if b.0 then b.1 + "+" else "") + (if c.0 then c.1 + "+" else "")
            + (if d.0 then d.1 + "+" else "")
  {
    hide Written, HeldNames;
    assert [] + [a] + [b] + [c] + [d] == [a, b, c, d];
    NothingWritten();
    NextName([], a);
    NextName([] + [a], b);
    NextName([] + [a] + [b], c);
    NextName([] + [a] + [b] + [c], d);
  }

  lemma NothingWritten()
    ensures Written(HeldNames([])) == ""
  {
  }

  /** How each key is written. */
  lemma KeyTexts(key: Key)
    ensures match key
            case Space => KeyText(key) == "Space"
            case Letter(c) => KeyText(key) == [c]
            case Digit(d) => d < 10 ==> KeyText(key) == [(0x30 + d) as char]
            case Function(n) => |KeyText(key)| > 1 && KeyText(key)[0] == 'F' && AllDigits(KeyText(key)[1..]) && Value(KeyText(key)[1..]) == n
  {
    hide Value;
    if key.Function? {
      ValueOfNumeral(key.n);
      hide Numeral;
      assert KeyText(key)[1..] == Numeral(key.n);
    }
  }

  // ---------------------------------------------------------------- the round trip

  /** A key is read back from its own name, in any company: all but the letter F, which is taken for a function key. */
  lemma KeyReadBack(key: Key)
    requires key.Valid()
    ensures ParseKey(KeyText(key)) == if key == Letter('F') then None else Some(key)
    ensures key != Letter('F') ==> RoleOf(KeyText(key)) == AKey(key)
  {
    var text := KeyText(key);
    match key {
      case Space => assert Upper(text) == "SPACE";
      case Letter(c) => assert Upper(text) == text;
      case Digit(d) => assert Upper(text) == text == [DigitChar(d)];
      case Function(n) => FunctionReadBack(n);
    }
  }

  lemma FunctionReadBack(n: nat)
    requires 1 <= n <= 24
    ensures var text := "F" + Numeral(n); ParseKey(text) == Some(Function(n)) && RoleOf(text) == AKey(Function(n))
  {
    hide Value, Numeral;
    var text := "F" + Numeral(n);
    assert Upper(text) == text && text[1..] == Numeral(n);
    ValueOfNumeral(n);
  }

  /** Whatever names a key names a valid one, and never the letter F. */
  lemma ParsedKeyValid(token: string)
    requires ParseKey(token).Some?
    ensures ParseKey(token).value.Valid() && ParseKey(token).value != Letter('F')
  {
  }

  lemma KeyTextPlain(key: Key)
    requires key.Valid()
    ensures var text := KeyText(key);
            text != "" && '+' !in text && !IsWhitespace(text[0]) && !IsWhitespace(text[|text| - 1])
  {
    if key.Function? {
      var digits := Numeral(key.n);
      assert forall i :: 0 <= i < |KeyText(key)| ==> KeyText(key)[i] == if i == 0 then 'F' else digits[i - 1];
    }
  }

  lemma {:induction false} NothingToTrim(parts: seq<string>)
    requires forall i :: 0 <= i < |parts| ==>
               parts[i] != "" && !IsWhitespace(parts[i][0]) && !IsWhitespace(parts[i][|parts[i]| - 1])
    ensures TrimmedNonEmpty(parts) == parts
  {
    if parts != [] {
      TrimNothing(parts[0]);
      NothingToTrim(parts[1..]);
      assert parts == [parts[0]] + parts[1..];
    }
  }

  lemma TokensDisplayed(h: Hotkey)
    requires h.key.Valid()
    ensures Tokens(Displayed(h)) == ModifierNames(h) + [KeyText(h.key)]
  {
    hide Trim, Split, Join, KeyText;
    KeyTextPlain(h.key);
    var parts := ModifierNames(h) + [KeyText(h.key)];
    forall i | 0 <= i < |parts|
      ensures parts[i] != "" && '+' !in parts[i] && !IsWhitespace(parts[i][0]) && !IsWhitespace(parts[i][|parts[i]| - 1])
    {
      assert parts[i] == KeyText(h.key) || parts[i] in ["Ctrl", "Alt", "Shift", "Win"];
    }
    SplitOfJoin(parts, '+');
    NothingToTrim(parts);
  }

  lemma ModifierNamesMean()
    ensures RoleOf("Ctrl") == Ctrl && RoleOf("Alt") == Alt && RoleOf("Shift") == Shift && RoleOf("Win") == Win
  {
    assert Upper("Ctrl") == "CTRL" && Upper("Alt") == "ALT" && Upper("Shift") == "SHIFT" && Upper("Win") == "WIN";
  }

  lemma RolesOfOne(held: bool, name: string)
    ensures Roles(if held then [name] else []) == if held then [RoleOf(name)] else []
  {
  }

  lemma RolesAppend(a: seq<string>, b: seq<string>)
    ensures Roles(a + b) == Roles(a) + Roles(b)
  {
  }

  function ModifierRoles(h: Hotkey): seq<Role> {
    (if h.ctrl then [Ctrl] else []) + (if h.alt then [Alt] else [])
    + (if h.shift then [Shift] else []) + (if h.win then [Win] else [])
  }

  lemma NamedModifierRoles(h: Hotkey)
    ensures Roles(ModifierNames(h)) == ModifierRoles(h)
  {
    hide RoleOf, Roles;
    ModifierNamesMean();
    var a, b := if h.ctrl then ["Ctrl"] else [], if h.alt then ["Alt"] else [];
    var c, d := if h.shift then ["Shift"] else [], if h.win then ["Win"] else [];
    RolesOfOne(h.ctrl, "Ctrl");
    RolesOfOne(h.alt, "Alt");
    RolesOfOne(h.shift, "Shift");
    RolesOfOne(h.win, "Win");
    RolesAppend(a + b + c, d);
    RolesAppend(a + b, c);
    RolesAppend(a, b);
  }

  lemma InOneOfFour(role: Role, a: seq<Role>, b: seq<Role>, c: seq<Role>, d: seq<Role>)
    ensures role in a + b + c + d <==> role in a || role in b || role in c || role in d
  {
    assert role in a + b + c + d <==> role in a + b + c || role in d;
    assert role in a + b + c <==> role in a + b || role in c;
  }

  lemma RoleHeld(h: Hotkey, role: Role)
    ensures role in ModifierRoles(h) <==>
            (h.ctrl && role == Ctrl) || (h.alt && role == Alt) || (h.shift && role == Shift) || (h.win && role == Win)
  {
    InOneOfFour(role, if h.ctrl then [Ctrl] else [], if h.alt then [Alt] else [],
                if h.shift then [Shift] else [], if h.win then [Win] else []);
  }

  lemma KeysHeld(h: Hotkey)
    ensures Keys(ModifierRoles(h) + [AKey(h.key)]) == [h.key]
  {
    hide ModifierRoles;
    var held := ModifierRoles(h);
    forall i | 0 <= i < |held| ensures IsModifier(held[i]) {
      RoleHeld(h, held[i]);
    }
    NoKeysNamed(held);
    KeysAppend(held, [AKey(h.key)]);
  }

  lemma ModifiersHeld(h: Hotkey, roles: seq<Role>)
    requires roles == ModifierRoles(h) + [AKey(h.key)]
    ensures Keys(roles) == [h.key] && Unknown !in roles && Chord(roles, h.key) == h
  {
    hide ModifierRoles, Keys;
    KeysHeld(h);
    RoleHeld(h, Unknown);
    RoleHeld(h, Ctrl);
    RoleHeld(h, Alt);
    RoleHeld(h, Shift);
    RoleHeld(h, Win);
  }

  lemma RolesDisplayed(h: Hotkey)
    requires h.key.Valid() && h.key != Letter('F')
    ensures Roles(ModifierNames(h) + [KeyText(h.key)]) == ModifierRoles(h) + [AKey(h.key)]
  {
    hide RoleOf, KeyText;
    KeyReadBack(h.key);
    NamedModifierRoles(h);
    RolesAppend(ModifierNames(h), [KeyText(h.key)]);
  }

  /** Every chord with a modifier and a valid key other than the letter F is read back from its display. */
  lemma DisplayReadsBack(h: Hotkey)
    requires h.key.Valid() && h.key != Letter('F') && h.HasModifier()
    ensures Parsed(Displayed(h)) == Ok(h)
  {
    hide Tokens, RoleOf, Displayed, Parsed, ModifierNames, KeyText;
    TokensDisplayed(h);
    RolesDisplayed(h);
    var roles := ModifierRoles(h) + [AKey(h.key)];
    ModifiersHeld(h, roles);
    SucceedsExactly(Displayed(h));
    assert IsModifier(roles[0]);
  }

  /** The chords some text reads as are exactly those: and so every chord ever read survives being written. */
  lemma ReadChords(text: string)
    requires Parsed(text).Ok?
    ensures var h := Parsed(text).value;
            && h.key.Valid() && h.key != Letter('F') && h.HasModifier()
            && Parsed(Displayed(h)) == Ok(h)
  {
    hide Tokens, Displayed, KeyText;
    var tokens := Tokens(text);
    var roles := Roles(tokens);
    var h := Parsed(text).value;
    NamedKeysAreRoles(roles, h.key);
    var i :| 0 <= i < |roles| && roles[i] == AKey(h.key);
    ParsedKeyValid(tokens[i]);
    DisplayReadsBack(h);
  }

  /** A chord on the letter F is shown as text that is refused. */
  lemma LetterFIsRefused(h: Hotkey)
    requires h.key == Letter('F')
    ensures Parsed(Displayed(h)).Err?
  {
    hide Tokens, RoleOf, Displayed, Parsed;
    TokensDisplayed(h);
    LoneFIsUnknown();
    var tokens := ModifierNames(h) + ["F"];
    assert Roles(tokens)[|tokens| - 1] == RoleOf("F");
    SucceedsExactly(Displayed(h));
  }

  /** Which valid chords round-trip through their own display: all but those on the letter F. */
  lemma RoundTripsUnlessLetterF(h: Hotkey)
    requires h.key.Valid() && (h.ctrl || h.alt || h.shift || h.win)
    ensures Parsed(Displayed(h)) == Ok(h) <==> h.key != Letter('F')
  {
    if h.key == Letter('F') {
      LetterFIsRefused(h);
    } else {
      DisplayReadsBack(h);
    }
  }

  lemma LoneFIsUnknown()
    ensures KeyText(Letter('F')) == "F" && RoleOf("F") == Unknown
  {
    assert Upper("F") == "F";
  }

  // ---------------------------------------------------------------- what is registered

  /** The Win32 virtual-key code. */
  function VirtualKey(key: Key): int {
    match key
    case Space => 0x20
    case Letter(c) => c as int
    case Digit(d) => '0' as int + d
    case Function(n) => 0x70 + n - 1
  }

  /** The codes Windows documents: 0x20 for the bar, the characters' own for letters and digits, 0x70 to 0x87 for F1 to F24. */
  lemma VirtualKeys(key: Key, code: int)
    requires key.Valid() && VirtualKey(key) == code
    ensures code == 0x20 <==> key == Space
    ensures 0x30 <= code <= 0x39 <==> key.Digit?
    ensures 0x41 <= code <= 0x5A <==> key.Letter?
    ensures 0x70 <= code <= 0x87 <==> key.Function?
    ensures key.Digit? ==> key.d == code - 0x30
    ensures key.Letter? ==> key.c == code as char
    ensures key.Function? ==> key.n == code - 0x6F
  {
  }

  const MOD_ALT: bv32 := 0x0001
  const MOD_CONTROL: bv32 := 0x0002
  const MOD_SHIFT: bv32 := 0x0004
  const MOD_WIN: bv32 := 0x0008
  const MOD_NOREPEAT: bv32 := 0x4000

  function ModifierTable(h: Hotkey): seq<(bool, bv32)> {
    [(h.alt, MOD_ALT), (h.ctrl, MOD_CONTROL), (h.shift, MOD_SHIFT), (h.win, MOD_WIN)]
  }

  /** The bits of the modifiers held, or-ed onto `MOD_NOREPEAT`. */
  function Bits(table: seq<(bool, bv32)>): bv32 {
    if table == [] then MOD_NOREPEAT
    else
      var before := Bits(table[..|table| - 1]);
      if table[|table| - 1].0 then before | table[|table| - 1].1 else before
  }

  method Modifiers(h: Hotkey) returns (bits: bv32)
    ensures bits == Bits(ModifierTable(h))
  {
    var table := ModifierTable(h);
    bits := MOD_NOREPEAT;
    for i := 0 to |table|
      invariant bits == Bits(table[..i])
    {
      assert table[..i + 1][..i] == table[..i];
      if table[i].0 {
        bits := bits | table[i].1;
      }
    }
    assert table[..|table|] == table;
  }

  lemma BitsUnrolled(h: Hotkey)
    ensures Bits(ModifierTable(h))
         == MOD_NOREPEAT | (if h.alt then MOD_ALT else 0) | (if h.ctrl then MOD_CONTROL else 0)
            | (if h.shift then MOD_SHIFT else 0) | (if h.win then MOD_WIN else 0)
  {
    var t := ModifierTable(h);
    assert t[..3][..2] == t[..2] && t[..2][..1] == t[..1] && t[..1][..0] == [];
    assert Bits(t[..1]) == MOD_NOREPEAT | if h.alt then MOD_ALT else 0;
    assert Bits(t[..2]) == Bits(t[..1]) | if h.ctrl then MOD_CONTROL else 0;
    assert Bits(t[..3]) == Bits(t[..2]) | if h.shift then MOD_SHIFT else 0;
  }

  /** Each modifier can be read off its own bit, and repeats are always suppressed. */
  lemma BitsExact(h: Hotkey)
    ensures var bits := Bits(ModifierTable(h));
            && (bits & 1 != 0 <==> h.alt) && (bits & 2 != 0 <==> h.ctrl)
            && (bits & 4 != 0 <==> h.shift) && (bits & 8 != 0 <==> h.win)
            && bits & 0xFFFF_FFF0 == 0x4000
  {
    hide Bits;
    BitsUnrolled(h);
  }

  /** What is registered determines the chord. */
  lemma RegistrationDeterminesChord(h: Hotkey, g: Hotkey)
    requires h.key.Valid() && g.key.Valid()
    requires Bits(ModifierTable(h)) == Bits(ModifierTable(g)) && VirtualKey(h.key) == VirtualKey(g.key)
    ensures h == g
  {
    hide Bits;
    BitsExact(h);
    BitsExact(g);
  }
}
