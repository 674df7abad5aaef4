/**
 The line scanner of scripts/check-phase-stamps.py: which lines of a Rust source belong to an item
 under a test attribute, and which phase stamps are left outside of them.
 */
module PhaseStamps {
  import opened Wrappers
  import Text

  // ---------------------------------------------------------------- comments

  datatype Mode = Code | InString | Escaped

  /** The scanner's state after the first `i` characters, were there no comment. */
  function ModeAt(line: string, i: nat): Mode
    requires i <= |line|
  {
    if i == 0 then Code
    else match ModeAt(line, i - 1)
      case Escaped => InString
      case InString => if line[i - 1] == '\\' then Escaped else if line[i - 1] == '"' then Code else InString
      case Code => if line[i - 1] == '"' then InString else Code
  }

  /** An unquoted `//` starts at `i`. */
  predicate CommentAt(line: string, i: nat) {
    i + 1 < |line| && line[i] == '/' && line[i + 1] == '/' && ModeAt(line, i) == Code
  }

  function CommentFrom(line: string, i: nat): (n: nat)
    requires i <= |line|
    ensures i <= n <= |line|
    ensures n == |line| || CommentAt(line, n)
    ensures forall j :: i <= j < n ==> !CommentAt(line, j)
    decreases |line| - i
  {
    if i == |line| || CommentAt(line, i) then i else CommentFrom(line, i + 1)
  }

  /** The line up to its first unquoted `//`. */
  function Stripped(line: string): string {
    line[..CommentFrom(line, 0)]
  }

  method StripLineComment(line: string) returns (code: string)
    ensures code == Stripped(line)
  {
    var inString, escaped := false, false;
    for i := 0 to |line|
      invariant ModeAt(line, i) == (if !inString then Code else if escaped then Escaped else InString)
      invariant escaped ==> inString
      invariant forall j :: 0 <= j < i ==> !CommentAt(line, j)
    {
      var ch := line[i];
      if inString {
        if escaped {
          escaped := false;
        } else if ch == '\\' {
          escaped := true;
        } else if ch == '"' {
          inString := false;
        }
      } else {
        if ch == '"' {
          inString := true;
        } else if ch == '/' && i + 1 < |line| && line[i + 1] == '/' {
          assert CommentAt(line, i);
          return line[..i];
        }
      }
    }
    assert line[..|line|] == line;
    return line;
  }

  lemma {:induction false} ModeOfPrefix(line: string, n: nat, i: nat)
    requires i <= n <= |line|
    ensures ModeAt(line[..n], i) == ModeAt(line, i)
  {
    if i > 0 {
      ModeOfPrefix(line, n, i - 1);
    }
  }

  /** Stripping leaves no unquoted `//`, cuts nowhere but at one, and has nothing left to do a second time. */
  lemma StrippingIsIdempotent(line: string)
    ensures var code := Stripped(line);
            && (forall i :: !CommentAt(code, i))
            && (code == line || CommentAt(line, |code|))
            && Stripped(code) == code
  {
    var code := Stripped(line);
    forall i: nat ensures !CommentAt(code, i) {
      if CommentAt(code, i) {
        ModeOfPrefix(line, |code|, i);
        assert CommentAt(line, i);
      }
    }
  }

  // ---------------------------------------------------------------- what is outside of strings

  /** A string's body: plain characters, and backslashes each with the character after it. */
  ghost predicate IsBody(line: string, lo: nat, hi: nat)
    requires lo <= hi <= |line|
    decreases hi - lo
  {
    || lo == hi
    || (line[lo] != '"' && line[lo] != '\\' && IsBody(line, lo + 1, hi))
    || (line[lo] == '\\' && lo + 2 <= hi && IsBody(line, lo + 2, hi))
  }

  /** A stretch in which every string that opens also closes: plain characters, and whole strings. */
  ghost predicate IsOutside(line: string, lo: nat, hi: nat)
    requires lo <= hi <= |line|
    decreases hi - lo
  {
    || lo == hi
    || (line[lo] != '"' && IsOutside(line, lo + 1, hi))
    || (exists q :: && lo < q < hi && line[lo] == '"' && IsBody(line, lo + 1, q) && line[q] == '"'
                    && IsOutside(line, q + 1, hi))
  }

  /** A stretch that ends inside the string opened last. */
  ghost predicate IsInside(line: string, hi: nat)
    requires hi <= |line|
  {
    exists q :: 0 <= q < hi && IsOutside(line, 0, q) && line[q] == '"' && IsBody(line, q + 1, hi)
  }

  lemma {:induction false} BodyGrows(line: string, lo: nat, mid: nat, hi: nat)
    requires lo <= mid <= hi <= |line| && IsBody(line, lo, mid) && IsBody(line, mid, hi)
    ensures IsBody(line, lo, hi)
    decreases hi - lo
  {
    if lo < mid {
      BodyGrows(line, if line[lo] == '\\' then lo + 2 else lo + 1, mid, hi);
    }
  }

  lemma {:induction false} OutsideGrows(line: string, lo: nat, mid: nat, hi: nat)
    requires lo <= mid <= hi <= |line| && IsOutside(line, lo, mid) && IsOutside(line, mid, hi)
    ensures IsOutside(line, lo, hi)
    decreases hi - lo
  {
    hide IsOutside, IsBody;
    if lo < mid {
      if line[lo] != '"' {
        PlainFirst(line, lo, mid);
        OutsideGrows(line, lo + 1, mid, hi);
        PlainFirst(line, lo, hi);
      } else {
        var q := StringAt(line, lo, mid);
        OutsideGrows(line, q + 1, mid, hi);
        StringFirst(line, lo, q, hi);
      }
    }
  }

  lemma StringAt(line: string, lo: nat, hi: nat) returns (q: nat)
    requires lo < hi <= |line| && IsOutside(line, lo, hi) && line[lo] == '"'
    ensures lo < q < hi && IsBody(line, lo + 1, q) && line[q] == '"' && IsOutside(line, q + 1, hi)
  {
    hide IsBody;
    q :| lo < q < hi && IsBody(line, lo + 1, q) && line[q] == '"' && IsOutside(line, q + 1, hi);
  }

  lemma StringFirst(line: string, lo: nat, q: nat, hi: nat)
    requires lo < q < hi <= |line| && line[lo] == '"' && IsBody(line, lo + 1, q) && line[q] == '"' && IsOutside(line, q + 1, hi)
    ensures IsOutside(line, lo, hi)
  {
    hide IsBody;
  }

  lemma PlainFirst(line: string, lo: nat, hi: nat)
    requires lo < hi <= |line| && line[lo] != '"'
    ensures IsOutside(line, lo, hi) <==> IsOutside(line, lo + 1, hi)
  {
    hide IsBody;
  }

  lemma NothingOutside(line: string, at: nat)
    requires at <= |line|
    ensures IsOutside(line, at, at)
  {
  }

  /** What the scanner's three states say of the text behind it. */
  lemma {:induction false} ModeMeans(line: string, i: nat)
    requires i <= |line|
    ensures match ModeAt(line, i)
            case Code => IsOutside(line, 0, i)
            case InString => IsInside(line, i)
            case Escaped => i > 0 && line[i - 1] == '\\' && IsInside(line, i - 1)
  {
    if i > 0 {
      ModeMeans(line, i - 1);
      match ModeAt(line, i - 1) {
        case Code => FromOutside(line, i);
        case InString => FromInside(line, i);
        case Escaped => Unescaped(line, i);
      }
    }
  }

  lemma FromOutside(line: string, i: nat)
    requires 0 < i <= |line| && IsOutside(line, 0, i - 1)
    ensures if line[i - 1] == '"' then IsInside(line, i) else IsOutside(line, 0, i)
  {
    if line[i - 1] == '"' {
      assert IsBody(line, i, i);
    } else {
      assert IsOutside(line, i - 1, i);
      OutsideGrows(line, 0, i - 1, i);
    }
  }

  lemma FromInside(line: string, i: nat)
    requires 0 < i <= |line| && IsInside(line, i - 1)
    ensures line[i - 1] == '"' ==> IsOutside(line, 0, i)
    ensures line[i - 1] != '"' && line[i - 1] != '\\' ==> IsInside(line, i)
  {
    var q :| 0 <= q < i - 1 && IsOutside(line, 0, q) && line[q] == '"' && IsBody(line, q + 1, i - 1);
    if line[i - 1] == '"' {
      NothingOutside(line, i);
      StringFirst(line, q, i - 1, i);
      OutsideGrows(line, 0, q, i);
    } else if line[i - 1] != '\\' {
      assert IsBody(line, i - 1, i);
      BodyGrows(line, q + 1, i - 1, i);
    }
  }

  lemma Unescaped(line: string, i: nat)
    requires 1 < i <= |line| && line[i - 2] == '\\' && IsInside(line, i - 2)
    ensures IsInside(line, i)
  {
    var q :| 0 <= q < i - 2 && IsOutside(line, 0, q) && line[q] == '"' && IsBody(line, q + 1, i - 2);
    assert IsBody(line, i, i) && IsBody(line, i - 2, i);
    BodyGrows(line, q + 1, i - 2, i);
  }

  /** From inside a string, a body leads back inside it. */
  lemma {:induction false} BodyStaysInside(line: string, lo: nat, hi: nat)
    requires lo <= hi <= |line| && IsBody(line, lo, hi) && ModeAt(line, lo) == InString
    ensures ModeAt(line, hi) == InString
    decreases hi - lo
  {
    if lo < hi {
      if line[lo] == '\\' {
        assert ModeAt(line, lo + 1) == Escaped;
        BodyStaysInside(line, lo + 2, hi);
      } else {
        BodyStaysInside(line, lo + 1, hi);
      }
    }
  }

  /** From outside of strings, whole strings and plain characters lead back outside. */
  lemma {:induction false} OutsideStaysOutside(line: string, lo: nat, hi: nat)
    requires lo <= hi <= |line| && IsOutside(line, lo, hi) && ModeAt(line, lo) == Code
    ensures ModeAt(line, hi) == Code
    decreases hi - lo
  {
    if lo < hi {
      if line[lo] != '"' {
        OutsideStaysOutside(line, lo + 1, hi);
      } else {
        var q := StringAt(line, lo, hi);
        BodyStaysInside(line, lo + 1, q);
        OutsideStaysOutside(line, q + 1, hi);
      }
    }
  }

  /** A double slash at `i` with no string left open before it. */
  ghost predicate StartsComment(line: string, i: nat) {
    i + 1 < |line| && line[i] == '/' && line[i + 1] == '/' && IsOutside(line, 0, i)
  }

  lemma CommentExactly(line: string, i: nat)
    ensures CommentAt(line, i) <==> StartsComment(line, i)
  {
    if i <= |line| {
      ModeMeans(line, i);
      if IsOutside(line, 0, i) {
        OutsideStaysOutside(line, 0, i);
      }
    }
  }

  // ---------------------------------------------------------------- one line

  /** `str.isspace` on one character. */
  predicate IsSpace(c: char) {
    var v := c as int;
    || 0x09 <= v <= 0x0D || 0x1C <= v <= 0x20 || v == 0x85 || v == 0xA0 || v == 0x1680
    || 0x2000 <= v <= 0x200A || v == 0x2028 || v == 0x2029 || v == 0x202F || v == 0x205F || v == 0x3000
  }

  /** Python's white space is Unicode's and the four information separators. */
  lemma SpaceExactly(c: char)
    ensures IsSpace(c) <==> Text.IsWhitespace(c) || 0x1C <= c as int <= 0x1F
  {
  }

  function LeftStrip(s: string): string {
    if s != [] && IsSpace(s[0]) then LeftStrip(s[1..]) else s
  }

  function RightStrip(s: string): string {
    if s != [] && IsSpace(s[|s| - 1]) then RightStrip(s[..|s| - 1]) else s
  }

  /** `TEST_ATTR_RE` at the start of a stripped line; `isWord` is the regular expression engine's `\w`. */
  predicate IsTestAttr(isWord: char -> bool, s: string) {
    |s| >= 2 && s[..2] == "#[" &&
    var t := LeftStrip(s[2..]);
    || (|t| >= 9 && t[..9] == "cfg(test)")
    || (|t| >= 4 && t[..4] == "test" && (|t| == 4 || !isWord(t[4])))
  }

  predicate Spaces(s: string) {
    forall i :: 0 <= i < |s| ==> IsSpace(s[i])
  }

  lemma {:induction false} LeftStripExactly(s: string) returns (n: nat)
    ensures n <= |s| && LeftStrip(s) == s[n..] && forall i :: 0 <= i < n ==> IsSpace(s[i])
    ensures n < |s| ==> !IsSpace(s[n])
  {
    hide IsSpace;
    if s != [] && IsSpace(s[0]) {
      var m := LeftStripExactly(s[1..]);
      n := m + 1;
      assert forall i :: 1 <= i < n ==> s[i] == s[1..][i - 1];
    } else {
      n := 0;
    }
  }

  lemma {:induction false} RightStripExactly(s: string) returns (n: nat)
    ensures n <= |s| && RightStrip(s) == s[..n] && forall i :: n <= i < |s| ==> IsSpace(s[i])
    ensures n > 0 ==> !IsSpace(s[n - 1])
  {
    hide IsSpace;
    if s != [] && IsSpace(s[|s| - 1]) {
      n := RightStripExactly(s[..|s| - 1]);
    } else {
      n := |s|;
    }
  }

  /** A test attribute: `#[`, white space up to `n`, and there either `cfg(test)` or the whole word `test`. */
  ghost predicate StartsWithTestAttr(isWord: char -> bool, s: string) {
    exists n: nat :: AttrBodyAt(isWord, s, n)
  }

  predicate AttrBodyAt(isWord: char -> bool, s: string, n: nat) {
    && 2 <= n <= |s| && s[..2] == "#[" && Spaces(s[2..n])
    && (|| "cfg(test)" <= s[n..]
        || ("test" <= s[n..] && (n + 4 == |s| || !isWord(s[n + 4]))))
  }

  lemma TestAttrExactly(isWord: char -> bool, s: string)
    ensures IsTestAttr(isWord, s) <==> StartsWithTestAttr(isWord, s)
  {
    if |s| >= 2 {
      var n := LeftStripExactly(s[2..]);
      TestAttrAt(isWord, s, n + 2);
      forall m: nat | AttrBodyAt(isWord, s, m) ensures m == n + 2 {
        SpacesEnd(isWord, s, m, n + 2);
      }
    }
  }

  lemma TestAttrAt(isWord: char -> bool, s: string, n: nat)
    requires 2 <= n <= |s| && LeftStrip(s[2..]) == s[2..][n - 2..] && forall i :: 0 <= i < n - 2 ==> IsSpace(s[2..][i])
    ensures IsTestAttr(isWord, s) <==> AttrBodyAt(isWord, s, n)
  {
    hide IsSpace, LeftStrip;
    assert s[2..][n - 2..] == s[n..];
    assert Spaces(s[2..n]) by {
      assert forall i :: 0 <= i < n - 2 ==> s[2..n][i] == s[2..][i];
    }
  }

  /** White space is followed by one of the two words at one place only. */
  lemma SpacesEnd(isWord: char -> bool, s: string, m: nat, n: nat)
    requires AttrBodyAt(isWord, s, m) && 2 <= n <= |s|
    requires forall i :: 0 <= i < n - 2 ==> IsSpace(s[2..][i])
    requires n < |s| ==> !IsSpace(s[2..][n - 2])
    ensures m == n
  {
    assert s[m] == 'c' || s[m] == 't';
    assert !IsSpace(s[m]);
    assert forall j :: 2 <= j < |s| ==> s[j] == s[2..][j - 2];
    assert forall j :: 2 <= j < m ==> s[j] == s[2..m][j - 2];
  }

  /** `str.find` of one character: its first position, or -1. */
  function Find(s: string, c: char): (i: int)
    ensures -1 <= i < |s|
    ensures i == -1 ==> c !in s
    ensures i >= 0 ==> s[i] == c && c !in s[..i]
  {
    if s == [] then -1
    else if s[0] == c then 0
    else
      var i := Find(s[1..], c);
      assert forall j :: 1 <= j < |s| ==> s[j] == s[1..][j - 1];
      if i == -1 then -1 else i + 1
  }

  function Count(s: string, c: char): nat {
    if s == [] then 0 else (if s[0] == c then 1 else 0) + Count(s[1..], c)
  }

  /** The lines of a file, and what counts as the word characters of its attributes. */
  datatype File = File(lines: seq<string>, isWord: char -> bool) {

    function CodeAt(i: nat): string
      requires i < |lines|
    {
      Stripped(lines[i])
    }

    /** Line `i` starts with a test attribute. */
    predicate Attr(i: nat)
      requires i < |lines|
    {
      IsTestAttr(isWord, RightStrip(LeftStrip(CodeAt(i))))
    }

    /** A brace comes on line `i`, before any semicolon. */
    predicate OpensScope(i: nat)
      requires i < |lines|
    {
      var brace, semi := Find(CodeAt(i), '{'), Find(CodeAt(i), ';');
      brace != -1 && (semi == -1 || brace < semi)
    }

    /** Line `i` decides an attributed item's shape: it has a brace or a semicolon. */
    predicate Decides(i: nat)
      requires i < |lines|
    {
      OpensScope(i) || ';' in CodeAt(i)
    }

    function Net(i: nat): int
      requires i < |lines|
    {
      Count(CodeAt(i), '{') - Count(CodeAt(i), '}')
    }

    /** The net brace count of lines `lo` up to but not including `hi`. */
    function Balance(lo: nat, hi: nat): int
      requires lo <= hi <= |lines|
    {
      if lo == hi then 0 else Balance(lo, hi - 1) + Net(hi - 1)
    }

    // ------------------------------------------------------------ the marked lines, item by item

    /** The first deciding line from `i` on, or the end of the file. */
    function Deciding(i: nat): (k: nat)
      requires i <= |lines|
      ensures i <= k <= |lines|
      ensures k < |lines| ==> Decides(k)
      ensures forall j :: i <= j < k ==> !Decides(j)
      decreases |lines| - i
    {
      if i == |lines| || Decides(i) then i else Deciding(i + 1)
    }

    /** Where the scope whose balance is `open` before line `j` ends: past the line that closes it. */
    function Closing(j: nat, open: int): (end: nat)
      requires j <= |lines|
      ensures j <= end <= |lines|
      decreases |lines| - j
    {
      if j == |lines| then j
      else if open + Net(j) <= 0 then j + 1
      else Closing(j + 1, open + Net(j))
    }

    /** Where the item whose attribute is on line `i` ends, given its deciding line `k`. */
    function ItemEnd(k: nat): (end: nat)
      requires k < |lines|
      ensures k < end <= |lines|
    {
      if OpensScope(k) then Closing(k, 0) else k + 1
    }

    function Marks(i: nat): set<nat>
      requires i <= |lines|
      decreases |lines| - i
    {
      if i == |lines| then {}
      else if !Attr(i) then Marks(i + 1)
      else
        var k := Deciding(i);
        if k == |lines| then {} else Range(i, ItemEnd(k)) + Marks(ItemEnd(k))
    }
  }

  /** The line numbers from `lo` up to but not including `hi`. */
  function Range(lo: nat, hi: nat): (r: set<nat>)
    ensures forall x :: x in r <==> lo <= x < hi
    decreases hi
  {
    if lo >= hi then {} else Range(lo, hi - 1) + {hi - 1}
  }

  // ---------------------------------------------------------------- the scan

  /** What is still to be marked from line `i` on: idle, with an attribute pending, or inside a scope. */
  ghost function Rest(f: File, i: nat, armed: Option<nat>, open: Option<int>): set<nat>
    requires i <= |f.lines| && (armed.Some? ==> armed.value <= i)
  {
    if open.Some? then Range(i, f.Closing(i, open.value)) + f.Marks(f.Closing(i, open.value))
    else if armed.Some? then f.Marks(armed.value)
    else f.Marks(i)
  }

  ghost predicate Pending(f: File, i: nat, a: nat) {
    a <= i <= |f.lines| && a < |f.lines| && f.Attr(a) && f.Deciding(a) == f.Deciding(i)
  }

  lemma UnionAssociates(a: set<nat>, b: set<nat>, c: set<nat>)
    ensures a + (b + c) == a + b + c
  {
  }

  lemma RestAtStart(f: File)
    ensures Rest(f, 0, None, None) == f.Marks(0)
  {
  }

  lemma IdleLine(f: File, i: nat)
    requires i < |f.lines|
    ensures f.Attr(i) ==> Rest(f, i, None, None) == Rest(f, i, Some(i), None) && Pending(f, i, i)
    ensures !f.Attr(i) ==> Rest(f, i, None, None) == Rest(f, i + 1, None, None)
  {
  }

  lemma PendingLine(f: File, a: nat, i: nat)
    requires Pending(f, i, a) && i < |f.lines| && !f.Decides(i)
    ensures Pending(f, i + 1, a) && Rest(f, i, Some(a), None) == Rest(f, i + 1, Some(a), None)
  {
  }

  lemma ScopeOpens(f: File, a: nat, i: nat)
    requires Pending(f, i, a) && i < |f.lines| && f.OpensScope(i)
    ensures Rest(f, i, Some(a), None) == Range(a, i) + Rest(f, i, Some(a), Some(0))
  {
    assert Range(a, f.Closing(i, 0)) == Range(a, i) + Range(i, f.Closing(i, 0)) by {
      ClosingAfter(f, i, 0);
    }
  }

  lemma ClosingAfter(f: File, j: nat, open: int)
    requires j < |f.lines|
    ensures f.Closing(j, open) > j
  {
  }

  lemma SemicolonEnds(f: File, a: nat, i: nat)
    requires Pending(f, i, a) && i < |f.lines| && !f.OpensScope(i) && f.Decides(i)
    ensures Rest(f, i, Some(a), None) == Range(a, i + 1) + Rest(f, i + 1, None, None)
  {
  }

  lemma LineInside(f: File, i: nat, a: nat, open: int)
    requires a <= i < |f.lines|
    ensures Rest(f, i, Some(a), Some(open))
         == {i} + if open + f.Net(i) <= 0 then Rest(f, i + 1, None, None)
                  else Rest(f, i + 1, Some(a), Some(open + f.Net(i)))
  {
    hide *;
    ClosingStep(f, i, open);
    InScope(f, i, a, open);
    InScope(f, i + 1, a, open + f.Net(i));
    Idle(f, i + 1);
    var end := f.Closing(i, open);
    RangeStep(i, end);
    RangeOfNone(i + 1);
    UnionStep(Range(i, end), i, Range(i + 1, end), f.Marks(end));
  }

  lemma UnionStep(lines: set<nat>, i: nat, inner: set<nat>, later: set<nat>)
    requires lines == {i} + inner
    ensures lines + later == {i} + (inner + later)
    ensures inner == {} ==> lines + later == {i} + later
  {
  }

  lemma InScope(f: File, i: nat, a: nat, open: int)
    requires a <= i <= |f.lines|
    ensures Rest(f, i, Some(a), Some(open)) == Range(i, f.Closing(i, open)) + f.Marks(f.Closing(i, open))
  {
  }

  lemma Idle(f: File, i: nat)
    requires i <= |f.lines|
    ensures Rest(f, i, None, None) == f.Marks(i)
  {
  }

  lemma ClosingStep(f: File, i: nat, open: int)
    requires i < |f.lines|
    ensures i < f.Closing(i, open)
    ensures f.Closing(i, open) == if open + f.Net(i) <= 0 then i + 1 else f.Closing(i + 1, open + f.Net(i))
  {
  }

  lemma RangeStep(lo: nat, hi: nat)
    requires lo < hi
    ensures Range(lo, hi) == {lo} + Range(lo + 1, hi)
  {
  }

  lemma RangeOfNone(lo: nat)
    ensures Range(lo, lo) == {}
  {
  }

  lemma NothingRests(f: File, armed: Option<nat>, open: Option<int>)
    requires armed.Some? ==> armed.value < |f.lines|
    requires open.None? && armed.Some? ==> Pending(f, |f.lines|, armed.value)
    ensures Rest(f, |f.lines|, armed, open) == {}
  {
  }

  method FindTestLineNumbers(f: File) returns (testLines: set<nat>)
    ensures testLines == f.Marks(0)
  {
    hide Rest, Pending, IsTestAttr, Find, Stripped, IsSpace, LeftStrip, RightStrip, Range, Count, CommentFrom;
    hide File.Marks, File.Deciding, File.Closing;
    testLines := {};
    var depth: int := 0;
    var testDepth: Option<int> := None;
    var armedStart: Option<nat> := None;
    var i := 0;
    RestAtStart(f);
    while i < |f.lines|
      invariant i <= |f.lines|
      invariant armedStart.Some? ==> armedStart.value < i
      invariant testDepth.Some? ==> armedStart.Some?
      invariant testDepth.None? && armedStart.Some? ==> Pending(f, i, armedStart.value)
      invariant f.Marks(0) == testLines +
                  Rest(f, i, armedStart, if testDepth.Some? then Some(depth - testDepth.value) else None)
    {
      var code := StripLineComment(f.lines[i]);
      var stripped := RightStrip(LeftStrip(code));
      if testDepth.None? && armedStart.None? {
        IdleLine(f, i);
      }
      if testDepth.None? && armedStart.None? && IsTestAttr(f.isWord, stripped) {
        armedStart := Some(i);
      }
      if armedStart.Some? && testDepth.None? {
        var braceAt, semiAt := Find(code, '{'), Find(code, ';');
        if braceAt != -1 && (semiAt == -1 || braceAt < semiAt) {
          ScopeOpens(f, armedStart.value, i);
          UnionAssociates(testLines, Range(armedStart.value, i), Rest(f, i, armedStart, Some(0)));
          testLines := testLines + Range(armedStart.value, i);
          testDepth := Some(depth);
        } else if semiAt != -1 {
          SemicolonEnds(f, armedStart.value, i);
          UnionAssociates(testLines, Range(armedStart.value, i + 1), Rest(f, i + 1, None, None));
          testLines := testLines + Range(armedStart.value, i + 1);
          armedStart := None;
          depth := depth + Count(code, '{') - Count(code, '}');
          i := i + 1;
          continue;
        } else {
          PendingLine(f, armedStart.value, i);
          i := i + 1;
          continue;
        }
      }
      if testDepth.Some? {
        LineInside(f, i, armedStart.value, depth - testDepth.value);
        testLines := testLines + {i};
      }
      depth := depth + Count(code, '{') - Count(code, '}');
      if testDepth.Some? && depth <= testDepth.value {
        testDepth := None;
        armedStart := None;
      }
      i := i + 1;
    }
    NothingRests(f, armedStart, if testDepth.Some? then Some(depth - testDepth.value) else None);
  }

  // ---------------------------------------------------------------- what is marked

  /** An attributed item: its attribute's line, the line that decides its shape, and the line past its last. */
  datatype Item = Item(start: nat, deciding: nat, end: nat)

  /** A brace comes in `code` with no semicolon before it. */
  predicate BraceFirst(code: string) {
    exists p :: 0 <= p < |code| && code[p] == '{' && ';' !in code[..p]
  }

  /** The code of lines `lo` up to but not including `hi`, on end. */
  function TextOf(f: File, lo: nat, hi: nat): string
    requires lo <= hi <= |f.lines|
  {
    if lo == hi then "" else TextOf(f, lo, hi - 1) + f.CodeAt(hi - 1)
  }

  /** How many more braces open than close on those lines. */
  function Excess(f: File, lo: nat, hi: nat): int
    requires lo <= hi <= |f.lines|
  {
    var characters := multiset(TextOf(f, lo, hi));
    characters['{'] as int - characters['}'] as int
  }

  /**
   A test item of the file. It starts at an attribute and its shape is decided by the first line with a
   brace or a semicolon. One whose brace comes first runs until, counting from that line, as many braces have
   closed as opened, or to the end of the file; any other ends with the deciding line.
   */
  ghost predicate IsItem(f: File, it: Item) {
    && it.start <= it.deciding < it.end <= |f.lines|
    && f.Attr(it.start)
    && (forall j :: it.start <= j < it.deciding ==> '{' !in f.CodeAt(j) && ';' !in f.CodeAt(j))
    && ('{' in f.CodeAt(it.deciding) || ';' in f.CodeAt(it.deciding))
    && if BraceFirst(f.CodeAt(it.deciding)) then
         && (forall j :: it.deciding < j < it.end ==> Excess(f, it.deciding, j) > 0)
         && (Excess(f, it.deciding, it.end) <= 0 || it.end == |f.lines|)
       else it.end == it.deciding + 1
  }

  /** No attribute from line `i` on that an item could start at, save one that no line ever decides. */
  ghost predicate NoItemFrom(f: File, i: nat)
    requires i <= |f.lines|
  {
    || (forall x :: i <= x < |f.lines| ==> !f.Attr(x))
    || (exists a :: && i <= a < |f.lines| && f.Attr(a) && (forall x :: i <= x < a ==> !f.Attr(x))
                    && forall j :: a <= j < |f.lines| ==> '{' !in f.CodeAt(j) && ';' !in f.CodeAt(j))
  }

  /** `items` are the file's test items from line `i` on: in order, disjoint, and no attribute between them. */
  ghost predicate AreItems(f: File, i: nat, items: seq<Item>)
    requires i <= |f.lines|
    decreases |items|
  {
    if items == [] then NoItemFrom(f, i)
    else
      && IsItem(f, items[0]) && i <= items[0].start
      && (forall x :: i <= x < items[0].start ==> !f.Attr(x))
      && AreItems(f, items[0].end, items[1..])
  }

  /** The lines of all of `items`. */
  function LinesOf(items: seq<Item>): (lines: set<nat>)
    ensures forall x :: x in lines <==> exists k :: 0 <= k < |items| && items[k].start <= x < items[k].end
  {
    if items == [] then {} else Range(items[0].start, items[0].end) + LinesOf(items[1..])
  }

  lemma {:induction false} CountIsMultiplicity(s: string, c: char)
    ensures Count(s, c) == multiset(s)[c]
  {
    if s != [] {
      CountIsMultiplicity(s[1..], c);
      assert s == [s[0]] + s[1..];
    }
  }

  lemma BraceFirstFound(code: string)
    ensures BraceFirst(code) <==> Find(code, '{') != -1 && (Find(code, ';') == -1 || Find(code, '{') < Find(code, ';'))
  {
    var brace, semi := Find(code, '{'), Find(code, ';');
    if brace != -1 && semi != -1 && brace >= semi {
      assert forall q :: 0 <= q < brace ==> code[q] in code[..brace];
      forall p | 0 <= p < |code| && code[p] == '{' ensures ';' in code[..p] {
        assert p != semi && code[..p][semi] == ';';
      }
    }
    if brace != -1 && (semi == -1 || brace < semi) {
      assert ';' !in code[..brace];
    }
  }

  /** A line's code runs up to its first comment, or to its end. */
  lemma CodeExactly(f: File, i: nat)
    requires i < |f.lines|
    ensures f.CodeAt(i) <= f.lines[i]
    ensures forall j: nat :: j < |f.CodeAt(i)| ==> !StartsComment(f.lines[i], j)
    ensures f.CodeAt(i) == f.lines[i] || StartsComment(f.lines[i], |f.CodeAt(i)|)
  {
    hide CommentAt, StartsComment;
    forall j: nat ensures CommentAt(f.lines[i], j) <==> StartsComment(f.lines[i], j) {
      CommentExactly(f.lines[i], j);
    }
  }

  /** A line has a test attribute when its code does, white space on either side apart. */
  lemma AttrExactly(f: File, i: nat) returns (before: string, core: string, after: string)
    requires i < |f.lines|
    ensures f.CodeAt(i) == before + core + after && Spaces(before) && Spaces(after)
    ensures core != "" ==> !IsSpace(core[0]) && !IsSpace(core[|core| - 1])
    ensures f.Attr(i) <==> StartsWithTestAttr(f.isWord, core)
  {
    hide Stripped, StartsWithTestAttr, IsTestAttr, IsSpace, LeftStrip, RightStrip;
    var code := f.CodeAt(i);
    var n := LeftStripExactly(code);
    var m := RightStripExactly(code[n..]);
    before, core, after := code[..n], code[n..][..m], code[n..][m..];
    TestAttrExactly(f.isWord, core);
  }

  /** Which lines decide an item's shape, and which of those open a scope. */
  lemma ShapesExactly(f: File, i: nat)
    requires i < |f.lines|
    ensures f.Decides(i) <==> '{' in f.CodeAt(i) || ';' in f.CodeAt(i)
    ensures f.OpensScope(i) <==> BraceFirst(f.CodeAt(i))
  {
    BraceFirstFound(f.CodeAt(i));
    hide BraceFirst, Stripped;
  }

  /** The running balance is the excess of opening braces over closing ones in the lines' own text. */
  lemma {:induction false} BalanceIsExcess(f: File, lo: nat, hi: nat)
    requires lo <= hi <= |f.lines|
    ensures f.Balance(lo, hi) == Excess(f, lo, hi)
  {
    if lo < hi {
      hide Stripped, Count;
      BalanceIsExcess(f, lo, hi - 1);
      CountIsMultiplicity(f.CodeAt(hi - 1), '{');
      CountIsMultiplicity(f.CodeAt(hi - 1), '}');
    }
  }

  /** An item by the scan's own measures. */
  ghost predicate Spans(f: File, it: Item) {
    && it.start <= it.deciding < it.end <= |f.lines|
    && f.Attr(it.start)
    && (forall j :: it.start <= j < it.deciding ==> !f.Decides(j)) && f.Decides(it.deciding)
    && if f.OpensScope(it.deciding) then
         && (forall j :: it.deciding < j < it.end ==> f.Balance(it.deciding, j) > 0)
         && (f.Balance(it.deciding, it.end) <= 0 || it.end == |f.lines|)
       else it.end == it.deciding + 1
  }

  lemma SpansExactly(f: File, it: Item)
    ensures Spans(f, it) <==> IsItem(f, it)
  {
    hide File.Attr, File.Decides, File.OpensScope, File.Balance, File.CodeAt, Excess, BraceFirst;
    forall j: nat | j < |f.lines|
      ensures f.Decides(j) <==> '{' in f.CodeAt(j) || ';' in f.CodeAt(j)
      ensures f.OpensScope(j) <==> BraceFirst(f.CodeAt(j))
    {
      ShapesExactly(f, j);
    }
    forall j: nat | it.deciding <= j <= |f.lines| ensures f.Balance(it.deciding, j) == Excess(f, it.deciding, j) {
      BalanceIsExcess(f, it.deciding, j);
    }
  }

  lemma BalanceStep(f: File, lo: nat, hi: nat)
    requires lo < hi <= |f.lines|
    ensures f.Balance(lo, hi) == f.Balance(lo, hi - 1) + f.Net(hi - 1)
  {
  }

  /** The scope's end is where as many braces have closed as opened since `k`, or else the end of the file. */
  lemma ClosingExact(f: File, k: nat, j: nat)
    requires k <= j <= |f.lines|
    ensures var end := f.Closing(j, Excess(f, k, j));
            && j <= end <= |f.lines|
            && (forall x :: j < x < end ==> Excess(f, k, x) > 0)
            && (end > j ==> Excess(f, k, end) <= 0 || end == |f.lines|)
            && (j < |f.lines| ==> end > j)
  {
    hide File.Closing, File.Balance, Excess;
    forall x: nat | k <= x <= |f.lines| ensures f.Balance(k, x) == Excess(f, k, x) {
      BalanceIsExcess(f, k, x);
    }
    ClosingReturns(f, k, j);
  }

  lemma {:induction false} ClosingReturns(f: File, k: nat, j: nat)
    requires k <= j <= |f.lines|
    ensures var end := f.Closing(j, f.Balance(k, j));
            && j <= end <= |f.lines|
            && (forall x :: j < x < end ==> f.Balance(k, x) > 0)
            && (end > j ==> f.Balance(k, end) <= 0 || end == |f.lines|)
            && (j < |f.lines| ==> end > j)
    decreases |f.lines| - j
  {
    hide File.Net;
    if j < |f.lines| {
      BalanceStep(f, k, j + 1);
      hide File.Balance;
      if f.Balance(k, j + 1) > 0 {
        ClosingReturns(f, k, j + 1);
        if j + 1 < |f.lines| {
          ClosingAfter(f, j + 1, f.Balance(k, j + 1));
        }
      }
    }
  }

  lemma DecidingUnique(f: File, i: nat, k: nat)
    requires i <= k < |f.lines| && f.Decides(k) && forall j :: i <= j < k ==> !f.Decides(j)
    ensures f.Deciding(i) == k
  {
  }

  /** There is one first line past `k` at which the balance returns to zero or below, or the file ends. */
  lemma FirstReturn(f: File, k: nat, a: nat, b: nat)
    requires k < a <= |f.lines| && k < b <= |f.lines|
    requires (forall x :: k < x < a ==> f.Balance(k, x) > 0) && (f.Balance(k, a) <= 0 || a == |f.lines|)
    requires (forall x :: k < x < b ==> f.Balance(k, x) > 0) && (f.Balance(k, b) <= 0 || b == |f.lines|)
    ensures a == b
  {
    var least := if a < b then a else b;
    assert f.Balance(k, least) <= 0 || least == |f.lines|;
  }

  /** The end of an item is determined by its deciding line. */
  lemma ItemEndUnique(f: File, it: Item)
    requires IsItem(f, it)
    ensures it.start <= it.deciding < it.end <= |f.lines| && f.Attr(it.start)
    ensures f.Deciding(it.start) == it.deciding && f.ItemEnd(it.deciding) == it.end
  {
    SpansExactly(f, it);
    hide IsItem;
    DecidingUnique(f, it.start, it.deciding);
    if f.OpensScope(it.deciding) {
      ClosingReturns(f, it.deciding, it.deciding);
      var end := f.Closing(it.deciding, 0);
      assert f.Balance(it.deciding, it.deciding) == 0;
      FirstReturn(f, it.deciding, it.end, end);
    }
  }

  lemma ItemAt(f: File, i: nat) returns (it: Item)
    requires i < |f.lines| && f.Attr(i) && f.Deciding(i) < |f.lines|
    ensures IsItem(f, it) && it.start == i && it.deciding == f.Deciding(i) && it.end == f.ItemEnd(f.Deciding(i))
  {
    var k := f.Deciding(i);
    it := Item(i, k, f.ItemEnd(k));
    SpansExactly(f, it);
    hide IsItem;
    if f.OpensScope(k) {
      assert f.Balance(k, k) == 0;
      ClosingReturns(f, k, k);
    }
  }

  lemma {:induction false} SkipIdle(f: File, i: nat, a: nat)
    requires i <= a <= |f.lines| && forall x :: i <= x < a ==> !f.Attr(x)
    ensures f.Marks(i) == f.Marks(a)
    decreases a - i
  {
    hide File.Attr, File.Deciding, File.ItemEnd;
    if i < a {
      SkipIdle(f, i + 1, a);
    }
  }

  lemma NeverDecided(f: File, a: nat)
    requires a <= |f.lines|
    ensures (forall j :: a <= j < |f.lines| ==> '{' !in f.CodeAt(j) && ';' !in f.CodeAt(j)) <==> f.Deciding(a) == |f.lines|
  {
    hide File.CodeAt, File.Decides;
    forall j: nat | j < |f.lines| ensures f.Decides(j) <==> '{' in f.CodeAt(j) || ';' in f.CodeAt(j) {
      ShapesExactly(f, j);
    }
  }

  /** Any list of the file's test items accounts for exactly the marked lines. */
  lemma {:induction false} MarksAreItems(f: File, i: nat, items: seq<Item>)
    requires i <= |f.lines| && AreItems(f, i, items)
    ensures f.Marks(i) == LinesOf(items)
    decreases |items|
  {
    hide IsItem, File.Attr, File.CodeAt, File.Deciding, File.ItemEnd;
    if items != [] {
      var it := items[0];
      ItemEndUnique(f, it);
      SkipIdle(f, i, it.start);
      MarksAreItems(f, it.end, items[1..]);
    } else if forall x :: i <= x < |f.lines| ==> !f.Attr(x) {
      SkipIdle(f, i, |f.lines|);
    } else {
      var a :| && i <= a < |f.lines| && f.Attr(a) && (forall x :: i <= x < a ==> !f.Attr(x))
               && forall j :: a <= j < |f.lines| ==> '{' !in f.CodeAt(j) && ';' !in f.CodeAt(j);
      SkipIdle(f, i, a);
      NeverDecided(f, a);
    }
  }

  lemma NothingStarts(f: File, i: nat, items: seq<Item>)
    requires i < |f.lines| && !f.Attr(i) && AreItems(f, i + 1, items)
    ensures AreItems(f, i, items)
  {
    hide IsItem, File.Attr, File.Decides;
  }

  /** Every file has such a list. */
  lemma {:induction false} ItemsExist(f: File, i: nat) returns (items: seq<Item>)
    requires i <= |f.lines|
    ensures AreItems(f, i, items)
    decreases |f.lines| - i
  {
    hide IsItem, File.Attr, File.Decides, File.Deciding, File.ItemEnd;
    if i == |f.lines| {
      items := [];
    } else if !f.Attr(i) {
      items := ItemsExist(f, i + 1);
      NothingStarts(f, i, items);
    } else if f.Deciding(i) == |f.lines| {
      NeverDecided(f, i);
      items := [];
    } else {
      var it := ItemAt(f, i);
      var more := ItemsExist(f, it.end);
      items := [it] + more;
    }
  }

  lemma SameStart(f: File, i: nat, a: Item, b: Item)
    requires IsItem(f, a) && IsItem(f, b) && i <= a.start && i <= b.start
    requires forall x :: i <= x < a.start ==> !f.Attr(x)
    requires forall x :: i <= x < b.start ==> !f.Attr(x)
    ensures a.start == b.start
  {
    hide File.Attr;
    assert f.Attr(a.start) && f.Attr(b.start);
  }

  /** And only one: the file determines its test items. */
  lemma {:induction false} ItemsUnique(f: File, i: nat, items: seq<Item>, others: seq<Item>)
    requires i <= |f.lines| && AreItems(f, i, items) && AreItems(f, i, others)
    ensures items == others
    decreases |items|
  {
    hide IsItem, NoItemFrom, File.Attr;
    if items != [] && others != [] {
      SameStart(f, i, items[0], others[0]);
      ItemEndUnique(f, items[0]);
      ItemEndUnique(f, others[0]);
      ItemsUnique(f, items[0].end, items[1..], others[1..]);
      assert items == [items[0]] + items[1..] && others == [others[0]] + others[1..];
    } else if items != [] {
      AttributeDecided(f, i, items[0]);
    } else if others != [] {
      AttributeDecided(f, i, others[0]);
    }
  }

  lemma AttributeDecided(f: File, i: nat, it: Item)
    requires i <= it.start && IsItem(f, it) && forall x :: i <= x < it.start ==> !f.Attr(x)
    ensures !NoItemFrom(f, i)
  {
    assert f.Attr(it.start) && f.Decides(it.deciding);
    forall a | i <= a < |f.lines| && f.Attr(a) && (forall x :: i <= x < a ==> !f.Attr(x))
      ensures exists j :: a <= j < |f.lines| && f.Decides(j)
    {
      assert a <= it.start <= it.deciding;
    }
  }

  // ---------------------------------------------------------------- the stamps that count

  /**
   The stamps found outside test code, with `stampsIn` the variants the stamp pattern finds on one line: a
   variant counts just when some line of no test item carries it.
   */
  method ProductionStamps(f: File, stampsIn: string -> set<string>) returns (found: set<string>)
    ensures forall items :: AreItems(f, 0, items) ==>
              forall v :: v in found <==> exists i :: 0 <= i < |f.lines| && i !in LinesOf(items) && v in stampsIn(f.CodeAt(i))
  {
    var testLines := FindTestLineNumbers(f);
    found := {};
    for i := 0 to |f.lines|
      invariant forall v :: v in found <==> exists j :: 0 <= j < i && j !in testLines && v in stampsIn(f.CodeAt(j))
    {
      if i in testLines {
        continue;
      }
      var code := StripLineComment(f.lines[i]);
      found := found + stampsIn(code);
    }
    forall items | AreItems(f, 0, items) ensures testLines == LinesOf(items) {
      MarksAreItems(f, 0, items);
    }
  }
}
