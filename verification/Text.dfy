/** The string operations of the Rust standard library that several components share. */
module Text {
  import opened Wrappers

  /** Unicode's `White_Space` property, which `char::is_whitespace` tests. */
  predicate IsWhitespace(c: char) {
    var v := c as int;
    || 0x09 <= v <= 0x0D || v == 0x20 || v == 0x85 || v == 0xA0 || v == 0x1680
    || 0x2000 <= v <= 0x200A || v == 0x2028 || v == 0x2029 || v == 0x202F || v == 0x205F || v == 0x3000
  }

  function TrimStart(s: string): string {
    if s != [] && IsWhitespace(s[0]) then TrimStart(s[1..]) else s
  }

  function TrimEnd(s: string): string {
    if s != [] && IsWhitespace(s[|s| - 1]) then TrimEnd(s[..|s| - 1]) else s
  }

  function Trim(s: string): string {
    TrimEnd(TrimStart(s))
  }

  /** Text that neither starts nor ends with white space is its own trimming. */
  lemma TrimNothing(s: string)
    requires s != [] ==> !IsWhitespace(s[0]) && !IsWhitespace(s[|s| - 1])
    ensures Trim(s) == s
  {
  }

  predicate Blank(s: string) {
    forall i :: 0 <= i < |s| ==> IsWhitespace(s[i])
  }

  /** Trimming drops nothing but white space, and all of it at either end. */
  lemma TrimExactly(s: string) returns (before: string, after: string)
    ensures s == before + Trim(s) + after && Blank(before) && Blank(after)
    ensures Trim(s) != [] ==> !IsWhitespace(Trim(s)[0]) && !IsWhitespace(Trim(s)[|Trim(s)| - 1])
  {
    before := TrimStartExactly(s);
    after := TrimEndExactly(TrimStart(s));
    if TrimStart(s) != [] {
      TrimEndKeepsFirst(TrimStart(s));
    }
  }

  lemma {:induction false} TrimStartExactly(s: string) returns (before: string)
    ensures s == before + TrimStart(s) && Blank(before)
    ensures TrimStart(s) != [] ==> !IsWhitespace(TrimStart(s)[0])
  {
    if s != [] && IsWhitespace(s[0]) {
      before := TrimStartExactly(s[1..]);
      before := [s[0]] + before;
    } else {
      before := [];
    }
  }

  lemma {:induction false} TrimEndExactly(s: string) returns (after: string)
    ensures s == TrimEnd(s) + after && Blank(after)
    ensures TrimEnd(s) != [] ==> !IsWhitespace(TrimEnd(s)[|TrimEnd(s)| - 1])
  {
    if s != [] && IsWhitespace(s[|s| - 1]) {
      after := TrimEndExactly(s[..|s| - 1]);
      after := after + [s[|s| - 1]];
    } else {
      after := [];
    }
  }

  /** Trimming leaves nothing exactly when there was nothing but white space. */
  lemma {:induction false} TrimEmptyIffBlank(s: string)
    ensures Trim(s) == [] <==> Blank(s)
  {
    TrimStartEmpty(s);
    if TrimStart(s) != [] {
      TrimStartStops(s);
      TrimEndKeepsFirst(TrimStart(s));
    }
  }

  lemma {:induction false} TrimStartEmpty(s: string)
    ensures TrimStart(s) == [] <==> Blank(s)
  {
    if s != [] {
      TrimStartEmpty(s[1..]);
      if IsWhitespace(s[0]) {
        assert Blank(s[1..]) ==> Blank(s) by {
          assert forall i :: 1 <= i < |s| ==> s[i] == s[1..][i - 1];
        }
        assert Blank(s) ==> Blank(s[1..]);
      }
    }
  }

  lemma {:induction false} TrimStartStops(s: string)
    requires TrimStart(s) != []
    ensures !IsWhitespace(TrimStart(s)[0])
  {
    if s != [] && IsWhitespace(s[0]) {
      TrimStartStops(s[1..]);
    }
  }

  lemma {:induction false} TrimEndKeepsFirst(s: string)
    requires s != [] && !IsWhitespace(s[0])
    ensures TrimEnd(s) != [] && TrimEnd(s)[0] == s[0]
  {
    if IsWhitespace(s[|s| - 1]) {
      TrimEndKeepsFirst(s[..|s| - 1]);
    }
  }

  lemma {:induction false} TrimStartSuffix(s: string)
    ensures |TrimStart(s)| <= |s| && TrimStart(s) == s[|s| - |TrimStart(s)|..]
  {
    if s != [] && IsWhitespace(s[0]) {
      TrimStartSuffix(s[1..]);
    }
  }

  /** `str::trim_end_matches` of one character. */
  function TrimEndMatches(s: string, c: char): string {
    if s != [] && s[|s| - 1] == c then TrimEndMatches(s[..|s| - 1], c) else s
  }

  /** `str::trim_start_matches` of one character. */
  function TrimStartMatches(s: string, c: char): string {
    if s != [] && s[0] == c then TrimStartMatches(s[1..], c) else s
  }

  /** What is left ends in something else, and nothing but `c` was dropped. */
  lemma {:induction false} TrimEndMatchesExact(s: string, c: char)
    ensures var t := TrimEndMatches(s, c);
            && t <= s && (t != "" ==> t[|t| - 1] != c)
            && forall i :: |t| <= i < |s| ==> s[i] == c
  {
    if s != [] && s[|s| - 1] == c {
      TrimEndMatchesExact(s[..|s| - 1], c);
    }
  }

  lemma {:induction false} TrimStartMatchesExact(s: string, c: char)
    ensures var t := TrimStartMatches(s, c);
            && |t| <= |s| && t == s[|s| - |t|..] && (t != "" ==> t[0] != c)
            && forall i :: 0 <= i < |s| - |t| ==> s[i] == c
  {
    if s != [] && s[0] == c {
      TrimStartMatchesExact(s[1..], c);
      var t := TrimStartMatches(s, c);
      assert forall i :: 1 <= i < |s| - |t| ==> s[i] == s[1..][i - 1];
    }
  }

  /** The text before and after the first `c`, as `str::split_once` gives it. */
  function SplitOnce(s: string, c: char): Option<(string, string)> {
    if s == [] then None
    else if s[0] == c then Some(([], s[1..]))
    else
      var (before, after) :- SplitOnce(s[1..], c);
      Some(([s[0]] + before, after))
  }

  /** `SplitOnce` finds the one split whose left part is free of the separator, or reports there is none. */
  lemma {:induction false} SplitOnceExact(s: string, c: char)
    ensures SplitOnce(s, c).None? <==> c !in s
    ensures SplitOnce(s, c).Some? ==>
              var (before, after) := SplitOnce(s, c).value;
              c !in before && s == before + [c] + after
  {
    if s != [] && s[0] != c {
      SplitOnceExact(s[1..], c);
      assert s == [s[0]] + s[1..];
    }
  }

  lemma {:induction false} SplitOnceAt(before: string, c: char, after: string)
    requires c !in before
    ensures SplitOnce(before + [c] + after, c) == Some((before, after))
  {
    var s := before + [c] + after;
    if before == [] {
      assert s[1..] == after;
    } else {
      assert s[1..] == before[1..] + [c] + after;
      SplitOnceAt(before[1..], c, after);
      assert [before[0]] + before[1..] == before;
    }
  }

  /** `str::split`: the pieces between the separators, of which there is always at least one. */
  function Split(s: string, c: char): (parts: seq<string>)
    ensures parts != []
  {
    if s == [] then [""]
    else if s[0] == c then [""] + Split(s[1..], c)
    else
      var rest := Split(s[1..], c);
      [[s[0]] + rest[0]] + rest[1..]
  }

  /** `join`: the pieces with a separator between each and the next. */
  function Join(parts: seq<string>, c: char): string {
    if parts == [] then ""
    else if |parts| == 1 then parts[0]
    else parts[0] + [c] + Join(parts[1..], c)
  }

  lemma {:induction false} SplitAtSeparator(s: string, c: char, t: string)
    requires c !in s
    ensures Split(s, c) == [s] && Split(s + [c] + t, c) == [s] + Split(t, c)
  {
    if s == [] {
      assert (s + [c] + t)[1..] == t;
    } else {
      assert (s + [c] + t)[1..] == s[1..] + [c] + t;
      SplitAtSeparator(s[1..], c, t);
      assert [s[0]] + s[1..] == s;
      assert ([s[1..]] + Split(t, c))[1..] == Split(t, c);
    }
  }

  /** Splitting undoes joining, whatever the pieces, so long as none has the separator in it. */
  lemma {:induction false} SplitOfJoin(parts: seq<string>, c: char)
    requires parts != [] && forall i :: 0 <= i < |parts| ==> c !in parts[i]
    ensures Split(Join(parts, c), c) == parts
  {
    if |parts| == 1 {
      SplitAtSeparator(parts[0], c, "");
    } else {
      SplitOfJoin(parts[1..], c);
      SplitAtSeparator(parts[0], c, Join(parts[1..], c));
    }
  }

  predicate IsUpper(c: char) { 'A' <= c <= 'Z' }
  predicate IsLower(c: char) { 'a' <= c <= 'z' }

  function UpperChar(c: char): (u: char)
    ensures !IsLower(u)
  {
    if IsLower(c) then c - 'a' + 'A' else c
  }

  /** `str::to_ascii_uppercase`. */
  function Upper(s: string): (u: string)
    ensures |u| == |s| && forall i :: 0 <= i < |s| ==> u[i] == UpperChar(s[i])
  {
    seq(|s|, i requires 0 <= i < |s| => UpperChar(s[i]))
  }

  /** `str::eq_ignore_ascii_case`. */
  predicate EqIgnoreCase(s: string, t: string) {
    Upper(s) == Upper(t)
  }

  /** The two texts agree character by character, but for the cases of the letters of the Latin alphabet. */
  ghost predicate SameButForCase(s: string, t: string) {
    && |s| == |t|
    && forall i :: 0 <= i < |s| ==>
         || s[i] == t[i]
         || ('a' <= s[i] <= 'z' && t[i] as int + 32 == s[i] as int)
         || ('a' <= t[i] <= 'z' && s[i] as int + 32 == t[i] as int)
  }

  lemma SameUpper(a: char, b: char)
    ensures UpperChar(a) == UpperChar(b) <==>
            || a == b
            || ('a' <= a <= 'z' && b as int + 32 == a as int)
            || ('a' <= b <= 'z' && a as int + 32 == b as int)
  {
  }

  lemma EqIgnoreCaseExactly(s: string, t: string)
    ensures EqIgnoreCase(s, t) <==> SameButForCase(s, t)
  {
    hide UpperChar;
    forall i | 0 <= i < |s| && i < |t| ensures Upper(s)[i] == UpperChar(s[i]) && Upper(t)[i] == UpperChar(t[i]) {
      SameUpper(s[i], t[i]);
    }
    if EqIgnoreCase(s, t) {
      forall i | 0 <= i < |s| ensures UpperChar(s[i]) == UpperChar(t[i]) {
        assert Upper(s)[i] == Upper(t)[i];
      }
      forall i | 0 <= i < |s|
        ensures s[i] == t[i] || ('a' <= s[i] <= 'z' && t[i] as int + 32 == s[i] as int)
                || ('a' <= t[i] <= 'z' && s[i] as int + 32 == t[i] as int)
      {
        SameUpper(s[i], t[i]);
      }
    }
    if SameButForCase(s, t) {
      forall i | 0 <= i < |s| ensures Upper(s)[i] == Upper(t)[i] {
        SameUpper(s[i], t[i]);
      }
    }
  }
}
