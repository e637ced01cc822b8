/** The Java and Spring string primitives the services rely on:
    `String.trim`, `StringUtils.hasText`, `String.split` on a one-character
    delimiter, `endsWith`, and an ASCII case-insensitive substring test.
    Strings are sequences of Unicode scalar values. */
module JavaText {

  // ---------------------------------------------------------------------------
  // String.trim: strips every leading and trailing character whose code is at
  // most U+0020 (space and the ASCII control characters).
  // ---------------------------------------------------------------------------

  /** A character `String.trim` removes from either end. */
  predicate IsTrimmable(c: char) {
    c <= ' '
  }

  /** Index of the first character that `trim` keeps (|s| when it keeps none). */
  function TrimStartIndex(s: string): (k: nat)
    ensures k <= |s|
    ensures forall i :: 0 <= i < k ==> IsTrimmable(s[i])
    ensures k < |s| ==> !IsTrimmable(s[k])
  {
    if |s| == 0 || !IsTrimmable(s[0]) then 0 else 1 + TrimStartIndex(s[1..])
  }

  /** One past the index of the last character that `trim` keeps (0 when it keeps none). */
  function TrimEndIndex(s: string): (k: nat)
    ensures k <= |s|
    ensures forall i :: k <= i < |s| ==> IsTrimmable(s[i])
    ensures k > 0 ==> !IsTrimmable(s[k - 1])
  {
    if |s| == 0 || !IsTrimmable(s[|s| - 1]) then |s| else TrimEndIndex(s[..|s| - 1])
  }

  /** Java's `String.trim()`. */
  function Trim(s: string): (r: string)
    ensures |r| <= |s| && TrimStartIndex(s) + |r| <= |s|
    // the result is the contiguous run of `s` starting at the first kept character
    ensures r == s[TrimStartIndex(s)..TrimStartIndex(s) + |r|]
    // everything after the result was trimmable
    ensures forall i :: TrimStartIndex(s) + |r| <= i < |s| ==> IsTrimmable(s[i])
    // the result neither starts nor ends with a trimmable character
    ensures |r| > 0 ==> !IsTrimmable(r[0]) && !IsTrimmable(r[|r| - 1])
    // the result is empty exactly when every character was trimmable
    ensures |r| == 0 <==> forall i :: 0 <= i < |s| ==> IsTrimmable(s[i])
  {
    var a := TrimStartIndex(s);
    var b := TrimEndIndex(s);
    if a == |s| then "" else s[a..b]
  }

  /** `s.trim().isEmpty()`: the controller's test for a blank title or tag string. */
  predicate IsBlank(s: string) {
    |Trim(s)| == 0
  }

  /** Trimming twice is trimming once. */
  lemma TrimIdempotent(s: string)
    ensures Trim(Trim(s)) == Trim(s)
  {
    var t := Trim(s);
    if |t| > 0 {
      assert TrimStartIndex(t) == 0;
      assert TrimEndIndex(t) == |t|;
    }
  }

  // ---------------------------------------------------------------------------
  // StringUtils.hasText: non-null and at least one character that
  // Character.isWhitespace rejects.
  // ---------------------------------------------------------------------------

  /** Java's `Character.isWhitespace`: the space, line and paragraph separators
      other than the no-break spaces, and the ASCII layout controls. */
  predicate IsJavaWhitespace(c: char) {
    || c == ' ' || c == '\t' || c == '\n' || c == '\U{B}' || c == '\U{C}' || c == '\r'
    || ('\U{1C}' <= c <= '\U{1F}')
    || c == '\U{1680}'
    || ('\U{2000}' <= c <= '\U{2006}') || ('\U{2008}' <= c <= '\U{200A}')
    || c == '\U{2028}' || c == '\U{2029}' || c == '\U{205F}' || c == '\U{3000}'
  }

  /** Spring's `StringUtils.hasText(String)` on a non-null string. */
  predicate HasText(s: string) {
    exists i :: 0 <= i < |s| && !IsJavaWhitespace(s[i])
  }

  /** `hasText` and "not blank after trim" disagree in both directions: a NUL
      character is text that `trim` removes, an em space survives `trim` but is
      whitespace. */
  lemma HasTextDiffersFromNotBlank()
    ensures HasText("\U{0}") && IsBlank("\U{0}")
    ensures !HasText("\U{2003}") && !IsBlank("\U{2003}")
  {
    assert !IsJavaWhitespace("\U{0}"[0]);
    assert TrimStartIndex("\U{2003}") == 0;
  }

  /** `s.endsWith(String.valueOf(c))`. */
  predicate EndsWith(s: string, c: char) {
    |s| > 0 && s[|s| - 1] == c
  }

  // ---------------------------------------------------------------------------
  // String.split on a one-character delimiter that is not a regular-expression
  // metacharacter.
  // ---------------------------------------------------------------------------

  /** Every piece between delimiters, trailing empty pieces included. */
  function SplitAll(s: string, d: char): (r: seq<string>)
    ensures |r| == multiset(s)[d] + 1
    ensures forall k :: 0 <= k < |r| ==> d !in r[k]
  {
    if |s| == 0 then [""]
    else
      var rest := SplitAll(s[1..], d);
      assert s == [s[0]] + s[1..];
      if s[0] == d then [""] + rest
      else [[s[0]] + rest[0]] + rest[1..]
  }

  /** Concatenation of the pieces with `d` between neighbours. */
  function Join(pieces: seq<string>, d: char): string
  {
    if |pieces| == 0 then ""
    else if |pieces| == 1 then pieces[0]
    else pieces[0] + [d] + Join(pieces[1..], d)
  }

  /** Splitting then joining gives back the original string. */
  lemma {:induction false} JoinSplitAll(s: string, d: char)
    ensures Join(SplitAll(s, d), d) == s
  {
    if |s| > 0 {
      var rest := SplitAll(s[1..], d);
      JoinSplitAll(s[1..], d);
      assert s == [s[0]] + s[1..];
      if s[0] == d {
        JoinCons("", rest, d);
      } else {
        JoinExtendHead(s[0], rest, d);
      }
    }
  }

  /** Joining one more piece in front. */
  lemma JoinCons(x: string, rest: seq<string>, d: char)
    requires |rest| > 0
    ensures Join([x] + rest, d) == x + [d] + Join(rest, d)
  {
    assert ([x] + rest)[1..] == rest;
  }

  /** Prefixing the first piece with a character prefixes the join. */
  lemma JoinExtendHead(c: char, rest: seq<string>, d: char)
    requires |rest| > 0
    ensures Join([[c] + rest[0]] + rest[1..], d) == [c] + Join(rest, d)
  {
    if |rest| > 1 {
      JoinCons([c] + rest[0], rest[1..], d);
      JoinCons(rest[0], rest[1..], d);
      assert [rest[0]] + rest[1..] == rest;
    } else {
      assert rest[1..] == [];
    }
  }

  /** Drops the trailing run of empty strings, as `split` with limit 0 does. */
  function DropTrailingEmpty(r: seq<string>): (t: seq<string>)
    ensures |t| <= |r| && t == r[..|t|]
    ensures |t| > 0 ==> t[|t| - 1] != ""
    ensures forall k :: |t| <= k < |r| ==> r[k] == ""
  {
    if |r| > 0 && r[|r| - 1] == "" then DropTrailingEmpty(r[..|r| - 1]) else r
  }

  /** Java's `s.split(String.valueOf(d))`: with no delimiter in `s` the result is
      `s` alone (even when `s` is empty); otherwise the pieces with trailing
      empty ones removed. */
  function Split(s: string, d: char): (r: seq<string>)
    ensures forall k :: 0 <= k < |r| ==> d !in r[k]
    ensures d !in s ==> r == [s]
    ensures d in s ==> |r| == 0 || r[|r| - 1] != ""
    ensures |r| <= multiset(s)[d] + 1
  {
    if d !in s then [s] else DropTrailingEmpty(SplitAll(s, d))
  }

  /** Joining a prefix of pieces gives a prefix of the whole join, and when the
      dropped pieces are empty what remains is delimiters only. */
  lemma {:induction false} JoinPrefixOfEmpties(r: seq<string>, n: nat, d: char)
    requires 0 < n <= |r|
    requires forall k :: n <= k < |r| ==> r[k] == ""
    ensures Join(r, d) == Join(r[..n], d) + seq(|r| - n, _ => d)
  {
    if n == |r| {
      assert r[..n] == r;
    } else {
      JoinPrefixOfEmpties(r[..|r| - 1], n, d);
      assert r[..|r| - 1][..n] == r[..n];
      JoinSnoc(r[..|r| - 1], d);
      assert r[..|r| - 1] + [r[|r| - 1]] == r;
    }
  }

  /** Joining with one more empty piece appends one delimiter. */
  lemma {:induction false} JoinSnoc(r: seq<string>, d: char)
    requires |r| > 0
    ensures Join(r + [""], d) == Join(r, d) + [d]
  {
    if |r| > 1 {
      JoinSnoc(r[1..], d);
      assert (r + [""])[1..] == r[1..] + [""];
    }
  }

  /** What `Split` keeps joins back to a prefix of `s`, and only delimiters follow it. */
  lemma SplitJoinsToPrefix(s: string, d: char)
    ensures Join(Split(s, d), d) <= s
    ensures forall i :: |Join(Split(s, d), d)| <= i < |s| ==> s[i] == d
  {
    if d in s {
      var all := SplitAll(s, d);
      var r := Split(s, d);
      JoinSplitAll(s, d);
      if |r| > 0 {
        JoinPrefixOfEmpties(all, |r|, d);
      } else {
        // every piece is empty, so `s` is delimiters only
        JoinAllEmpty(all, d);
      }
    }
  }

  /** Pieces that are all empty join to delimiters only. */
  lemma {:induction false} JoinAllEmpty(r: seq<string>, d: char)
    requires forall k :: 0 <= k < |r| ==> r[k] == ""
    ensures forall i :: 0 <= i < |Join(r, d)| ==> Join(r, d)[i] == d
  {
    if |r| > 1 {
      JoinAllEmpty(r[1..], d);
    }
  }

  // ---------------------------------------------------------------------------
  // Case-insensitive substring search (ASCII letters only).
  // ---------------------------------------------------------------------------

  function ToLowerAscii(c: char): char {
    if 'A' <= c <= 'Z' then (c as int + 32) as char else c
  }

  function LowerAscii(s: string): (r: string)
    ensures |r| == |s|
  {
    seq(|s|, i requires 0 <= i < |s| => ToLowerAscii(s[i]))
  }

  /** `p` occurs in `s` as a contiguous run. */
  predicate IsInfix(p: string, s: string) {
    exists i :: 0 <= i <= |s| && OccursAt(p, s, i)
  }

  /** `p` occurs in `s` starting at index `i`. */
  predicate OccursAt(p: string, s: string, i: int) {
    0 <= i <= |s| - |p| && s[i..i + |p|] == p
  }

  /** The `ContainingIgnoreCase` match of a derived query. */
  predicate ContainsIgnoreCase(s: string, p: string) {
    IsInfix(LowerAscii(p), LowerAscii(s))
  }

  /** The empty query matches every string, and matching ignores ASCII case. */
  lemma ContainsIgnoreCaseFacts(s: string, p: string)
    ensures ContainsIgnoreCase(s, "")
    ensures ContainsIgnoreCase(s, p) <==> ContainsIgnoreCase(LowerAscii(s), LowerAscii(p))
  {
    assert OccursAt(LowerAscii(""), LowerAscii(s), 0);
    assert LowerAscii(LowerAscii(s)) == LowerAscii(s);
    assert LowerAscii(LowerAscii(p)) == LowerAscii(p);
  }
}
