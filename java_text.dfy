// The few java.lang.String operations the chat server's protocol code relies
// on, with the edge cases Java gives them: `trim`, `split(" ")`,
// `split(" ", 2)`, `startsWith` and `equalsIgnoreCase`.
module JavaText {

  /** A character `String.trim` strips: every code point up to U+0020. */
  predicate IsTrimmable(c: char) { c <= ' ' }

  /** A string `trim` reduces to "": it holds only trimmable characters. */
  predicate IsBlank(s: string) { forall i :: 0 <= i < |s| ==> IsTrimmable(s[i]) }

  /** How many trimmable characters `s` ends with. */
  function TrailingBlanks(s: string): (n: nat)
    ensures n <= |s|
    ensures forall i :: |s| - n <= i < |s| ==> IsTrimmable(s[i])
    ensures n == |s| || !IsTrimmable(s[|s| - n - 1])
  {
    if s == [] || !IsTrimmable(s[|s| - 1]) then 0 else 1 + TrailingBlanks(s[..|s| - 1])
  }

  /** How many trimmable characters `s` starts with. */
  function LeadingBlanks(s: string): (n: nat)
    ensures n <= |s|
    ensures forall i :: 0 <= i < n ==> IsTrimmable(s[i])
    ensures n == |s| || !IsTrimmable(s[n])
  {
    if s == [] || !IsTrimmable(s[0]) then 0 else 1 + LeadingBlanks(s[1..])
  }

  /** `s` without its trailing trimmable characters. */
  function TrimEnd(s: string): string { s[..|s| - TrailingBlanks(s)] }

  /** `s` without its leading trimmable characters. */
  function TrimStart(s: string): string { s[LeadingBlanks(s)..] }

  /** Java's `String.trim()`: no longer than `s`, and empty when `s` is blank. */
  function Trim(s: string): (r: string)
    ensures |r| <= |s|
    ensures IsBlank(s) ==> r == []
  {
    TrimStart(TrimEnd(s))
  }

  /** Neither end of a trimmed string is trimmable. */
  lemma TrimEnds(s: string)
    ensures var r := Trim(s); r == [] || (!IsTrimmable(r[0]) && !IsTrimmable(r[|r| - 1]))
  {
  }

  /** `trim()` yields the empty string exactly for blank strings. */
  lemma TrimEmptyIffBlank(s: string)
    ensures Trim(s) == [] <==> IsBlank(s)
  {
    var e := TrimEnd(s);
    if Trim(s) == [] {
      forall i | 0 <= i < |s| ensures IsTrimmable(s[i]) {
        if i < |e| { assert e[i] == s[i]; }
      }
    } else {
      var r := Trim(s);
      assert r[0] == e[|e| - |r|] == s[|e| - |r|];
    }
  }

  /** A string that starts with a non-trimmable character only loses its tail to `trim()`. */
  lemma TrimFromVisibleStart(s: string)
    requires s != [] && !IsTrimmable(s[0])
    ensures Trim(s) == TrimEnd(s)
  {
    assert TrimEnd(s)[0] == s[0];
  }

  /** A string with visible ends, followed by one space, trims back to itself. */
  lemma TrimOneSpace(s: string)
    requires s != [] && !IsTrimmable(s[0]) && !IsTrimmable(s[|s| - 1])
    ensures Trim(s + " ") == s
  {
    assert (s + " ")[..|s|] == s;
    assert TrailingBlanks(s + " ") == 1;
    TrimFromVisibleStart(s + " ");
  }

  /** Position of the first `c` in `s`, or `|s|` when there is none (`indexOf`, with -1 read as `|s|`). */
  function IndexOf(s: string, c: char): (i: nat)
    ensures i <= |s|
    ensures i < |s| ==> s[i] == c
    ensures forall j :: 0 <= j < i ==> s[j] != c
  {
    if s == [] || s[0] == c then 0 else 1 + IndexOf(s[1..], c)
  }

  /**
   * `s.split(sep, 2)`: the text before the first `sep` and everything after
   * it, or `[s]` when `s` contains no `sep` (so "" gives [""]). With a limit
   * of two no empty string is dropped.
   */
  function SplitOnce(s: string, sep: char): (r: seq<string>)
    ensures |r| == 1 <==> sep !in s
    ensures |r| == 1 || |r| == 2
    ensures |r| == 1 ==> r[0] == s
    ensures |r| == 2 ==> r[0] + [sep] + r[1] == s && sep !in r[0]
  {
    var i := IndexOf(s, sep);
    if i == |s| then [s] else [s[..i], s[i + 1..]]
  }

  /** Every piece of `s` between occurrences of `sep`, empty pieces included. */
  function Fields(s: string, sep: char): (r: seq<string>)
    ensures |r| >= 1
    ensures forall k :: 0 <= k < |r| ==> sep !in r[k]
    decreases |s|
  {
    var i := IndexOf(s, sep);
    if i == |s| then [s] else [s[..i]] + Fields(s[i + 1..], sep)
  }

  /** The pieces glued back together with `sep` between neighbours. */
  function Join(parts: seq<string>, sep: char): string
    requires |parts| >= 1
  {
    if |parts| == 1 then parts[0] else parts[0] + [sep] + Join(parts[1..], sep)
  }

  /** Splitting into fields loses nothing. */
  lemma {:induction false} JoinFields(s: string, sep: char)
    ensures Join(Fields(s, sep), sep) == s
    decreases |s|
  {
    var i := IndexOf(s, sep);
    if i < |s| {
      var rest := Fields(s[i + 1..], sep);
      JoinFields(s[i + 1..], sep);
      assert ([s[..i]] + rest)[1..] == rest;
      assert Join(Fields(s, sep), sep) == s[..i] + [sep] + s[i + 1..];
      assert s[..i] + [sep] + s[i + 1..] == s by { assert s[i] == sep; }
    }
  }

  /** Pieces free of `sep` come back unchanged from joining and splitting again. */
  lemma {:induction false} FieldsJoin(parts: seq<string>, sep: char)
    requires |parts| >= 1
    requires forall k :: 0 <= k < |parts| ==> sep !in parts[k]
    ensures Fields(Join(parts, sep), sep) == parts
  {
    if |parts| > 1 {
      var p, tail := parts[0], parts[1..];
      assert sep !in p;
      assert forall k :: 0 <= k < |tail| ==> sep !in tail[k] by {
        forall k | 0 <= k < |tail| ensures sep !in tail[k] { assert tail[k] == parts[k + 1]; }
      }
      FieldsJoin(tail, sep);
      FieldsAfterPiece(p, sep, Join(tail, sep));
      assert parts == [p] + tail;
    }
  }

  /** A separator-free piece, a separator and the rest: the piece is the first field. */
  lemma FieldsAfterPiece(p: string, sep: char, rest: string)
    requires sep !in p
    ensures Fields(p + [sep] + rest, sep) == [p] + Fields(rest, sep)
  {
    var s := p + [sep] + rest;
    assert s[|p|] == sep;
    assert forall j :: 0 <= j < |p| ==> s[j] == p[j];
    var i := IndexOf(s, sep);
    assert i == |p|;
    assert s[..i] == p;
    assert s[i + 1..] == rest;
  }

  /** `r` with its trailing empty strings removed. */
  function DropTrailingEmpty(r: seq<string>): (t: seq<string>)
    ensures t <= r
    ensures forall k :: |t| <= k < |r| ==> r[k] == []
    ensures t == [] || t[|t| - 1] != []
  {
    if r == [] || r[|r| - 1] != [] then r else DropTrailingEmpty(r[..|r| - 1])
  }

  /**
   * `s.split(sep)` (limit 0): `[s]` when `s` has no `sep` at all (so "" gives
   * [""]), otherwise every field with the trailing empty ones removed (so " "
   * gives []).
   */
  function Split(s: string, sep: char): (r: seq<string>)
    ensures forall k :: 0 <= k < |r| ==> sep !in r[k]
    ensures sep !in s ==> r == [s]
    ensures |r| > 1 ==> r[|r| - 1] != []
  {
    if sep !in s then [s] else DropTrailingEmpty(Fields(s, sep))
  }

  /** Joined pieces free of `sep`, the last one non-empty, split back into the same pieces. */
  lemma SplitJoin(parts: seq<string>, sep: char)
    requires |parts| >= 1
    requires forall k :: 0 <= k < |parts| ==> sep !in parts[k]
    requires |parts| == 1 || parts[|parts| - 1] != []
    ensures Split(Join(parts, sep), sep) == parts
  {
    FieldsJoin(parts, sep);
  }

  /** Java's `startsWith`. */
  predicate StartsWith(s: string, prefix: string) { prefix <= s }

  /**
   * `Character.toUpperCase` on the characters whose upper case is an ASCII
   * letter: the ASCII lower-case letters, dotless i and long s.
   */
  function ToUpper(c: char): char
  {
    if 'a' <= c <= 'z' then (c as int - 32) as char
    else if c == '\U{0131}' then 'I'
    else if c == '\U{017F}' then 'S'
    else c
  }

  /**
   * `Character.toLowerCase` on the characters whose lower case is an ASCII
   * letter: the ASCII upper-case letters, dotted capital I and the Kelvin sign.
   */
  function ToLower(c: char): char
  {
    if 'A' <= c <= 'Z' then (c as int + 32) as char
    else if c == '\U{0130}' then 'i'
    else if c == '\U{212A}' then 'k'
    else c
  }

  /** The per-character test of `String.regionMatches(true, …)`. */
  predicate CharEqualsIgnoreCase(a: char, b: char)
  {
    a == b || ToUpper(a) == ToUpper(b) || ToLower(ToUpper(a)) == ToLower(ToUpper(b))
  }

  /** Java's `equalsIgnoreCase`: same length and every position equal up to case. */
  predicate EqualsIgnoreCase(s: string, t: string)
    ensures s == t ==> EqualsIgnoreCase(s, t)
  {
    |s| == |t| && forall i :: 0 <= i < |s| ==> CharEqualsIgnoreCase(s[i], t[i])
  }

  /**
   * Against a lower-case ASCII letter, a character matches up to case exactly
   * when it is that letter, its capital, or one of the non-ASCII characters
   * Java folds onto it.
   */
  lemma MatchLetter(c: char, l: char)
    requires 'a' <= l <= 'z'
    ensures CharEqualsIgnoreCase(c, l) <==>
      c == l || c == ToUpper(l)
      || (l == 'i' && (c == '\U{0130}' || c == '\U{0131}'))
      || (l == 's' && c == '\U{017F}')
      || (l == 'k' && c == '\U{212A}')
  {
  }

  /** Against any ASCII character other than a letter, only the character itself matches. */
  lemma MatchNonLetter(c: char, d: char)
    requires d < '\U{0080}' && !('a' <= d <= 'z') && !('A' <= d <= 'Z')
    ensures CharEqualsIgnoreCase(c, d) <==> c == d
  {
  }
}
