/**
  The JavaScript string operations the core relies on, over `string` (= `seq<char>`):
  `split` on a one-character separator, `trim`, and ASCII `toLowerCase`.
 */
module Text {

  /** The characters `String.prototype.trim` strips: ECMAScript WhiteSpace and LineTerminator. */
  predicate IsSpace(c: char) {
    || c == ' ' || c == '\t' || c == '\n' || c == '\r'
    || c == '\U{000B}' || c == '\U{000C}' || c == '\U{00A0}' || c == '\U{FEFF}'
    || c == '\U{1680}' || ('\U{2000}' <= c <= '\U{200A}')
    || c == '\U{2028}' || c == '\U{2029}' || c == '\U{202F}' || c == '\U{205F}' || c == '\U{3000}'
  }

  /** Joins `parts` with `sep` between consecutive parts (`Array.prototype.join`). */
  function Join(parts: seq<string>, sep: char): string
  {
    if |parts| == 0 then ""
    else if |parts| == 1 then parts[0]
    else parts[0] + [sep] + Join(parts[1..], sep)
  }

  /**
    `s.split(sep)` for a one-character separator: the maximal runs between separators.
    The result is never empty (`"".split(";")` is `[""]`), no part holds the separator,
    joining the parts back gives `s`, and there is more than one part exactly when `s`
    contains the separator.
   */
  function Split(s: string, sep: char): (parts: seq<string>)
    ensures |parts| >= 1
    ensures forall i :: 0 <= i < |parts| ==> sep !in parts[i]
    ensures Join(parts, sep) == s
    ensures |parts| > 1 <==> sep in s
    decreases |s|
  {
    if |s| == 0 then [""]
    else if s[0] == sep then [""] + Split(s[1..], sep)
    else
      var rest := Split(s[1..], sep);
      assert s == [s[0]] + s[1..];
      [[s[0]] + rest[0]] + rest[1..]
  }

  /**
    `v` is the second field of `s` under `sep`: the text after the first separator, up to the
    next one or the end.
   */
  predicate SecondPart(s: string, sep: char, v: string) {
    sep !in v &&
    exists i :: 0 <= i < |s| && s[i] == sep && sep !in s[..i] && i + 1 + |v| <= |s| && s[i + 1..i + 1 + |v|] == v
      && (i + 1 + |v| == |s| || s[i + 1 + |v|] == sep)
  }

  /** `s.split(sep)[1]` is the second field of `s`. */
  lemma SplitSecond(s: string, sep: char)
    requires |Split(s, sep)| > 1
    ensures SecondPart(s, sep, Split(s, sep)[1])
  {
    var parts := Split(s, sep);
    var post := JoinAfterSecond(parts, sep);
    SecondOf(parts[0], parts[1], post, sep);
  }

  /** A join of at least two parts is the first, the separator, the second, then the rest. */
  lemma JoinAfterSecond(parts: seq<string>, sep: char) returns (post: string)
    requires |parts| > 1
    ensures Join(parts, sep) == parts[0] + [sep] + parts[1] + post
    ensures |post| == 0 || post[0] == sep
  {
    post := if |parts| > 2 then [sep] + Join(parts[2..], sep) else [];
    if |parts| > 2 {
      assert parts[1..][1..] == parts[2..];
    }
  }

  /** The field between the first separator and the next. */
  lemma SecondOf(pre: string, v: string, post: string, sep: char)
    requires sep !in pre && sep !in v && (|post| == 0 || post[0] == sep)
    ensures SecondPart(pre + [sep] + v + post, sep, v)
  {
    var s := pre + [sep] + v + post;
    var i := |pre|;
    assert s[..i] == pre;
    assert s[i + 1..i + 1 + |v|] == v;
    assert i + 1 + |v| < |s| ==> s[i + 1 + |v|] == post[0];
  }

  /** Splitting a join gives the parts back when no part holds the separator. */
  lemma {:induction false} SplitJoin(parts: seq<string>, sep: char)
    requires |parts| >= 1
    requires forall i :: 0 <= i < |parts| ==> sep !in parts[i]
    ensures Split(Join(parts, sep), sep) == parts
    decreases |parts|
  {
    if |parts| == 1 {
      SplitNoSep(parts[0], sep);
    } else {
      SplitJoin(parts[1..], sep);
      SplitPrefix(parts[0], Join(parts[1..], sep), sep);
    }
  }

  /** A string without the separator splits into itself alone. */
  lemma {:induction false} SplitNoSep(s: string, sep: char)
    requires sep !in s
    ensures Split(s, sep) == [s]
  {
    var parts := Split(s, sep);
    assert |parts| == 1;
  }

  /** Splitting `a + [sep] + b` with `a` free of the separator puts `a` first, then the parts of `b`. */
  lemma {:induction false} SplitPrefix(a: string, b: string, sep: char)
    requires sep !in a
    ensures Split(a + [sep] + b, sep) == [a] + Split(b, sep)
    decreases |a|
  {
    var s := a + [sep] + b;
    if |a| == 0 {
      assert s[0] == sep && s[1..] == b;
    } else {
      assert s[0] == a[0] && a[0] != sep;
      assert s[1..] == a[1..] + [sep] + b;
      SplitPrefix(a[1..], b, sep);
      var rest := Split(s[1..], sep);
      assert rest == [a[1..]] + Split(b, sep);
      assert Split(s, sep) == [[s[0]] + rest[0]] + rest[1..];
      assert [a[0]] + a[1..] == a;
    }
  }

  /** Drops leading whitespace; the result is a suffix of `s` and does not start with whitespace. */
  function TrimStart(s: string): (r: string)
    ensures |r| <= |s| && r == s[|s| - |r|..]
    ensures forall i :: 0 <= i < |s| - |r| ==> IsSpace(s[i])
    ensures |r| > 0 ==> !IsSpace(r[0])
    decreases |s|
  {
    if |s| > 0 && IsSpace(s[0]) then TrimStart(s[1..]) else s
  }

  /** Drops trailing whitespace; the result is a prefix of `s` and does not end with whitespace. */
  function TrimEnd(s: string): (r: string)
    ensures |r| <= |s| && r == s[..|r|]
    ensures forall i :: |r| <= i < |s| ==> IsSpace(s[i])
    ensures |r| > 0 ==> !IsSpace(r[|r| - 1])
    decreases |s|
  {
    if |s| > 0 && IsSpace(s[|s| - 1]) then TrimEnd(s[..|s| - 1]) else s
  }

  /** `s.trim()`: whitespace removed from both ends, so the result starts and ends with a non-space. */
  function Trim(s: string): (r: string)
    ensures Trimmed(r)
    ensures |r| <= |s|
  {
    var t := TrimStart(s);
    var r := TrimEnd(t);
    assert |r| > 0 ==> r[0] == t[0];
    r
  }

  /** Every character of the text is whitespace. */
  predicate OnlySpaces(s: string) {
    forall k :: 0 <= k < |s| ==> IsSpace(s[k])
  }

  /** Trimming keeps a middle slice of the text and removes only whitespace around it. */
  lemma TrimSlice(s: string)
    ensures exists i, j :: 0 <= i <= j <= |s| && Trim(s) == s[i..j] && OnlySpaces(s[..i]) && OnlySpaces(s[j..])
  {
    var i, j := TrimBounds(s);
  }

  /** Where the trimmed text starts and ends inside `s`. */
  lemma TrimBounds(s: string) returns (i: nat, j: nat)
    ensures i <= j <= |s| && Trim(s) == s[i..j]
    ensures OnlySpaces(s[..i]) && OnlySpaces(s[j..])
  {
    var t := TrimStart(s);
    var r := TrimEnd(t);
    i := |s| - |t|;
    j := i + |r|;
    assert Trim(s) == r;
    assert r == s[i..j] by {
      assert t == s[i..];
      assert r == t[..|r|];
    }
    LeadingSpaces(s, i);
    TrailingSpaces(s, t, j);
  }

  /** The whitespace `TrimStart` skips, as a prefix. */
  lemma LeadingSpaces(s: string, i: nat)
    requires i <= |s| && forall k :: 0 <= k < i ==> IsSpace(s[k])
    ensures OnlySpaces(s[..i])
  {
    forall k | 0 <= k < i ensures IsSpace(s[..i][k]) {
      assert s[..i][k] == s[k];
    }
  }

  /** The whitespace `TrimEnd` drops from the suffix `t` of `s`, as a suffix of `s`. */
  lemma TrailingSpaces(s: string, t: string, j: nat)
    requires |t| <= |s| && t == s[|s| - |t|..]
    requires |s| - |t| <= j <= |s| && forall k :: j - (|s| - |t|) <= k < |t| ==> IsSpace(t[k])
    ensures OnlySpaces(s[j..])
  {
    forall k | 0 <= k < |s| - j ensures IsSpace(s[j..][k]) {
      assert s[j..][k] == t[j - (|s| - |t|) + k];
    }
  }

  /** Leading whitespace does not change the trim. */
  lemma {:induction false} TrimAfterSpace(c: char, s: string)
    requires IsSpace(c)
    ensures Trim([c] + s) == Trim(s)
  {
    assert ([c] + s)[1..] == s;
  }

  /** Every character of the trimmed string occurs in the original. */
  lemma TrimWithin(s: string, c: char)
    requires c in Trim(s)
    ensures c in s
  {
    var t := TrimStart(s);
    var r := TrimEnd(t);
    var i :| 0 <= i < |r| && r[i] == c;
    assert t[i] == c;
    assert s[|s| - |t| + i] == c;
  }

  /** A string with no whitespace at either end is its own trim. */
  predicate Trimmed(s: string) {
    |s| == 0 || (!IsSpace(s[0]) && !IsSpace(s[|s| - 1]))
  }

  /** Trimming text that is already trimmed changes nothing. */
  lemma TrimTrimmed(s: string)
    requires Trimmed(s)
    ensures Trim(s) == s
  {
    var none: string := "";
    assert none + s == s;
    TrimSpacesThen(none, s);
  }

  lemma TrimSpacesThen(ws: string, s: string)
    requires forall i :: 0 <= i < |ws| ==> IsSpace(ws[i])
    requires Trimmed(s)
    ensures Trim(ws + s) == s
  {
    TrimStartSpaces(ws, s);
    if |s| > 0 {
      assert TrimEnd(s) == s;
    }
  }

  lemma {:induction false} TrimStartSpaces(ws: string, s: string)
    requires forall i :: 0 <= i < |ws| ==> IsSpace(ws[i])
    requires |s| == 0 || !IsSpace(s[0])
    ensures TrimStart(ws + s) == s
    decreases |ws|
  {
    if |ws| > 0 {
      assert (ws + s)[1..] == ws[1..] + s;
      TrimStartSpaces(ws[1..], s);
    } else {
      assert ws + s == s;
    }
  }

  /** ASCII lower-casing of one character. */
  function LowerChar(c: char): char
  {
    if 'A' <= c <= 'Z' then (c as int - 'A' as int + 'a' as int) as char else c
  }

  /** `s.toLowerCase()` restricted to the ASCII letters (the only ones the core compares). */
  function ToLower(s: string): (r: string)
    ensures |r| == |s|
    ensures forall i :: 0 <= i < |s| ==> r[i] == LowerChar(s[i])
  {
    seq(|s|, i requires 0 <= i < |s| => LowerChar(s[i]))
  }

  /** Lower-casing leaves no upper-case ASCII letter and is idempotent. */
  lemma ToLowerIdempotent(s: string)
    ensures ToLower(ToLower(s)) == ToLower(s)
    ensures forall i :: 0 <= i < |s| ==> !('A' <= ToLower(s)[i] <= 'Z')
  {
  }
}
