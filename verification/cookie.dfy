/**
  `parseCookies` (`utils/cookie.ts`): turns `Set-Cookie` header values into
  name/value/options records by splitting on `;` and `=`, trimming, and lower-casing
  attribute keys. A header whose first segment does not split on `=` into exactly two
  parts is dropped.
 */
module Cookie {
  import opened Wrappers
  import Text

  /** An attribute's value: the literal `true`, or the trimmed text after `=`. */
  datatype AttrValue = Flag | Value(text: string)

  datatype ParsedCookie = ParsedCookie(name: string, value: string, options: map<string, AttrValue>)

  /**
    One attribute segment (`parts.forEach` body): the raw key is the text before the first
    `=`, the value the text between the first and second `=`. An empty raw key adds nothing;
    otherwise the trimmed, lower-cased key is set, to the trimmed value when that value is
    non-empty and to `true` otherwise.
   */
  function AddAttribute(options: map<string, AttrValue>, part: string): (r: map<string, AttrValue>)
    ensures var kv := Text.Split(part, '=');
      |kv[0]| == 0 ==> r == options
    ensures var kv := Text.Split(part, '=');
      var key := Text.ToLower(Text.Trim(kv[0]));
      |kv[0]| > 0 ==>
        && r.Keys == options.Keys + {key}
        && r[key] == (if |kv| > 1 && |kv[1]| > 0 then Value(Text.Trim(kv[1])) else Flag)
    ensures var key := Text.ToLower(Text.Trim(Text.Split(part, '=')[0]));
      forall k :: k in options && k != key ==> k in r && r[k] == options[k]
    ensures '=' !in part && |part| > 0 ==> r == options[Text.ToLower(Text.Trim(part)) := Flag]
    ensures |part| == 0 ==> r == options
  {
    SegmentEntryPlain(part);
    SetEntry(options, SegmentEntry(part))
  }

  /** The options with one entry set, or unchanged for none. */
  function SetEntry(options: map<string, AttrValue>, e: Option<(string, AttrValue)>): (r: map<string, AttrValue>)
    ensures e.None? ==> r == options
    ensures e.Some? ==> r.Keys == options.Keys + {e.value.0} && r[e.value.0] == e.value.1
    ensures forall k :: k in options && (e.None? || k != e.value.0) ==> k in r && r[k] == options[k]
  {
    if e.None? then options else options[e.value.0 := e.value.1]
  }

  /**
    The entry one segment sets: nothing for an empty raw key, otherwise the trimmed,
    lower-cased key with the trimmed value or `true`.
   */
  function SegmentEntry(part: string): (r: Option<(string, AttrValue)>)
    ensures var kv := Text.Split(part, '=');
      r.None? <==> |kv[0]| == 0
  {
    var kv := Text.Split(part, '=');
    if |kv[0]| == 0 then None
    else Some((Text.ToLower(Text.Trim(kv[0])), if |kv| > 1 && |kv[1]| > 0 then Value(Text.Trim(kv[1])) else Flag))
  }

  /** An empty segment sets nothing, and a segment without `=` sets its whole text as a flag. */
  lemma SegmentEntryPlain(part: string)
    ensures |part| == 0 ==> SegmentEntry(part).None?
    ensures '=' !in part && |part| > 0 ==> SegmentEntry(part) == Some((Text.ToLower(Text.Trim(part)), Flag))
  {
    if '=' !in part {
      Text.SplitNoSep(part, '=');
    }
  }

  /** The attribute segments applied in order, so a later duplicate key wins. */
  function ParseAttributes(parts: seq<string>, options: map<string, AttrValue>): (r: map<string, AttrValue>)
    ensures options.Keys <= r.Keys
    decreases |parts|
  {
    if |parts| == 0 then options
    else ParseAttributes(parts[1..], AddAttribute(options, parts[0]))
  }

  /** The entry of every segment, in order. */
  function SegmentEntries(parts: seq<string>): (r: seq<Option<(string, AttrValue)>>)
    ensures |r| == |parts|
    ensures forall j :: 0 <= j < |parts| ==> r[j] == SegmentEntry(parts[j])
  {
    seq(|parts|, j requires 0 <= j < |parts| => SegmentEntry(parts[j]))
  }

  /** The entries set one after the other. */
  function SetEntries(entries: seq<Option<(string, AttrValue)>>, options: map<string, AttrValue>): map<string, AttrValue>
    decreases |entries|
  {
    if |entries| == 0 then options
    else SetEntries(entries[1..], SetEntry(options, entries[0]))
  }

  /** Applying the segments is setting their entries. */
  lemma {:induction false} ParseAttributesSetEntries(parts: seq<string>, options: map<string, AttrValue>)
    ensures ParseAttributes(parts, options) == SetEntries(SegmentEntries(parts), options)
    decreases |parts|
  {
    if |parts| > 0 {
      ParseAttributesSetEntries(parts[1..], AddAttribute(options, parts[0]));
      assert SegmentEntries(parts)[1..] == SegmentEntries(parts[1..]);
    }
  }

  /** The entry sets the attribute `key`. */
  predicate Sets(e: Option<(string, AttrValue)>, key: string) {
    e.Some? && e.value.0 == key
  }

  /** An attribute no entry sets keeps its value. */
  lemma {:induction false} SetEntriesKeeps(entries: seq<Option<(string, AttrValue)>>, options: map<string, AttrValue>, key: string)
    requires key in options
    requires forall j :: 0 <= j < |entries| ==> !Sets(entries[j], key)
    ensures key in SetEntries(entries, options) && SetEntries(entries, options)[key] == options[key]
    decreases |entries|
  {
    if |entries| > 0 {
      assert !Sets(entries[0], key);
      SetEntriesKeeps(entries[1..], SetEntry(options, entries[0]), key);
    }
  }

  /** The last entry that sets an attribute decides its value. */
  lemma {:induction false} SetEntriesLastWins(entries: seq<Option<(string, AttrValue)>>, options: map<string, AttrValue>, i: nat)
    requires i < |entries| && entries[i].Some?
    requires forall j :: i < j < |entries| ==> !Sets(entries[j], entries[i].value.0)
    ensures entries[i].value.0 in SetEntries(entries, options)
    ensures SetEntries(entries, options)[entries[i].value.0] == entries[i].value.1
    decreases |entries|
  {
    var next := SetEntry(options, entries[0]);
    if i == 0 {
      SetEntriesKeeps(entries[1..], next, entries[0].value.0);
    } else {
      SetEntriesLastWins(entries[1..], next, i - 1);
    }
  }

  /** Every attribute the options did not hold is set by some entry. */
  lemma {:induction false} SetEntriesNamed(entries: seq<Option<(string, AttrValue)>>, options: map<string, AttrValue>, key: string)
    requires key in SetEntries(entries, options) && key !in options
    ensures exists j :: 0 <= j < |entries| && Sets(entries[j], key)
    decreases |entries|
  {
    var next := SetEntry(options, entries[0]);
    if key in next {
      assert Sets(entries[0], key);
    } else {
      SetEntriesNamed(entries[1..], next, key);
      var j :| 0 <= j < |entries| - 1 && Sets(entries[1..][j], key);
      assert Sets(entries[j + 1], key);
    }
  }

  /**
    Duplicate attributes: the last segment that sets a key decides its value, and a key no
    segment sets keeps the value it had.
   */
  lemma ParseAttributesLastWins(parts: seq<string>, options: map<string, AttrValue>, i: nat, key: string)
    requires i < |parts| && Sets(SegmentEntry(parts[i]), key)
    requires forall j :: i < j < |parts| ==> !Sets(SegmentEntry(parts[j]), key)
    ensures key in ParseAttributes(parts, options)
    ensures ParseAttributes(parts, options)[key] == SegmentEntry(parts[i]).value.1
  {
    ParseAttributesSetEntries(parts, options);
    SetEntriesLastWins(SegmentEntries(parts), options, i);
  }

  /** An attribute no segment sets keeps its value. */
  lemma ParseAttributesKeeps(parts: seq<string>, options: map<string, AttrValue>, key: string)
    requires key in options
    requires forall j :: 0 <= j < |parts| ==> !Sets(SegmentEntry(parts[j]), key)
    ensures key in ParseAttributes(parts, options) && ParseAttributes(parts, options)[key] == options[key]
  {
    ParseAttributesSetEntries(parts, options);
    SetEntriesKeeps(SegmentEntries(parts), options, key);
  }

  /** Every attribute the options did not hold comes from a segment that sets it. */
  lemma ParseAttributesNamed(parts: seq<string>, options: map<string, AttrValue>, key: string)
    requires key in ParseAttributes(parts, options) && key !in options
    ensures exists j :: 0 <= j < |parts| && Sets(SegmentEntry(parts[j]), key)
  {
    ParseAttributesSetEntries(parts, options);
    SetEntriesNamed(SegmentEntries(parts), options, key);
    var j :| 0 <= j < |parts| && Sets(SegmentEntries(parts)[j], key);
    assert Sets(SegmentEntry(parts[j]), key);
  }

  /** One header value, or `None` when its first segment is not exactly `name=value`. */
  function ParseCookie(cookie: string): (r: Option<ParsedCookie>)
    ensures r.None? <==> |Text.Split(Text.Split(cookie, ';')[0], '=')| != 2
    ensures r.Some? ==> '=' !in r.value.name && '=' !in r.value.value
    ensures r.Some? ==> ';' !in r.value.name && ';' !in r.value.value
    ensures r.Some? ==> Text.Trimmed(r.value.name) && Text.Trimmed(r.value.value)
    ensures r.Some? ==>
      var nameValue := Text.Split(Text.Split(cookie, ';')[0], '=');
      r.value.name == Text.Trim(nameValue[0]) && r.value.value == Text.Trim(nameValue[1])
  {
    var parts := Text.Split(cookie, ';');
    var nameValue := Text.Split(parts[0], '=');
    if |nameValue| != 2 then None
    else
      var name := Text.Trim(nameValue[0]);
      var value := Text.Trim(nameValue[1]);
      NameValuePlain(parts[0], nameValue);
      NoCharAfterTrim(nameValue[0], '=');
      NoCharAfterTrim(nameValue[1], '=');
      NoCharAfterTrim(nameValue[0], ';');
      NoCharAfterTrim(nameValue[1], ';');
      Some(ParsedCookie(name, value, ParseAttributes(parts[1..], map[])))
  }

  /** Both halves of a `;`-free segment split on `=` are free of both separators. */
  lemma NameValuePlain(segment: string, nameValue: seq<string>)
    requires ';' !in segment
    requires nameValue == Text.Split(segment, '=') && |nameValue| == 2
    ensures ';' !in nameValue[0] && ';' !in nameValue[1]
    ensures '=' !in nameValue[0] && '=' !in nameValue[1]
  {
    assert Text.Join(nameValue, '=') == nameValue[0] + ['='] + Text.Join(nameValue[1..], '=');
    assert nameValue[1..] == [nameValue[1]];
  }

  lemma NoCharAfterTrim(s: string, c: char)
    requires c !in s
    ensures c !in Text.Trim(s)
  {
    if c in Text.Trim(s) {
      Text.TrimWithin(s, c);
    }
  }

  /** A parse result as a list of zero or one cookie. */
  function AsList(p: Option<ParsedCookie>): (r: seq<ParsedCookie>)
    ensures |r| == if p.Some? then 1 else 0
  {
    if p.Some? then [p.value] else []
  }

  /** The present results of a list of parses, in order: the loop's `continue` on `None`. */
  function Present(ps: seq<Option<ParsedCookie>>): (r: seq<ParsedCookie>)
    ensures |r| <= |ps|
    decreases |ps|
  {
    if |ps| == 0 then []
    else AsList(ps[0]) + Present(ps[1..])
  }

  /** Each header value parsed on its own. */
  function Parses(cookies: seq<string>): (r: seq<Option<ParsedCookie>>)
    ensures |r| == |cookies|
    ensures forall i :: 0 <= i < |cookies| ==> r[i] == ParseCookie(cookies[i])
  {
    seq(|cookies|, i requires 0 <= i < |cookies| => ParseCookie(cookies[i]))
  }

  /** The cookies parsed from the list, well-formed ones only, in input order. */
  function ParseAll(cookies: seq<string>): (r: seq<ParsedCookie>)
    ensures |r| <= |cookies|
  {
    Present(Parses(cookies))
  }

  /** `parseCookies`: `undefined` or an empty list gives no cookies. */
  function ParseCookies(cookies: Option<seq<string>>): (r: seq<ParsedCookie>)
    ensures cookies.None? || |cookies.value| == 0 ==> r == []
    ensures cookies.Some? ==> |r| <= |cookies.value|
    ensures cookies.Some? ==> r == ParseAll(cookies.value)
  {
    if cookies.None? || |cookies.value| == 0 then [] else ParseAll(cookies.value)
  }

  lemma {:induction false} PresentConcat(a: seq<Option<ParsedCookie>>, b: seq<Option<ParsedCookie>>)
    ensures Present(a + b) == Present(a) + Present(b)
    decreases |a|
  {
    if |a| == 0 {
      assert a + b == b;
    } else {
      assert (a + b)[0] == a[0] && (a + b)[1..] == a[1..] + b;
      PresentConcat(a[1..], b);
    }
  }

  lemma {:induction false} PresentKeepsAll(ps: seq<Option<ParsedCookie>>)
    ensures |Present(ps)| == |ps| <==> forall i :: 0 <= i < |ps| ==> ps[i].Some?
    decreases |ps|
  {
    if |ps| > 0 {
      var rest := ps[1..];
      PresentKeepsAll(rest);
      if forall i :: 0 <= i < |ps| ==> ps[i].Some? {
        assert forall j :: 0 <= j < |rest| ==> rest[j].Some? by {
          forall j | 0 <= j < |rest| ensures rest[j].Some? {
            assert rest[j] == ps[j + 1];
          }
        }
      } else {
        var i :| 0 <= i < |ps| && ps[i].None?;
        if i > 0 {
          assert rest[i - 1] == ps[i];
        }
      }
    }
  }

  lemma {:induction false} PresentKeeps(ps: seq<Option<ParsedCookie>>, i: nat)
    requires i < |ps| && ps[i].Some?
    ensures ps[i].value in Present(ps)
    decreases i
  {
    if i > 0 {
      assert ps[1..][i - 1] == ps[i];
      PresentKeeps(ps[1..], i - 1);
    }
  }

  lemma {:induction false} PresentFrom(ps: seq<Option<ParsedCookie>>, p: ParsedCookie)
    requires p in Present(ps)
    ensures exists i :: 0 <= i < |ps| && ps[i] == Some(p)
    decreases |ps|
  {
    if p !in AsList(ps[0]) {
      PresentFrom(ps[1..], p);
      var j :| 0 <= j < |ps[1..]| && ps[1..][j] == Some(p);
      assert ps[j + 1] == Some(p);
    }
  }

  /** Order is preserved: parsing a concatenated list concatenates the results. */
  lemma ParseAllConcat(a: seq<string>, b: seq<string>)
    ensures ParseAll(a + b) == ParseAll(a) + ParseAll(b)
  {
    assert Parses(a + b) == Parses(a) + Parses(b);
    PresentConcat(Parses(a), Parses(b));
  }

  /** Nothing is dropped exactly when every header value parses. */
  lemma ParseAllKeepsAll(cookies: seq<string>)
    ensures |ParseAll(cookies)| == |cookies| <==> forall i :: 0 <= i < |cookies| ==> ParseCookie(cookies[i]).Some?
  {
    PresentKeepsAll(Parses(cookies));
  }

  /** Every header value that parses contributes its cookie to the output. */
  lemma ParseAllKeepsParsed(cookies: seq<string>, i: nat)
    requires i < |cookies| && ParseCookie(cookies[i]).Some?
    ensures ParseCookie(cookies[i]).value in ParseAll(cookies)
  {
    PresentKeeps(Parses(cookies), i);
  }

  /** Every cookie in the output comes from some header value: `ParseAll` invents nothing. */
  lemma ParseAllFromInput(cookies: seq<string>, p: ParsedCookie)
    requires p in ParseAll(cookies)
    ensures exists i :: 0 <= i < |cookies| && ParseCookie(cookies[i]) == Some(p)
  {
    PresentFrom(Parses(cookies), p);
    var i :| 0 <= i < |cookies| && Parses(cookies)[i] == Some(p);
  }

  /** A single header value contributes its parse, or nothing. */
  lemma ParseAllSingle(c: string)
    ensures ParseAll([c]) == AsList(ParseCookie(c))
  {
    assert Parses([c]) == [ParseCookie(c)];
    assert Parses([c])[1..] == [];
  }

  // ---------------------------------------------------------------------------
  // Serialisation, the partner of the parser

  /** Text free of the two separators. */
  predicate Plain(s: string) {
    ';' !in s && '=' !in s
  }

  /** An attribute whose key and value hold no separator, so its segment survives both splits intact. */
  predicate PlainAttr(a: (string, AttrValue)) {
    Plain(a.0) && (a.1.Value? ==> Plain(a.1.text))
  }

  /** An attribute the parser reproduces exactly: a lower-case trimmed key and a trimmed, non-empty value. */
  predicate CanonicalAttr(a: (string, AttrValue)) {
    && |a.0| > 0 && Plain(a.0) && Text.Trimmed(a.0) && Text.ToLower(a.0) == a.0
    && (a.1.Value? ==> |a.1.text| > 0 && Plain(a.1.text) && Text.Trimmed(a.1.text))
  }

  /** A cookie whose name and value are trimmed and hold no separator. */
  predicate Canonical(name: string, value: string, attrs: seq<(string, AttrValue)>) {
    && Plain(name) && Plain(value) && Text.Trimmed(name) && Text.Trimmed(value)
    && forall i :: 0 <= i < |attrs| ==> CanonicalAttr(attrs[i])
  }

  /** `; key` or `; key=value`, the segment after the `;`. */
  function AttrSegment(a: (string, AttrValue)): string {
    match a.1
    case Flag => " " + a.0
    case Value(v) => " " + a.0 + "=" + v
  }

  function AttrSegments(attrs: seq<(string, AttrValue)>): (r: seq<string>)
    ensures |r| == |attrs|
    ensures forall i :: 0 <= i < |attrs| ==> r[i] == AttrSegment(attrs[i])
  {
    seq(|attrs|, i requires 0 <= i < |attrs| => AttrSegment(attrs[i]))
  }

  /** The header value a server sends: `name=value; key=value; flag`. */
  function Format(name: string, value: string, attrs: seq<(string, AttrValue)>): string {
    Text.Join([name + "=" + value] + AttrSegments(attrs), ';')
  }

  /**
    How the parser reads back an attribute the server wrote: the key trimmed and lower-cased,
    a non-empty value trimmed, and an empty value or a bare key read as `true`.
   */
  function Entry(a: (string, AttrValue)): (string, AttrValue) {
    (Text.ToLower(Text.Trim(a.0)), if a.1.Value? && |a.1.text| > 0 then Value(Text.Trim(a.1.text)) else Flag)
  }

  function Entries(attrs: seq<(string, AttrValue)>): (r: seq<(string, AttrValue)>)
    ensures |r| == |attrs|
    ensures forall i :: 0 <= i < |attrs| ==> r[i] == Entry(attrs[i])
  {
    seq(|attrs|, i requires 0 <= i < |attrs| => Entry(attrs[i]))
  }

  /** The options map a list of entries describes: set in order, later keys winning. */
  function AttrMap(attrs: seq<(string, AttrValue)>, options: map<string, AttrValue>): map<string, AttrValue>
    decreases |attrs|
  {
    if |attrs| == 0 then options
    else AttrMap(attrs[1..], options[attrs[0].0 := attrs[0].1])
  }

  lemma SegmentPlain(a: (string, AttrValue))
    requires PlainAttr(a)
    ensures ';' !in AttrSegment(a)
  {
    var space: string := " ";
    var eq: string := "=";
    assert ';' !in space && ';' !in eq;
    match a.1
    case Flag =>
      assert AttrSegment(a) == space + a.0;
    case Value(v) =>
      assert AttrSegment(a) == space + a.0 + eq + v;
  }

  /** The key part ` name` of a segment is a non-empty, `=`-free key that trims like the name itself. */
  lemma SpacedKey(name: string)
    requires '=' !in name
    ensures '=' !in " " + name && |" " + name| > 0
    ensures Text.Trim(" " + name) == Text.Trim(name)
  {
    var space: string := " ";
    assert Text.IsSpace(space[0]);
    assert " " + name == [space[0]] + name;
    Text.TrimAfterSpace(space[0], name);
  }

  /** A segment `key=v` with no further `=` splits into exactly those two parts. */
  lemma SplitValueSegment(key: string, v: string)
    requires '=' !in key && '=' !in v
    ensures Text.Split(key + "=" + v, '=') == [key, v]
  {
    var part := key + "=" + v;
    assert part == key + ['='] + v;
    Text.SplitPrefix(key, v, '=');
    Text.SplitNoSep(v, '=');
  }

  /**
    A segment `key=v` with a non-empty key and an `=`-free `v` sets the trimmed, lower-cased key
    to the trimmed `v`, or to `true` when `v` is empty; every other key keeps its value.
   */
  lemma AddValueSegment(options: map<string, AttrValue>, key: string, v: string)
    requires '=' !in key && |key| > 0 && '=' !in v
    ensures AddAttribute(options, key + "=" + v)
            == options[Text.ToLower(Text.Trim(key)) := if |v| > 0 then Value(Text.Trim(v)) else Flag]
  {
    SplitValueSegment(key, v);
    assert SegmentEntry(key + "=" + v) == Some((Text.ToLower(Text.Trim(key)), if |v| > 0 then Value(Text.Trim(v)) else Flag));
  }

  /** One attribute segment without separators inside sets exactly the entry the parser reads back. */
  lemma AddPlain(options: map<string, AttrValue>, a: (string, AttrValue))
    requires PlainAttr(a)
    ensures AddAttribute(options, AttrSegment(a)) == options[Entry(a).0 := Entry(a).1]
  {
    SpacedKey(a.0);
    match a.1
    case Flag =>
    case Value(v) =>
      AddValueSegment(options, " " + a.0, v);
  }

  lemma SegmentsTail(attrs: seq<(string, AttrValue)>)
    requires |attrs| > 0
    ensures AttrSegments(attrs)[1..] == AttrSegments(attrs[1..])
  {
    var a := AttrSegments(attrs)[1..];
    var b := AttrSegments(attrs[1..]);
    forall i | 0 <= i < |a| ensures a[i] == b[i] {
      assert attrs[1..][i] == attrs[i + 1];
    }
  }

  lemma EntriesTail(attrs: seq<(string, AttrValue)>)
    requires |attrs| > 0
    ensures Entries(attrs)[1..] == Entries(attrs[1..])
  {
    var a := Entries(attrs)[1..];
    var b := Entries(attrs[1..]);
    forall i | 0 <= i < |a| ensures a[i] == b[i] {
      assert attrs[1..][i] == attrs[i + 1];
    }
  }

  lemma {:induction false} ParsePlainAttributes(attrs: seq<(string, AttrValue)>, options: map<string, AttrValue>)
    requires forall i :: 0 <= i < |attrs| ==> PlainAttr(attrs[i])
    ensures ParseAttributes(AttrSegments(attrs), options) == AttrMap(Entries(attrs), options)
    decreases |attrs|
  {
    if |attrs| > 0 {
      var segments := AttrSegments(attrs);
      var rest := attrs[1..];
      var entries := Entries(attrs);
      var e := Entry(attrs[0]);
      var next := options[e.0 := e.1];
      assert AddAttribute(options, segments[0]) == next by {
        AddPlain(options, attrs[0]);
      }
      SegmentsTail(attrs);
      EntriesTail(attrs);
      assert forall i :: 0 <= i < |rest| ==> PlainAttr(rest[i]) by {
        forall i | 0 <= i < |rest| ensures PlainAttr(rest[i]) {
          assert rest[i] == attrs[i + 1];
        }
      }
      ParsePlainAttributes(rest, next);
      calc {
        ParseAttributes(segments, options);
        ParseAttributes(segments[1..], next);
        AttrMap(entries[1..], next);
        { assert entries[0] == e; }
        AttrMap(entries, options);
      }
    }
  }

  /**
    Round trip: parsing a formatted cookie whose parts hold no separator gives back the trimmed
    name and value and the attributes as the parser reads them (keys trimmed and lower-cased).
   */
  lemma FormatParseRoundTrip(name: string, value: string, attrs: seq<(string, AttrValue)>)
    requires Plain(name) && Plain(value)
    requires forall i :: 0 <= i < |attrs| ==> PlainAttr(attrs[i])
    ensures ParseCookie(Format(name, value, attrs))
            == Some(ParsedCookie(Text.Trim(name), Text.Trim(value), AttrMap(Entries(attrs), map[])))
  {
    FormatSegments(name, value, attrs);
    SplitValueSegment(name, value);
    assert ([name + "=" + value] + AttrSegments(attrs))[1..] == AttrSegments(attrs);
    ParsePlainAttributes(attrs, map[]);
  }

  /** A formatted cookie splits on `;` back into its first segment and its attribute segments. */
  lemma FormatSegments(name: string, value: string, attrs: seq<(string, AttrValue)>)
    requires Plain(name) && Plain(value)
    requires forall i :: 0 <= i < |attrs| ==> PlainAttr(attrs[i])
    ensures Text.Split(Format(name, value, attrs), ';') == [name + "=" + value] + AttrSegments(attrs)
  {
    var first := name + "=" + value;
    var parts := [first] + AttrSegments(attrs);
    assert ';' !in first by {
      var eq: string := "=";
      assert ';' !in eq;
      assert first == name + eq + value;
    }
    forall i | 0 <= i < |parts| ensures ';' !in parts[i] {
      if i > 0 {
        SegmentPlain(attrs[i - 1]);
      }
    }
    Text.SplitJoin(parts, ';');
  }

  /** A canonical attribute is read back unchanged. */
  lemma CanonicalEntry(a: (string, AttrValue))
    requires CanonicalAttr(a)
    ensures Entry(a) == a
  {
    Text.TrimTrimmed(a.0);
    if a.1.Value? {
      Text.TrimTrimmed(a.1.text);
    }
  }

  /** For a canonical cookie the round trip is exact: name, value and attributes come back as written. */
  lemma CanonicalRoundTrip(name: string, value: string, attrs: seq<(string, AttrValue)>)
    requires Canonical(name, value, attrs)
    ensures ParseCookie(Format(name, value, attrs)) == Some(ParsedCookie(name, value, AttrMap(attrs, map[])))
  {
    forall i | 0 <= i < |attrs| ensures PlainAttr(attrs[i]) {
      assert CanonicalAttr(attrs[i]);
    }
    FormatParseRoundTrip(name, value, attrs);
    Text.TrimTrimmed(name);
    Text.TrimTrimmed(value);
    forall i | 0 <= i < |attrs| ensures Entries(attrs)[i] == attrs[i] {
      CanonicalEntry(attrs[i]);
    }
    assert Entries(attrs) == attrs;
  }

  // ---------------------------------------------------------------------------
  // The drop and discard rules

  /** A value holding `=` makes the whole header value unparseable, so it is dropped. */
  lemma ValueWithEqualsDropped(name: string, v1: string, v2: string, attrs: seq<(string, AttrValue)>)
    requires Plain(name) && Plain(v1) && Plain(v2)
    requires forall i :: 0 <= i < |attrs| ==> PlainAttr(attrs[i])
    ensures ParseCookie(Text.Join([name + "=" + v1 + "=" + v2] + AttrSegments(attrs), ';')).None?
  {
    var first := name + "=" + v1 + "=" + v2;
    var parts := [first] + AttrSegments(attrs);
    assert ';' !in first by {
      var eq: string := "=";
      assert ';' !in eq;
      assert first == name + eq + v1 + eq + v2;
    }
    forall i | 0 <= i < |parts| ensures ';' !in parts[i] {
      if i > 0 {
        SegmentPlain(attrs[i - 1]);
      }
    }
    Text.SplitJoin(parts, ';');
    assert first == name + ['='] + (v1 + ['='] + v2);
    Text.SplitPrefix(name, v1 + ['='] + v2, '=');
    Text.SplitPrefix(v1, v2, '=');
    Text.SplitNoSep(v2, '=');
  }

  /** In `key=value=more`, only `value` is kept; the text after the second `=` is discarded. */
  lemma SecondEqualsDiscarded(options: map<string, AttrValue>, key: string, v: string, more: string)
    requires Plain(key) && |key| > 0 && Plain(v) && |v| > 0
    ensures AddAttribute(options, key + "=" + v + "=" + more)
            == options[Text.ToLower(Text.Trim(key)) := Value(Text.Trim(v))]
  {
    var part := key + "=" + v + "=" + more;
    assert part == key + ['='] + (v + "=" + more);
    Text.SplitPrefix(key, v + "=" + more, '=');
    assert v + "=" + more == v + ['='] + more;
    Text.SplitPrefix(v, more, '=');
    assert SegmentEntry(part) == Some((Text.ToLower(Text.Trim(key)), Value(Text.Trim(v))));
  }

  /** A present but empty value (`Max-Age=`) is read as `true`, like a bare flag. */
  lemma EmptyValueIsFlag(options: map<string, AttrValue>, key: string)
    requires Plain(key) && |key| > 0
    ensures AddAttribute(options, key + "=") == options[Text.ToLower(Text.Trim(key)) := Flag]
  {
    var part := key + "=";
    var empty: string := "";
    assert part == key + ['='] + empty;
    Text.SplitPrefix(key, empty, '=');
    assert Text.Split(empty, '=') == [""];
  }

  /**
    A trailing `;` yields an empty segment and adds nothing, but a segment of blanks
    (`"; "`) has a non-empty raw key and sets the empty key to `true`.
   */
  lemma BlankSegments(options: map<string, AttrValue>)
    ensures AddAttribute(options, "") == options
    ensures AddAttribute(options, " ") == options["" := Flag]
  {
    var blank: string := " ";
    assert '=' !in blank;
    assert Text.IsSpace(blank[0]);
    assert Text.TrimStart(blank[1..]) == "";
    assert Text.Trim(blank) == "";
  }
}
