/**
  Session-key cookie obfuscation (`utils/security.ts`).

  A cookie value is `base64(XorPass(salt ++ signKey ++ boxKey))`: 24 random salt bytes,
  two 32-byte keys, then every byte at index 17 or beyond XORed with the byte at
  `index % 17`. The pass reads only indices 0..16 and never writes them, so it undoes
  itself. Base64 is an external library; it enters as a pair of functions and the law
  `Lawful` it is assumed to obey.
 */
module Security {
  import opened Wrappers
  import Text

  type Byte = bv8
  type Bytes = seq<Byte>

  const SaltLen: nat := 24
  const KeyLen: nat := 32
  /** Decoded size of a well-formed cookie: salt plus two keys. */
  const SecureLen: nat := 88
  /** The XOR key is the buffer's own first 17 bytes. */
  const XorPeriod: nat := 17

  /** `index % 17`: the key byte that masks byte `index`. */
  function KeyIndex(index: nat): (k: nat)
    ensures k < XorPeriod
  {
    index % XorPeriod
  }

  /** The external base64 codec (url-safe alphabet, no padding). */
  datatype Base64 = Base64(encode: Bytes -> string, decode: string -> Bytes)

  predicate UrlSafeChar(c: char) {
    ('A' <= c <= 'Z') || ('a' <= c <= 'z') || ('0' <= c <= '9') || c == '-' || c == '_'
  }

  /**
    What the model assumes of the library: decoding undoes encoding, an unpadded encoding
    of `n` bytes has `ceil(4n/3)` characters, and only url-safe characters are emitted.
   */
  ghost predicate Lawful(b64: Base64) {
    && (forall b :: b64.decode(b64.encode(b)) == b)
    && (forall b :: |b64.encode(b)| == (4 * |b| + 2) / 3)
    && (forall b, i :: 0 <= i < |b64.encode(b)| ==> UrlSafeChar(b64.encode(b)[i]))
  }

  /**
    The `for (index = start; index < all.length; index++) all[index] ^= all[index % 17]`
    loop from `start` on, one iteration per call. Bytes below `start` are left alone and
    every later byte ends up masked by the ORIGINAL key byte, because the key bytes are
    never written.
   */
  function XorFrom(all: Bytes, start: nat): (r: Bytes)
    requires XorPeriod <= start
    ensures |r| == |all|
    ensures forall i :: 0 <= i < |all| && i < start ==> r[i] == all[i]
    ensures forall i :: start <= i < |all| ==> r[i] == all[i] ^ all[KeyIndex(i)]
    decreases |all| - start
  {
    if start >= |all| then all
    else
      var next := all[start := all[start] ^ all[KeyIndex(start)]];
      var r := XorFrom(next, start + 1);
      XorStep(all, next, r, start);
      r
  }

  /** One iteration leaves the key bytes alone, so later bytes still see the original key. */
  lemma XorStep(all: Bytes, next: Bytes, r: Bytes, start: nat)
    requires XorPeriod <= start < |all|
    requires next == all[start := all[start] ^ all[KeyIndex(start)]]
    requires |r| == |next|
    requires forall i :: 0 <= i < |next| && i < start + 1 ==> r[i] == next[i]
    requires forall i :: start + 1 <= i < |next| ==> r[i] == next[i] ^ next[KeyIndex(i)]
    ensures forall i :: 0 <= i < |all| && i < start ==> r[i] == all[i]
    ensures forall i :: start <= i < |all| ==> r[i] == all[i] ^ all[KeyIndex(i)]
  {
    forall i | start <= i < |all|
      ensures r[i] == all[i] ^ all[KeyIndex(i)]
    {
      assert next[KeyIndex(i)] == all[KeyIndex(i)];
    }
  }

  /** The obfuscation pass over a whole buffer (`utils/security.ts` lines 62-65 and 80-83). */
  function XorPass(all: Bytes): (r: Bytes)
    ensures |r| == |all|
    ensures forall i :: 0 <= i < |all| && i < XorPeriod ==> r[i] == all[i]
    ensures forall i :: XorPeriod <= i < |all| ==> r[i] == all[i] ^ all[KeyIndex(i)]
  {
    XorFrom(all, XorPeriod)
  }

  /** The pass is an involution: applying it twice restores the buffer. */
  lemma XorPassInvolution(all: Bytes)
    ensures XorPass(XorPass(all)) == all
  {
    var once := XorPass(all);
    var twice := XorPass(once);
    forall i | 0 <= i < |all|
      ensures twice[i] == all[i]
    {
      if i >= XorPeriod {
        assert once[i % XorPeriod] == all[KeyIndex(i)];
      }
    }
  }

  /** `encodeSecureString`: lay out salt, sign key and box key, mask, then base64-encode. */
  function EncodeSecureString(b64: Base64, salt: Bytes, signKey: Bytes, boxKey: Bytes): (r: string)
    requires |salt| == SaltLen
    ensures Lawful(b64) ==> XorPass(b64.decode(r)) == salt + signKey + boxKey
    ensures Lawful(b64) ==> |r| == (4 * (SaltLen + |signKey| + |boxKey|) + 2) / 3
  {
    var all := salt + signKey + boxKey;
    XorPassInvolution(all);
    b64.encode(XorPass(all))
  }

  /** The two key halves recovered from one cookie; `null` becomes `None`. */
  datatype KeyHalves = KeyHalves(sign: Option<Bytes>, box: Option<Bytes>)

  const Missing := KeyHalves(None, None)

  /**
    `decodeSecureString`: both halves are missing unless the text is longer than 88
    characters and decodes to exactly 88 bytes; then both are 32-byte slices, so the
    source's final length check can never fire.
   */
  function DecodeSecureString(b64: Base64, str: string): (r: KeyHalves)
    ensures r.sign.Some? <==> r.box.Some?
    ensures r.sign.Some? <==> |str| > SecureLen && |b64.decode(str)| == SecureLen
    ensures r.sign.Some? ==> |r.sign.value| == KeyLen && |r.box.value| == KeyLen
  {
    if |str| == 0 || |str| <= SecureLen then Missing
    else
      var all := b64.decode(str);
      if |all| != SecureLen then Missing
      else
        var plain := XorPass(all);
        var signKey := plain[SaltLen..SaltLen + KeyLen];
        var boxKey := plain[SaltLen + KeyLen..];
        if |signKey| != KeyLen || |boxKey| != KeyLen then Missing
        else KeyHalves(Some(signKey), Some(boxKey))
  }

  /** Round trip: decoding the encoding of two 32-byte keys yields exactly those keys. */
  lemma SecureStringRoundTrip(b64: Base64, salt: Bytes, signKey: Bytes, boxKey: Bytes)
    requires Lawful(b64)
    requires |salt| == SaltLen && |signKey| == KeyLen && |boxKey| == KeyLen
    ensures DecodeSecureString(b64, EncodeSecureString(b64, salt, signKey, boxKey))
            == KeyHalves(Some(signKey), Some(boxKey))
  {
    var all := salt + signKey + boxKey;
    var str := EncodeSecureString(b64, salt, signKey, boxKey);
    assert |str| == 118;
    var decoded := b64.decode(str);
    assert decoded == XorPass(all);
    XorPassInvolution(all);
    var plain := XorPass(decoded);
    assert plain == all;
    assert plain[SaltLen..SaltLen + KeyLen] == signKey;
    assert plain[SaltLen + KeyLen..] == boxKey;
  }

  /**
    The converse: whatever a successful decode returns, re-encoding it with the salt it
    carried reproduces the very bytes the cookie decoded to.
   */
  lemma DecodedReencodes(b64: Base64, str: string)
    requires Lawful(b64)
    requires DecodeSecureString(b64, str).sign.Some?
    ensures var r := DecodeSecureString(b64, str);
            var salt := XorPass(b64.decode(str))[..SaltLen];
            b64.decode(EncodeSecureString(b64, salt, r.sign.value, r.box.value)) == b64.decode(str)
  {
    var r := DecodeSecureString(b64, str);
    var all := b64.decode(str);
    var plain := XorPass(all);
    var salt := plain[..SaltLen];
    assert salt + r.sign.value + r.box.value == plain;
    var enc := EncodeSecureString(b64, salt, r.sign.value, r.box.value);
    assert b64.decode(enc) == XorPass(plain);
    XorPassInvolution(all);
  }

  // ---------------------------------------------------------------------------
  // generateUUID

  /** `replace(/-/g, '')`: the text with every hyphen removed. */
  function StripHyphens(s: string): (r: string)
    ensures '-' !in r
    ensures |r| <= |s|
    decreases |s|
  {
    if |s| == 0 then ""
    else (if s[0] == '-' then "" else [s[0]]) + StripHyphens(s[1..])
  }

  /** Only hyphens go: every other character is kept, as often as it occurred. */
  lemma {:induction false} StripHyphensKeeps(s: string)
    ensures multiset(StripHyphens(s)) == multiset(s)['-' := 0]
    ensures '-' !in s ==> StripHyphens(s) == s
    decreases |s|
  {
    if |s| > 0 {
      StripHyphensKeeps(s[1..]);
      assert s == [s[0]] + s[1..];
    }
  }

  lemma {:induction false} StripHyphensConcat(a: string, b: string)
    ensures StripHyphens(a + b) == StripHyphens(a) + StripHyphens(b)
    decreases |a|
  {
    if |a| == 0 {
      assert a + b == b;
    } else {
      var ab := a + b;
      assert ab[0] == a[0] && ab[1..] == a[1..] + b;
      StripHyphensConcat(a[1..], b);
    }
  }

  predicate HexDigit(c: char) {
    ('0' <= c <= '9') || ('a' <= c <= 'f') || ('A' <= c <= 'F')
  }

  /** The 8-4-4-4-12 text form `crypto.randomUUID()` returns. */
  predicate CanonicalUuid(u: string) {
    && |u| == 36
    && (forall i :: 0 <= i < 36 ==> (u[i] == '-' <==> i in {8, 13, 18, 23}))
    && (forall i :: 0 <= i < 36 && u[i] != '-' ==> HexDigit(u[i]))
  }

  /** `generateUUID` over the UUID the platform supplied. */
  function GenerateUuid(randomUuid: string): (nonce: string)
    ensures '-' !in nonce
  {
    StripHyphens(randomUuid)
  }

  /** Removing the hyphen between two pieces joins what is left of each. */
  lemma StripAroundHyphen(a: string, b: string)
    ensures StripHyphens(a + "-" + b) == StripHyphens(a) + StripHyphens(b)
  {
    var dash: string := "-";
    assert dash[0] == '-' && dash[1..] == "";
    assert StripHyphens(dash) == "";
    StripHyphensConcat(a + dash, b);
    StripHyphensConcat(a, dash);
  }

  /** The nonce of a canonical UUID is its five hex blocks run together. */
  lemma UuidNonceBlocks(u: string)
    requires CanonicalUuid(u)
    ensures GenerateUuid(u) == u[..8] + u[9..13] + u[14..18] + u[19..23] + u[24..]
  {
    var b0, b1, b2, b3, b4 := u[..8], u[9..13], u[14..18], u[19..23], u[24..];
    assert u == b0 + "-" + b1 + "-" + b2 + "-" + b3 + "-" + b4;
    assert '-' !in b0 && '-' !in b1 && '-' !in b2 && '-' !in b3 && '-' !in b4 by {
      forall i | 0 <= i < 36 && i !in {8, 13, 18, 23} ensures u[i] != '-' { }
    }
    StripHyphensKeeps(b0);
    StripHyphensKeeps(b1);
    StripHyphensKeeps(b2);
    StripHyphensKeeps(b3);
    StripHyphensKeeps(b4);
    StripAroundHyphen(b0 + "-" + b1 + "-" + b2 + "-" + b3, b4);
    StripAroundHyphen(b0 + "-" + b1 + "-" + b2, b3);
    StripAroundHyphen(b0 + "-" + b1, b2);
    StripAroundHyphen(b0, b1);
  }

  /** A canonical UUID yields a 32-character nonce made only of hex digits. */
  lemma UuidNonceShape(u: string)
    requires CanonicalUuid(u)
    ensures |GenerateUuid(u)| == 32
    ensures forall i :: 0 <= i < 32 ==> HexDigit(GenerateUuid(u)[i])
  {
    UuidNonceBlocks(u);
    var n := GenerateUuid(u);
    forall i | 0 <= i < 32 ensures HexDigit(n[i]) {
      var j := if i < 8 then i else if i < 12 then i + 1 else if i < 16 then i + 2 else if i < 20 then i + 3 else i + 4;
      assert n[i] == u[j];
    }
  }

  // ---------------------------------------------------------------------------
  // decodeSecrets

  /** `c.trim()` of every segment. */
  function TrimAll(segments: seq<string>): (r: seq<string>)
    ensures |r| == |segments|
    ensures forall i :: 0 <= i < |segments| ==> r[i] == Text.Trim(segments[i])
  {
    seq(|segments|, i requires 0 <= i < |segments| => Text.Trim(segments[i]))
  }

  /**
    Index of the first item that starts with `prefix`; applied to the trimmed cookie
    segments this is `document.cookie.split(';').find(c => c.trim().startsWith(prefix))`.
   */
  function FirstWithPrefix(items: seq<string>, prefix: string): (r: Option<nat>)
    ensures r.Some? ==> r.value < |items| && prefix <= items[r.value]
    ensures r.Some? ==> forall j :: 0 <= j < r.value ==> !(prefix <= items[j])
    ensures r.None? ==> forall j :: 0 <= j < |items| ==> !(prefix <= items[j])
    decreases |items|
  {
    if |items| == 0 then None
    else if prefix <= items[0] then Some(0)
    else
      var rest := FirstWithPrefix(items[1..], prefix);
      if rest.None? then None else Some(rest.value + 1)
  }

  /** The value of cookie `name` in `document.cookie`, or `''` when it is absent. */
  function CookieValue(documentCookie: string, name: string): (r: string)
    ensures '=' !in r
  {
    var segments := Text.Split(documentCookie, ';');
    match FirstWithPrefix(TrimAll(segments), name + "=")
    case None => ""
    case Some(i) => ValueField(segments[i])
  }

  /** `segment.split('=')[1] ?? ''`: the text after the first `=`, up to the next one. */
  function ValueField(segment: string): (r: string)
    ensures '=' !in r
    ensures '=' in segment ==> Text.SecondPart(segment, '=', r)
    ensures '=' !in segment ==> r == ""
  {
    var parts := Text.Split(segment, '=');
    if |parts| > 1 then
      Text.SplitSecond(segment, '=');
      parts[1]
    else ""
  }

  datatype KeyPair = KeyPair(publicKey: Bytes, privateKey: Bytes)

  /** The tuple `[boxKeyPair, signKeyPair, sessionId]`, in that order. */
  datatype Secrets = Secrets(box: KeyPair, sign: KeyPair, sessionId: string)

  /** Freshly generated keys and salts, used only when the cookies must be rewritten. */
  datatype Fresh = Fresh(box: KeyPair, sign: KeyPair, sidSalt: Bytes, cidSalt: Bytes)

  /** The `sid` and `cid` values written back to `document.cookie`. */
  datatype CookiePair = CookiePair(sid: string, cid: string)

  datatype Decoded = Decoded(secrets: Secrets, rewrite: Option<CookiePair>)

  /** True when some of the four keys read from the cookies is `null`. */
  predicate AnyKeyMissing(pub: KeyHalves, pri: KeyHalves) {
    pub.box.None? || pub.sign.None? || pri.box.None? || pri.sign.None?
  }

  /**
    `decodeSecrets`: public keys live in `sid`, private keys in `cid`. If any of the four
    is missing, new key pairs are made and both cookies are rewritten; otherwise the public
    halves from `sid` are paired with the private halves from `cid`.
   */
  function DecodeSecrets(b64: Base64, documentCookie: string, gen: Fresh): (d: Decoded)
    requires |gen.sidSalt| == SaltLen && |gen.cidSalt| == SaltLen
    ensures var pub := DecodeSecureString(b64, CookieValue(documentCookie, "sid"));
            var pri := DecodeSecureString(b64, CookieValue(documentCookie, "cid"));
            && (d.rewrite.Some? <==> AnyKeyMissing(pub, pri))
            && (d.rewrite.Some? ==>
                  && d.secrets.box == gen.box && d.secrets.sign == gen.sign
                  && d.secrets.sessionId == d.rewrite.value.sid)
            && (d.rewrite.None? ==>
                  && d.secrets.box == KeyPair(pub.box.value, pri.box.value)
                  && d.secrets.sign == KeyPair(pub.sign.value, pri.sign.value)
                  && d.secrets.sessionId == CookieValue(documentCookie, "sid"))
  {
    var sessionId := CookieValue(documentCookie, "sid");
    var clientKey := CookieValue(documentCookie, "cid");
    var pub := DecodeSecureString(b64, sessionId);
    var pri := DecodeSecureString(b64, clientKey);
    if AnyKeyMissing(pub, pri) then
      var sid := EncodeSecureString(b64, gen.sidSalt, gen.sign.publicKey, gen.box.publicKey);
      var cid := EncodeSecureString(b64, gen.cidSalt, gen.sign.privateKey, gen.box.privateKey);
      Decoded(Secrets(gen.box, gen.sign, sid), Some(CookiePair(sid, cid)))
    else
      Decoded(Secrets(KeyPair(pub.box.value, pri.box.value), KeyPair(pub.sign.value, pri.sign.value), sessionId), None)
  }

  /** Key pairs as the libraries make them: 32-byte public and private keys. */
  predicate WellSized(kp: KeyPair) {
    |kp.publicKey| == KeyLen && |kp.privateKey| == KeyLen
  }

  /**
    After a rewrite, decoding the new cookies gives back exactly the gen keys: the
    equality checks the source logs after regenerating always succeed.
   */
  lemma RewrittenCookiesDecode(b64: Base64, documentCookie: string, gen: Fresh)
    requires Lawful(b64)
    requires |gen.sidSalt| == SaltLen && |gen.cidSalt| == SaltLen
    requires WellSized(gen.box) && WellSized(gen.sign)
    requires DecodeSecrets(b64, documentCookie, gen).rewrite.Some?
    ensures var c := DecodeSecrets(b64, documentCookie, gen).rewrite.value;
            && DecodeSecureString(b64, c.sid) == KeyHalves(Some(gen.sign.publicKey), Some(gen.box.publicKey))
            && DecodeSecureString(b64, c.cid) == KeyHalves(Some(gen.sign.privateKey), Some(gen.box.privateKey))
  {
    SecureStringRoundTrip(b64, gen.sidSalt, gen.sign.publicKey, gen.box.publicKey);
    SecureStringRoundTrip(b64, gen.cidSalt, gen.sign.privateKey, gen.box.privateKey);
  }

  /** The header the browser presents after both cookies have been stored. */
  function CookieHeader(c: CookiePair): string {
    "sid=" + c.sid + "; cid=" + c.cid
  }

  /** An encoded cookie value holds neither separator nor whitespace. */
  lemma EncodedIsPlain(b64: Base64, salt: Bytes, k1: Bytes, k2: Bytes)
    requires Lawful(b64) && |salt| == SaltLen
    ensures var s := EncodeSecureString(b64, salt, k1, k2);
            ';' !in s && '=' !in s && |s| > 0 && Text.Trimmed(s)
  {
    var s := EncodeSecureString(b64, salt, k1, k2);
    forall i | 0 <= i < |s| ensures UrlSafeChar(s[i]) { }
  }

  /** The header splits into the `sid` segment and the space-led `cid` segment. */
  lemma HeaderSegments(x: string, y: string)
    requires ';' !in x && ';' !in y
    ensures Text.Split(CookieHeader(CookiePair(x, y)), ';') == ["sid=" + x, " cid=" + y]
  {
    var first := "sid=" + x;
    var second := " cid=" + y;
    assert CookieHeader(CookiePair(x, y)) == first + [';'] + second;
    assert ';' !in first by { assert forall i :: 4 <= i < |first| ==> first[i] == x[i - 4]; }
    assert ';' !in second by { assert forall i :: 5 <= i < |second| ==> second[i] == y[i - 5]; }
    Text.SplitPrefix(first, second, ';');
    Text.SplitNoSep(second, ';');
  }

  /** `(name + "=" + v).split('=')[1]` is `v` when neither side holds `=`. */
  lemma ValueAfterEquals(name: string, v: string)
    requires '=' !in name && '=' !in v
    ensures |Text.Split(name + "=" + v, '=')| > 1
    ensures Text.Split(name + "=" + v, '=')[1] == v
  {
    assert name + "=" + v == name + ['='] + v;
    Text.SplitPrefix(name, v, '=');
    Text.SplitNoSep(v, '=');
  }

  /** The `sid` segment is already trimmed. */
  lemma SidSegmentTrim(x: string)
    requires |x| > 0 && Text.Trimmed(x)
    ensures Text.Trim("sid=" + x) == "sid=" + x
  {
    var a := "sid=" + x;
    assert Text.Trimmed(a) by {
      assert a[0] == 's' && a[|a| - 1] == x[|x| - 1];
      assert !Text.IsSpace('s');
    }
    var none: string := "";
    Text.TrimSpacesThen(none, a);
    assert none + a == a;
  }

  /** Trimming the `cid` segment drops its leading space. */
  lemma CidSegmentTrim(y: string)
    requires Text.Trimmed(y)
    ensures Text.Trim(" cid=" + y) == "cid=" + y
  {
    var b := "cid=" + y;
    assert Text.Trimmed(b) by {
      assert b[0] == 'c' && b[|b| - 1] == if |y| == 0 then '=' else y[|y| - 1];
      assert !Text.IsSpace('c') && !Text.IsSpace('=');
    }
    var space: string := " ";
    assert Text.IsSpace(space[0]);
    Text.TrimSpacesThen(space, b);
    assert space + b == " cid=" + y;
  }

  /**
    When the i-th segment is the first whose trim starts with `name=`, the value is that
    segment's text after its first `=`, up to the next `=` or the end.
   */
  lemma CookieValueFirst(documentCookie: string, name: string, i: nat)
    requires var segments := Text.Split(documentCookie, ';');
      i < |segments| && name + "=" <= Text.Trim(segments[i])
    requires forall j :: 0 <= j < i ==> !(name + "=" <= Text.Trim(Text.Split(documentCookie, ';')[j]))
    ensures Text.SecondPart(Text.Split(documentCookie, ';')[i], '=', CookieValue(documentCookie, name))
  {
    var segments := Text.Split(documentCookie, ';');
    var trimmed := TrimAll(segments);
    var found := FirstWithPrefix(trimmed, name + "=");
    assert found == Some(i) by {
      assert name + "=" <= trimmed[i];
      assert forall j :: 0 <= j < i ==> !(name + "=" <= trimmed[j]);
    }
    var seg := segments[i];
    assert CookieValue(documentCookie, name) == ValueField(seg);
    assert '=' in seg by {
      assert Text.Trim(seg)[|name|] == '=';
      Text.TrimWithin(seg, '=');
    }
  }

  /** A cookie no segment names reads as `''`. */
  lemma CookieValueAbsent(documentCookie: string, name: string)
    requires forall i :: 0 <= i < |Text.Split(documentCookie, ';')| ==> !(name + "=" <= Text.Trim(Text.Split(documentCookie, ';')[i]))
    ensures CookieValue(documentCookie, name) == ""
  {
  }

  /** The value is read from the first matching segment. */
  lemma CookieValueAt(h: string, name: string, i: nat, v: string)
    requires FirstWithPrefix(TrimAll(Text.Split(h, ';')), name + "=") == Some(i)
    requires var kv := Text.Split(Text.Split(h, ';')[i], '='); |kv| > 1 && kv[1] == v
    ensures CookieValue(h, name) == v
  {
  }

  /** Trimmed, the header's segments are `"sid=" + x` and `"cid=" + y`. */
  lemma HeaderTrimmed(x: string, y: string)
    requires ';' !in x && ';' !in y && |x| > 0 && Text.Trimmed(x) && Text.Trimmed(y)
    ensures TrimAll(Text.Split(CookieHeader(CookiePair(x, y)), ';')) == ["sid=" + x, "cid=" + y]
  {
    HeaderSegments(x, y);
    SidSegmentTrim(x);
    CidSegmentTrim(y);
  }

  /** `sid` is found in the first segment of the header. */
  lemma SidSegment(x: string, y: string)
    requires ';' !in x && ';' !in y && |x| > 0 && Text.Trimmed(x) && Text.Trimmed(y)
    ensures FirstWithPrefix(TrimAll(Text.Split(CookieHeader(CookiePair(x, y)), ';')), "sid=") == Some(0)
  {
    HeaderTrimmed(x, y);
    assert "sid=" <= "sid=" + x;
  }

  /** `cid` is found in the second segment of the header. */
  lemma CidSegment(x: string, y: string)
    requires ';' !in x && ';' !in y && |x| > 0 && Text.Trimmed(x) && Text.Trimmed(y)
    ensures FirstWithPrefix(TrimAll(Text.Split(CookieHeader(CookiePair(x, y)), ';')), "cid=") == Some(1)
  {
    HeaderTrimmed(x, y);
    CidSecond(x, y);
  }

  lemma CidSecond(x: string, y: string)
    ensures FirstWithPrefix(["sid=" + x, "cid=" + y], "cid=") == Some(1)
  {
    var items := ["sid=" + x, "cid=" + y];
    assert !("cid=" <= items[0]) by { assert items[0][0] == 's'; }
    assert "cid=" <= items[1];
    assert items[1..] == [items[1]];
    assert FirstWithPrefix([items[1]], "cid=") == Some(0);
  }

  /** The first segment of the header carries `x` after its `=`. */
  lemma SidParts(x: string, y: string)
    requires ';' !in x && '=' !in x && ';' !in y
    ensures var segments := Text.Split(CookieHeader(CookiePair(x, y)), ';');
            && |segments| > 0
            && |Text.Split(segments[0], '=')| > 1 && Text.Split(segments[0], '=')[1] == x
  {
    HeaderSegments(x, y);
    var first := "sid=" + x;
    assert first == "sid" + "=" + x;
    ValueAfterEquals("sid", x);
  }

  /** In the header `"sid=" + x + "; cid=" + y`, the `sid` lookup finds `x`. */
  lemma SidLookup(x: string, y: string)
    requires ';' !in x && '=' !in x && ';' !in y
    requires |x| > 0 && Text.Trimmed(x) && Text.Trimmed(y)
    ensures CookieValue(CookieHeader(CookiePair(x, y)), "sid") == x
  {
    var h := CookieHeader(CookiePair(x, y));
    SidParts(x, y);
    assert FirstWithPrefix(TrimAll(Text.Split(h, ';')), "sid" + "=") == Some(0) by {
      SidSegment(x, y);
      assert "sid" + "=" == "sid=";
    }
    CookieValueAt(h, "sid", 0, x);
  }

  /** The second segment of the header carries `y` after its `=`. */
  lemma CidParts(x: string, y: string)
    requires ';' !in x && ';' !in y && '=' !in y
    ensures var segments := Text.Split(CookieHeader(CookiePair(x, y)), ';');
            && |segments| > 1
            && |Text.Split(segments[1], '=')| > 1 && Text.Split(segments[1], '=')[1] == y
  {
    HeaderSegments(x, y);
    var second := " cid=" + y;
    assert second == " cid" + "=" + y;
    ValueAfterEquals(" cid", y);
  }

  /** In the header `"sid=" + x + "; cid=" + y`, the `cid` lookup finds `y`. */
  lemma CidLookup(x: string, y: string)
    requires ';' !in x && ';' !in y && '=' !in y
    requires |x| > 0 && Text.Trimmed(x) && Text.Trimmed(y)
    ensures CookieValue(CookieHeader(CookiePair(x, y)), "cid") == y
  {
    var h := CookieHeader(CookiePair(x, y));
    CidParts(x, y);
    assert FirstWithPrefix(TrimAll(Text.Split(h, ';')), "cid" + "=") == Some(1) by {
      CidSegment(x, y);
      assert "cid" + "=" == "cid=";
    }
    CookieValueAt(h, "cid", 1, y);
  }

  /**
    Lazy creation happens once: after the rewritten cookies are stored, the next call
    decodes them, rewrites nothing, and returns the same secrets.
   */
  lemma SecretsPersist(b64: Base64, documentCookie: string, gen: Fresh, later: Fresh)
    requires Lawful(b64)
    requires |gen.sidSalt| == SaltLen && |gen.cidSalt| == SaltLen
    requires |later.sidSalt| == SaltLen && |later.cidSalt| == SaltLen
    requires WellSized(gen.box) && WellSized(gen.sign)
    requires DecodeSecrets(b64, documentCookie, gen).rewrite.Some?
    ensures var first := DecodeSecrets(b64, documentCookie, gen);
            var second := DecodeSecrets(b64, CookieHeader(first.rewrite.value), later);
            second.rewrite.None? && second.secrets == first.secrets
  {
    var first := DecodeSecrets(b64, documentCookie, gen);
    var c := first.rewrite.value;
    EncodedIsPlain(b64, gen.sidSalt, gen.sign.publicKey, gen.box.publicKey);
    EncodedIsPlain(b64, gen.cidSalt, gen.sign.privateKey, gen.box.privateKey);
    SidLookup(c.sid, c.cid);
    CidLookup(c.sid, c.cid);
    RewrittenCookiesDecode(b64, documentCookie, gen);
  }
}
