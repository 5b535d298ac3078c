/**
 * Records and associated data of the encrypted credential store
 * (backend/python/config/encrypted_credential_store.py).
 */
module CredentialCodec {
  import opened Common
  import opened Json
  import opened Utf8

  type Bytes = seq<Byte>

  const NONCE_LENGTH: nat := 12

  // ---------- hexadecimal ----------

  function HexDigit(n: nat): (c: char)
    requires n < 16
    ensures IsHex(c) && HexValue(c) == n
  {
    "0123456789abcdef"[n]
  }

  predicate IsHex(c: char) {
    '0' <= c <= '9' || 'a' <= c <= 'f' || 'A' <= c <= 'F'
  }

  function HexValue(c: char): (n: nat)
    requires IsHex(c)
    ensures n < 16
  {
    if c <= '9' then c as int - '0' as int
    else if c <= 'F' then c as int - 'A' as int + 10
    else c as int - 'a' as int + 10
  }

  function ToHex(b: Bytes): string {
    if b == [] then "" else [HexDigit(b[0] / 16), HexDigit(b[0] % 16)] + ToHex(b[1..])
  }

  predicate HexText(s: string) {
    s != "" && |s| % 2 == 0 && forall i :: 0 <= i < |s| ==> IsHex(s[i])
  }

  function FromHex(s: string): Bytes
    requires |s| % 2 == 0 && forall i :: 0 <= i < |s| ==> IsHex(s[i])
  {
    if s == "" then [] else [HexValue(s[0]) * 16 + HexValue(s[1])] + FromHex(s[2..])
  }

  lemma {:induction false} HexRoundTrip(b: Bytes)
    ensures b != [] ==> HexText(ToHex(b))
    ensures |ToHex(b)| % 2 == 0 && forall i :: 0 <= i < |ToHex(b)| ==> IsHex(ToHex(b)[i])
    ensures FromHex(ToHex(b)) == b
  {
    if b != [] {
      HexRoundTrip(b[1..]);
      HexStep(HexDigit(b[0] / 16), HexDigit(b[0] % 16), ToHex(b[1..]));
    }
  }

  lemma HexStep(high: char, low: char, rest: string)
    requires IsHex(high) && IsHex(low) && |rest| % 2 == 0 && forall i :: 0 <= i < |rest| ==> IsHex(rest[i])
    ensures HexText([high, low] + rest)
    ensures FromHex([high, low] + rest) == [HexValue(high) * 16 + HexValue(low)] + FromHex(rest)
  {
    var s := [high, low] + rest;
    assert s[2..] == rest && s[0] == high && s[1] == low;
    NextByte(s, high, low, rest);
  }

  lemma NextByte(s: string, high: char, low: char, rest: string)
    requires HexText(s) && |rest| % 2 == 0 && forall i :: 0 <= i < |rest| ==> IsHex(rest[i])
    requires s[0] == high && s[1] == low && s[2..] == rest
    ensures FromHex(s) == [HexValue(high) * 16 + HexValue(low)] + FromHex(rest)
  {
  }

  lemma {:induction false} FromHexLength(s: string)
    requires |s| % 2 == 0 && forall i :: 0 <= i < |s| ==> IsHex(s[i])
    ensures |FromHex(s)| == |s| / 2
  {
    if s != "" {
      FromHexLength(s[2..]);
    }
  }

  // ---------- records ----------

  datatype StoredCredential = StoredCredential(
    credentialId: string,
    userId: string,
    providerId: string,
    encryptedSecret: Bytes,
    nonce: Bytes,
    createdAt: Number,
    updatedAt: Number)

  function ToDict(c: StoredCredential): Value {
    Obj(map[
      "credential_id" := Str(c.credentialId),
      "user_id" := Str(c.userId),
      "provider_id" := Str(c.providerId),
      "encrypted_secret" := Str(ToHex(c.encryptedSecret)),
      "nonce" := Str(ToHex(c.nonce)),
      "created_at" := Num(c.createdAt),
      "updated_at" := Num(c.updatedAt)])
  }

  function Pow2(n: nat): nat {
    if n == 0 then 1 else 2 * Pow2(n - 1)
  }

  // Integers from here on overflow when converted to a double.
  const FLOAT_LIMIT: int := Pow2(1024) - Pow2(970)

  // A finite number that is not negative.
  predicate Timestamp(n: Number) {
    match n
    case Int(i) => 0 <= i < FLOAT_LIMIT
    case Float(v, finite) => finite && v >= 0.0
  }

  predicate IsName(fields: map<string, Value>, key: string) {
    key in fields && fields[key].Str? && fields[key].s != ""
  }

  predicate IsTimestamp(fields: map<string, Value>, key: string) {
    key in fields && fields[key].Num? && Timestamp(fields[key].number)
  }

  predicate IsHexBytes(fields: map<string, Value>, key: string) {
    key in fields && fields[key].Str? && HexText(fields[key].s)
  }

  // The record, or None where the code raises; further members are ignored.
  function FromDict(v: Value): Option<StoredCredential> {
    if !v.Obj? then None
    else
      var f := v.fields;
      if !(IsName(f, "credential_id") && IsName(f, "user_id") && IsName(f, "provider_id")
           && IsTimestamp(f, "created_at") && IsTimestamp(f, "updated_at")
           && IsHexBytes(f, "encrypted_secret") && IsHexBytes(f, "nonce")) then None
      else if |FromHex(f["nonce"].s)| != NONCE_LENGTH then None
      else
        Some(StoredCredential(
          f["credential_id"].s, f["user_id"].s, f["provider_id"].s,
          FromHex(f["encrypted_secret"].s), FromHex(f["nonce"].s),
          f["created_at"].number, f["updated_at"].number))
  }

  predicate WellFormed(c: StoredCredential) {
    && c.credentialId != "" && c.userId != "" && c.providerId != ""
    && c.encryptedSecret != [] && |c.nonce| == NONCE_LENGTH
    && Timestamp(c.createdAt) && Timestamp(c.updatedAt)
  }

  // Writing a record and reading it back gives the record, exactly for the
  // well-formed ones; every other record would be refused.
  lemma RecordRoundTrip(c: StoredCredential)
    ensures FromDict(ToDict(c)) == if WellFormed(c) then Some(c) else None
  {
    HexRoundTrip(c.encryptedSecret);
    HexRoundTrip(c.nonce);
    if c.encryptedSecret == [] { assert ToHex(c.encryptedSecret) == ""; }
    if c.nonce == [] { assert ToHex(c.nonce) == ""; }
  }

  // Whatever is read is well formed, and writing it back keeps its meaning.
  lemma ReadIsWellFormed(v: Value)
    requires FromDict(v).Some?
    ensures WellFormed(FromDict(v).value)
    ensures FromDict(ToDict(FromDict(v).value)) == FromDict(v)
  {
    FromHexLength(v.fields["encrypted_secret"].s);
    RecordRoundTrip(FromDict(v).value);
  }

  // The members of a record, spelled out.
  predicate HasText(f: map<string, Value>, key: string) {
    key in f && f[key].Str? && f[key].s != ""
  }

  predicate HasTime(f: map<string, Value>, key: string) {
    key in f && f[key].Num? &&
    match f[key].number
    case Int(i) => 0 <= i < Pow2(1024) - Pow2(970)
    case Float(v, finite) => finite && v >= 0.0
  }

  predicate HasBytes(f: map<string, Value>, key: string) {
    key in f && f[key].Str? && f[key].s != "" && |f[key].s| % 2 == 0
    && forall i :: 0 <= i < |f[key].s| ==> f[key].s[i] in "0123456789abcdefABCDEF"
  }

  // Exactly which objects are records, member by member; further members are ignored.
  lemma AcceptedExactlyWhen(f: map<string, Value>)
    ensures FromDict(Obj(f)).Some? <==>
      && HasText(f, "credential_id") && HasText(f, "user_id") && HasText(f, "provider_id")
      && HasTime(f, "created_at") && HasTime(f, "updated_at")
      && HasBytes(f, "encrypted_secret") && HasBytes(f, "nonce") && |f["nonce"].s| == 24
  {
    hide FromHex, IsTimestamp, IsHexBytes, HasTime, HasBytes;
    NumberMember(f, "created_at");
    NumberMember(f, "updated_at");
    HexMember(f, "encrypted_secret");
    HexMember(f, "nonce");
    if IsHexBytes(f, "nonce") {
      FromHexLength(f["nonce"].s);
    }
  }

  lemma NumberMember(f: map<string, Value>, key: string)
    ensures IsTimestamp(f, key) <==> HasTime(f, key)
  {
    hide Pow2;
    assert FLOAT_LIMIT == Pow2(1024) - Pow2(970);
  }

  lemma HexMember(f: map<string, Value>, key: string)
    ensures IsHexBytes(f, key) <==> HasBytes(f, key)
    ensures IsHexBytes(f, key) ==> key in f && f[key].Str? && HexText(f[key].s)
  {
    hide IsHex;
    forall c: char ensures IsHex(c) <==> c in "0123456789abcdefABCDEF" {
      HexDigits(c);
    }
  }

  lemma HexDigits(c: char)
    ensures IsHex(c) <==> c in "0123456789abcdefABCDEF"
  {
    var digits := "0123456789abcdefABCDEF";
    if '0' <= c <= '9' {
      assert digits[c as int - '0' as int] == c;
    } else if 'a' <= c <= 'f' {
      assert digits[c as int - 'a' as int + 10] == c;
    } else if 'A' <= c <= 'F' {
      assert digits[c as int - 'A' as int + 16] == c;
    }
  }

  // Bytes are written as pairs of lower-case digits.
  lemma {:induction false} ToHexShape(b: Bytes)
    ensures |ToHex(b)| == 2 * |b|
    ensures forall i :: 0 <= i < |ToHex(b)| ==> '0' <= ToHex(b)[i] <= '9' || 'a' <= ToHex(b)[i] <= 'f'
  {
    if b != [] {
      ToHexShape(b[1..]);
    }
  }

  // ---------- JSON strings (section 7 of RFC 8259), ASCII only ----------

  function Hex4(n: nat): string
    requires n < 0x10000
  {
    [HexDigit(n / 16 / 16 / 16), HexDigit(n / 16 / 16 % 16), HexDigit(n / 16 % 16), HexDigit(n % 16)]
  }

  function Unhex4(s: string): (n: nat)
    requires |s| == 4 && forall i :: 0 <= i < 4 ==> IsHex(s[i])
    ensures n < 0x10000
  {
    ((HexValue(s[0]) * 16 + HexValue(s[1])) * 16 + HexValue(s[2])) * 16 + HexValue(s[3])
  }

  lemma Hex4RoundTrip(n: nat)
    requires n < 0x10000
    ensures Unhex4(Hex4(n)) == n
  {
  }

  function UnicodeEscape(n: nat): (e: string)
    requires n < 0x10000
    ensures |e| == 6 && e[0] == '\\' && e[1] == 'u' && e[2..] == Hex4(n)
  {
    ['\\', 'u'] + Hex4(n)
  }

  // Characters with a spelling of one or two characters.
  predicate Short(c: char) {
    var n := c as int;
    0x20 <= n <= 0x7E || n == 0x08 || n == 0x09 || n == 0x0A || n == 0x0C || n == 0x0D
  }

  function ShortEscape(c: char): (e: string)
    requires Short(c)
    ensures 1 <= |e| <= 2 && e[0] != '"' && (|e| == 1 <==> e[0] != '\\')
  {
    var n := c as int;
    if c == '"' then ['\\', '"']
    else if c == '\\' then ['\\', '\\']
    else if n == 0x0A then ['\\', 'n']
    else if n == 0x0D then ['\\', 'r']
    else if n == 0x09 then ['\\', 't']
    else if n == 0x0C then ['\\', 'f']
    else if n == 0x08 then ['\\', 'b']
    else [c]
  }

  function HighSurrogate(n: nat): (s: nat)
    requires 0x10000 <= n < 0x11_0000
    ensures 0xD800 <= s < 0xDC00
  {
    0xD800 + (n - 0x10000) / 1024
  }

  function LowSurrogate(n: nat): (s: nat)
    requires 0x10000 <= n < 0x11_0000
    ensures 0xDC00 <= s < 0xE000
  {
    0xDC00 + (n - 0x10000) % 1024
  }

  function Combine(hi: nat, lo: nat): (n: nat)
    requires 0xD800 <= hi < 0xDC00 <= lo < 0xE000
    ensures 0x10000 <= n < 0x11_0000
  {
    0x10000 + (hi - 0xD800) * 1024 + (lo - 0xDC00)
  }

  lemma CombineSurrogates(n: nat)
    requires 0x10000 <= n < 0x11_0000
    ensures Combine(HighSurrogate(n), LowSurrogate(n)) == n
  {
  }

  function EscapeChar(c: char): string {
    var n := c as int;
    if Short(c) then ShortEscape(c)
    else if n < 0x10000 then UnicodeEscape(n)
    else UnicodeEscape(HighSurrogate(n)) + UnicodeEscape(LowSurrogate(n))
  }

  function Escape(s: string): string {
    if s == "" then "" else EscapeChar(s[0]) + Escape(s[1..])
  }

  // A \uXXXX escape at position i.
  predicate HasHex4(s: string, i: nat) {
    i + 6 <= |s| && s[i] == '\\' && s[i+1] == 'u' && forall k :: i + 2 <= k < i + 6 ==> IsHex(s[k])
  }

  function Hex4At(s: string, i: nat): (n: nat)
    requires HasHex4(s, i)
    ensures n < 0x10000
  {
    Unhex4(s[i+2..i+6])
  }

  // One character of a JSON string and the number of characters that spell it.
  function ReadChar(s: string): Option<(char, nat)>
    requires s != ""
  {
    if s[0] != '\\' then Some((s[0], 1))
    else if |s| < 2 then None
    else if s[1] == '"' || s[1] == '\\' || s[1] == '/' then Some((s[1], 2))
    else if s[1] == 'n' then Some((0x0A as char, 2))
    else if s[1] == 'r' then Some((0x0D as char, 2))
    else if s[1] == 't' then Some((0x09 as char, 2))
    else if s[1] == 'f' then Some((0x0C as char, 2))
    else if s[1] == 'b' then Some((0x08 as char, 2))
    else if !HasHex4(s, 0) then None
    else
      var n := Hex4At(s, 0);
      if n < 0xD800 || 0xE000 <= n then Some((n as char, 6))
      else if 0xDC00 <= n || !HasHex4(s, 6) then None
      else
        var low := Hex4At(s, 6);
        if 0xDC00 <= low < 0xE000
        then Some((Combine(n, low) as char, 12))
        else None
  }

  // The string up to the closing quote, and what follows it.
  function ReadString(s: string): Option<(string, string)>
    decreases |s|
  {
    if s == "" then None
    else if s[0] == '"' then Some(("", s[1..]))
    else
      var c := ReadChar(s);
      if c.None? || c.value.1 == 0 || c.value.1 > |s| then None
      else
        var rest := ReadString(s[c.value.1..]);
        if rest.None? then None else Some(([c.value.0] + rest.value.0, rest.value.1))
  }

  lemma UnicodeEscapeAt(n: nat, s: string, i: nat)
    requires n < 0x10000 && i + 6 <= |s| && s[i..i+6] == UnicodeEscape(n)
    ensures HasHex4(s, i) && Hex4At(s, i) == n
  {
    var t := s[i..i+6];
    assert forall k :: 0 <= k < 6 ==> s[i+k] == t[k];
    assert s[i+2..i+6] == t[2..];
    Hex4RoundTrip(n);
  }

  lemma ReadPair(s: string, hi: nat, lo: nat)
    requires 0xD800 <= hi < 0xDC00 <= lo < 0xE000
    requires HasHex4(s, 0) && Hex4At(s, 0) == hi
    requires HasHex4(s, 6) && Hex4At(s, 6) == lo
    ensures ReadChar(s) == Some((Combine(hi, lo) as char, 12))
  {
  }

  lemma ReadSingle(s: string, n: nat)
    requires n < 0xD800 || 0xE000 <= n < 0x10000
    requires HasHex4(s, 0) && Hex4At(s, 0) == n
    ensures ReadChar(s) == Some((n as char, 6))
  {
  }

  lemma ReadShort(s: string, c: char)
    requires Short(c) && ShortEscape(c) <= s
    ensures ReadChar(s) == Some((c, |ShortEscape(c)|))
  {
  }

  lemma ReadEscapedPair(hi: nat, lo: nat, x: string)
    requires 0xD800 <= hi < 0xDC00 <= lo < 0xE000
    ensures ReadChar(UnicodeEscape(hi) + UnicodeEscape(lo) + x) == Some((Combine(hi, lo) as char, 12))
  {
    var a, b := UnicodeEscape(hi), UnicodeEscape(lo);
    var s := a + b + x;
    assert s[0..0+6] == a && s[6..6+6] == b;
    UnicodeEscapeAt(hi, s, 0);
    UnicodeEscapeAt(lo, s, 6);
    ReadPair(s, hi, lo);
  }

  lemma ReadEscapedSingle(n: nat, x: string)
    requires n < 0xD800 || 0xE000 <= n < 0x10000
    ensures ReadChar(UnicodeEscape(n) + x) == Some((n as char, 6))
  {
    var s := UnicodeEscape(n) + x;
    assert s[0..0+6] == UnicodeEscape(n);
    UnicodeEscapeAt(n, s, 0);
    ReadSingle(s, n);
  }

  lemma ReadEscapedChar(c: char, x: string)
    ensures ReadChar(EscapeChar(c) + x) == Some((c, |EscapeChar(c)|))
    ensures EscapeChar(c) != "" && EscapeChar(c)[0] != '"'
  {
    var n := c as int;
    if Short(c) {
      ReadShort(EscapeChar(c) + x, c);
    } else if n < 0x10000 {
      ReadEscapedSingle(n, x);
    } else {
      ReadEscapedPair(HighSurrogate(n), LowSurrogate(n), x);
      CombineSurrogates(n);
    }
  }

  // Reading an escaped string gives the string and stops at its closing quote.
  lemma {:induction false} ReadEscaped(t: string, x: string)
    ensures ReadString(Escape(t) + ['"'] + x) == Some((t, x))
  {
    var s := Escape(t) + ['"'] + x;
    if t == "" {
      assert s == ['"'] + x;
    } else {
      var e, rest := EscapeChar(t[0]), Escape(t[1..]) + ['"'] + x;
      assert s == e + rest;
      ReadEscapedChar(t[0], rest);
      assert s[|e|..] == rest;
      ReadEscaped(t[1..], x);
      assert [t[0]] + t[1..] == t;
    }
  }

  predicate Printable(s: string) {
    forall i :: 0 <= i < |s| ==> ' ' <= s[i] <= '~'
  }

  lemma DigitIsPrintable(n: nat)
    requires n < 16
    ensures ' ' <= HexDigit(n) <= '~'
  {
  }

  lemma UnicodeEscapeShape(n: nat)
    requires n < 0x10000
    ensures |UnicodeEscape(n)| == 6 && Printable(UnicodeEscape(n))
  {
    hide HexDigit;
    DigitIsPrintable(n / 16 / 16 / 16);
    DigitIsPrintable(n / 16 / 16 % 16);
    DigitIsPrintable(n / 16 % 16);
    DigitIsPrintable(n % 16);
  }

  lemma ShortEscapeShape(c: char)
    requires Short(c)
    ensures Printable(ShortEscape(c))
    ensures |ShortEscape(c)| == 2
       <==> c in ['"', '\\', 0x08 as char, 0x09 as char, 0x0A as char, 0x0C as char, 0x0D as char]
  {
  }

  // How long the spelling of each character is; all of it is printable ASCII.
  lemma EscapeCharShape(c: char)
    ensures Printable(EscapeChar(c))
    ensures |EscapeChar(c)| ==
      if c in ['"', '\\', 0x08 as char, 0x09 as char, 0x0A as char, 0x0C as char, 0x0D as char] then 2
      else if ' ' <= c <= '~' then 1
      else if c as int < 0x10000 then 6
      else 12
  {
    hide ShortEscape, UnicodeEscape;
    var n := c as int;
    if Short(c) {
      ShortEscapeShape(c);
    } else if n < 0x10000 {
      UnicodeEscapeShape(n);
    } else {
      UnicodeEscapeShape(HighSurrogate(n));
      UnicodeEscapeShape(LowSurrogate(n));
    }
  }

  // ---------- associated data ----------

  // json.dumps with sorted keys and compact separators.
  function AadText(credentialId: string, userId: string, providerId: string): string {
    "{\"credential_id\":\"" + (Escape(credentialId) + ['"'] +
      (",\"domain\":\"omni-credential-store:v2\",\"provider_id\":\"" + (Escape(providerId) + ['"'] +
        (",\"user_id\":\"" + (Escape(userId) + ['"'] + "}")))))
  }

  function Aad(credentialId: string, userId: string, providerId: string): Bytes {
    Encode(AadText(credentialId, userId, providerId))
  }

  // Printable ASCII without quotes and backslashes.
  predicate Plain(s: string) {
    forall i :: 0 <= i < |s| ==> ' ' <= s[i] <= '~' && s[i] != '"' && s[i] != '\\'
  }

  lemma {:induction false} EscapePlain(s: string)
    requires Plain(s)
    ensures Escape(s) == s
  {
    hide EscapeChar;
    if s != "" {
      EscapePlain(s[1..]);
      PlainChar(s[0]);
    }
  }

  lemma PlainChar(c: char)
    requires ' ' <= c <= '~' && c != '"' && c != '\\'
    ensures EscapeChar(c) == [c]
  {
  }

  // The associated data of identifiers that need no escapes.
  lemma PlainAad(c: string, u: string, p: string)
    requires Plain(c) && Plain(u) && Plain(p)
    ensures Aad(c, u, p) == Encode(
      "{\"credential_id\":\"" + c + ['"'] + ",\"domain\":\"omni-credential-store:v2\",\"provider_id\":\"" + p + ['"']
        + ",\"user_id\":\"" + u + ['"'] + "}")
  {
    EscapePlain(c);
    EscapePlain(u);
    EscapePlain(p);
    Regroup("{\"credential_id\":\"", c, ['"'], ",\"domain\":\"omni-credential-store:v2\",\"provider_id\":\"", p,
            ",\"user_id\":\"", u, "}");
  }

  lemma Regroup(a: string, b: string, q: string, c: string, d: string, e: string, f: string, g: string)
    ensures a + (b + q + (c + (d + q + (e + (f + q + g))))) == a + b + q + c + d + q + e + f + q + g
  {
  }

  lemma EscapedPrefixUnique(t: string, x: string, t': string, x': string)
    requires Escape(t) + ['"'] + x == Escape(t') + ['"'] + x'
    ensures t == t' && x == x'
  {
    ReadEscaped(t, x);
    ReadEscaped(t', x');
  }

  lemma SamePrefix(p: string, x: string, y: string)
    requires p + x == p + y
    ensures x == y
  {
    assert x == (p + x)[|p|..] && y == (p + y)[|p|..];
  }

  // The associated data determines the credential, the user and the provider.
  lemma AadInjective(c: string, u: string, p: string, c': string, u': string, p': string)
    ensures Aad(c, u, p) == Aad(c', u', p') <==> c == c' && u == u' && p == p'
    ensures Aad(c, u, p) != []
  {
    StrictInvertsEncode(AadText(c, u, p));
    StrictInvertsEncode(AadText(c', u', p'));
    if Aad(c, u, p) == Aad(c', u', p') {
      AadTextInjective(c, u, p, c', u', p');
    }
  }

  lemma AadTextInjective(c: string, u: string, p: string, c': string, u': string, p': string)
    requires AadText(c, u, p) == AadText(c', u', p')
    ensures c == c' && u == u' && p == p'
  {
    var k2, k3 := ",\"domain\":\"omni-credential-store:v2\",\"provider_id\":\"", ",\"user_id\":\"";
    var z, z' := Escape(u) + ['"'] + "}", Escape(u') + ['"'] + "}";
    var y, y' := Escape(p) + ['"'] + (k3 + z), Escape(p') + ['"'] + (k3 + z');
    SamePrefix("{\"credential_id\":\"", Escape(c) + ['"'] + (k2 + y), Escape(c') + ['"'] + (k2 + y'));
    EscapedPrefixUnique(c, k2 + y, c', k2 + y');
    SamePrefix(k2, y, y');
    EscapedPrefixUnique(p, k3 + z, p', k3 + z');
    SamePrefix(k3, z, z');
    EscapedPrefixUnique(u, "}", u', "}");
  }
}
