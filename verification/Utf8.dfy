/**
 * UTF-8 as the Rust and Python libraries decode it (section 3 of RFC 3629):
 * strictly, or with each maximal ill-formed prefix replaced by U+FFFD.
 */
module Utf8 {
  import opened Common

  type Byte = b: nat | b < 256

  const NEWLINE: Byte := 0x0A
  const REPLACEMENT: char := '\U{FFFD}'

  // ---------- encoding ----------

  function EncodeChar(c: char): (r: seq<Byte>)
    ensures 1 <= |r| <= 4
  {
    var n := c as int;
    if n < 0x80 then [n]
    else if n < 0x800 then [0xC0 + n / 64, 0x80 + n % 64]
    else if n < 0x10000 then [0xE0 + n / 64 / 64, 0x80 + n / 64 % 64, 0x80 + n % 64]
    else [0xF0 + n / 64 / 64 / 64, 0x80 + n / 64 / 64 % 64, 0x80 + n / 64 % 64, 0x80 + n % 64]
  }

  function Encode(s: string): seq<Byte> {
    if s == "" then [] else EncodeChar(s[0]) + Encode(s[1..])
  }

  // ---------- decoding ----------

  predicate Continuation(b: Byte) {
    0x80 <= b < 0xC0
  }

  // The number of bytes a lead byte announces; 0 for a byte that cannot lead.
  function LeadLength(b: Byte): (n: nat)
    ensures n <= 4
  {
    if b < 0x80 then 1
    else if 0xC2 <= b < 0xE0 then 2
    else if 0xE0 <= b < 0xF0 then 3
    else if 0xF0 <= b < 0xF5 then 4
    else 0
  }

  // The range of the second byte excludes overlong forms, surrogates and
  // values above U+10FFFF.
  predicate SecondOk(lead: Byte, b: Byte) {
    && Continuation(b)
    && (lead == 0xE0 ==> 0xA0 <= b)
    && (lead == 0xED ==> b < 0xA0)
    && (lead == 0xF0 ==> 0x90 <= b)
    && (lead == 0xF4 ==> b < 0x90)
  }

  // Six more bits, taken from a continuation byte.
  function Join(high: int, b: int): int {
    high * 64 + b - 0x80
  }

  datatype Unit = Unit(scalar: Option<char>, length: nat)

  // The first scalar value, or the length of the maximal ill-formed prefix.
  function FirstUnit(s: seq<Byte>): (u: Unit)
    requires s != []
    ensures 1 <= u.length <= |s|
  {
    var n := LeadLength(s[0]);
    if n == 0 then Unit(None, 1)
    else if n == 1 then Unit(Some(s[0] as char), 1)
    else if |s| < 2 || !SecondOk(s[0], s[1]) then Unit(None, 1)
    else if n == 2 then Unit(Some(Join(s[0] - 0xC0, s[1]) as char), 2)
    else if |s| < 3 || !Continuation(s[2]) then Unit(None, 2)
    else if n == 3 then
      Unit(Some(Join(Join(s[0] - 0xE0, s[1]), s[2]) as char), 3)
    else if |s| < 4 || !Continuation(s[3]) then Unit(None, 3)
    else
      Unit(Some(Join(Join(Join(s[0] - 0xF0, s[1]), s[2]), s[3]) as char), 4)
  }

  function Lossy(s: seq<Byte>): string
    decreases |s|
  {
    if s == [] then ""
    else
      var u := FirstUnit(s);
      [if u.scalar.Some? then u.scalar.value else REPLACEMENT] + Lossy(s[u.length..])
  }

  function Strict(s: seq<Byte>): Option<string>
    decreases |s|
  {
    if s == [] then Some("")
    else
      var u := FirstUnit(s);
      if u.scalar.None? then None
      else
        var rest := Strict(s[u.length..]);
        if rest.None? then None else Some([u.scalar.value] + rest.value)
  }

  // ---------- decoding inverts encoding ----------

  lemma FirstUnitOfEncoding(c: char, rest: seq<Byte>)
    ensures FirstUnit(EncodeChar(c) + rest) == Unit(Some(c), |EncodeChar(c)|)
  {
    var n, s := c as int, EncodeChar(c) + rest;
    assert forall i :: 0 <= i < |EncodeChar(c)| ==> s[i] == EncodeChar(c)[i];
    if n < 0x80 {
    } else if n < 0x800 {
      assert Join(s[0] - 0xC0, s[1]) == n;
    } else if n < 0x10000 {
      assert Join(s[0] - 0xE0, s[1]) == n / 64;
      assert Join(n / 64, s[2]) == n;
    } else {
      assert Join(s[0] - 0xF0, s[1]) == n / 64 / 64;
      assert Join(n / 64 / 64, s[2]) == n / 64;
      assert Join(n / 64, s[3]) == n;
    }
  }

  lemma {:induction false} StrictInvertsEncode(s: string)
    ensures Strict(Encode(s)) == Some(s)
  {
    if s != "" {
      FirstUnitOfEncoding(s[0], Encode(s[1..]));
      assert Encode(s)[|EncodeChar(s[0])|..] == Encode(s[1..]);
      StrictInvertsEncode(s[1..]);
      assert [s[0]] + s[1..] == s;
    }
  }

  lemma EncodingOfFirstUnit(s: seq<Byte>)
    requires s != [] && FirstUnit(s).scalar.Some?
    ensures EncodeChar(FirstUnit(s).scalar.value) == s[..FirstUnit(s).length]
  {
    var u := FirstUnit(s);
    var n := u.scalar.value as int;
    if u.length == 2 {
      SplitJoin(s[0] - 0xC0, s[1]);
    } else if u.length == 3 {
      SplitJoin(s[0] - 0xE0, s[1]);
      SplitJoin(Join(s[0] - 0xE0, s[1]), s[2]);
    } else if u.length == 4 {
      SplitJoin(s[0] - 0xF0, s[1]);
      SplitJoin(Join(s[0] - 0xF0, s[1]), s[2]);
      SplitJoin(Join(Join(s[0] - 0xF0, s[1]), s[2]), s[3]);
    }
  }

  lemma SplitJoin(high: int, b: Byte)
    requires Continuation(b)
    ensures Join(high, b) / 64 == high && 0x80 + Join(high, b) % 64 == b
  {
  }

  lemma EncodeCons(c: char, s: string)
    ensures Encode([c] + s) == EncodeChar(c) + Encode(s)
  {
    assert ([c] + s)[1..] == s;
  }

  // Strict decoding taken apart at its first character.
  lemma StrictStep(s: seq<Byte>) returns (c: char, rest: seq<Byte>)
    requires s != [] && Strict(s).Some?
    ensures |rest| < |s| && s == EncodeChar(c) + rest
    ensures Strict(rest).Some? && Strict(s).value == [c] + Strict(rest).value
    ensures Lossy(s) == [c] + Lossy(rest)
  {
    var u := FirstUnit(s);
    c, rest := u.scalar.value, s[u.length..];
    EncodingOfFirstUnit(s);
  }

  // Strict decoding accepts exactly the encodings.
  lemma {:induction false} EncodeInvertsStrict(s: seq<Byte>)
    requires Strict(s).Some?
    ensures Encode(Strict(s).value) == s && Lossy(s) == Strict(s).value
    decreases |s|
  {
    if s != [] {
      var c, rest := StrictStep(s);
      EncodeInvertsStrict(rest);
      EncodeCons(c, Strict(rest).value);
    }
  }

  // ---------- ill-formed bytes ----------

  // Some character's encoding, if continuation bytes are added to this prefix.
  lemma CompletedPrefix(s: seq<Byte>, n: nat) returns (c: char)
    requires s != [] && FirstUnit(s) == Unit(None, n) && n > 1
    ensures s[..n] < EncodeChar(c)
  {
    var t := s[..n] + (if n == 2 && LeadLength(s[0]) == 4 then [0x80, 0x80] else [0x80]);
    assert t[0] == s[0] && t[1] == s[1] && (n == 3 ==> t[2] == s[2]);
    assert FirstUnit(t).scalar.Some? && FirstUnit(t).length == |t|;
    EncodingOfFirstUnit(t);
    c := FirstUnit(t).scalar.value;
    assert t[..|t|] == t && t[..n] == s[..n];
  }

  // No character begins with more of these bytes.
  lemma NoLongerPrefix(s: seq<Byte>, n: nat, m: nat, c: char)
    requires s != [] && FirstUnit(s) == Unit(None, n) && n < m <= |s|
    ensures !(s[..m] <= EncodeChar(c))
  {
    if s[..m] <= EncodeChar(c) {
      var e := EncodeChar(c);
      FirstUnitOfEncoding(c, []);
      assert e + [] == e;
      assert forall i :: 0 <= i < m ==> s[i] == s[..m][i] == e[i];
      assert false;
    }
  }

  // A character whose encoding comes first is decoded.
  lemma DecodesFirst(s: seq<Byte>, c: char)
    requires EncodeChar(c) <= s
    ensures Lossy(s) == [c] + Lossy(s[|EncodeChar(c)|..])
  {
    FirstUnitOfEncoding(c, s[|EncodeChar(c)|..]);
    assert EncodeChar(c) + s[|EncodeChar(c)|..] == s;
  }

  lemma SomeCharacterFirst(s: seq<Byte>)
    requires s != []
    ensures FirstUnit(s).scalar.Some? ==> exists c: char :: EncodeChar(c) <= s
  {
    if FirstUnit(s).scalar.Some? {
      EncodingOfFirstUnit(s);
      assert EncodeChar(FirstUnit(s).scalar.value) <= s;
    }
  }

  // Where no character's encoding comes first, the longest prefix that begins one, or
  // else one byte, is replaced by a single U+FFFD.
  lemma ReplacesMaximalPrefix(s: seq<Byte>) returns (n: nat)
    requires s != [] && forall c: char :: !(EncodeChar(c) <= s)
    ensures 1 <= n <= |s| && Lossy(s) == ['\U{FFFD}'] + Lossy(s[n..])
    ensures n > 1 ==> exists c: char :: s[..n] < EncodeChar(c)
    ensures forall m: nat, c: char :: n < m <= |s| ==> !(s[..m] <= EncodeChar(c))
  {
    SomeCharacterFirst(s);
    n := FirstUnit(s).length;
    if n > 1 {
      var c := CompletedPrefix(s, n);
    }
    forall m: nat, c: char | n < m <= |s| ensures !(s[..m] <= EncodeChar(c)) {
      NoLongerPrefix(s, n, m, c);
    }
  }

  // ---------- line boundaries survive lossy decoding ----------

  lemma UnitStopsAtNewline(a: seq<Byte>, b: seq<Byte>)
    requires a != []
    ensures FirstUnit(a + [NEWLINE] + b) == FirstUnit(a)
  {
    var s := a + [NEWLINE] + b;
    assert forall i :: 0 <= i < |a| ==> s[i] == a[i];
    assert s[|a|] == NEWLINE;
  }

  lemma DecodesNewline(b: seq<Byte>)
    ensures Lossy([NEWLINE] + b) == ['\n'] + Lossy(b) && Lossy([]) == ""
  {
    assert ([NEWLINE] + b)[1..] == b;
  }

  // A newline byte is never swallowed, even after a truncated character.
  lemma {:induction false} LossySplitsAtNewline(a: seq<Byte>, b: seq<Byte>)
    ensures Lossy(a + [NEWLINE] + b) == Lossy(a) + ['\n'] + Lossy(b)
    decreases |a|
  {
    hide FirstUnit;
    var s := a + [NEWLINE] + b;
    if a == [] {
      assert s == [NEWLINE] + b;
      DecodesNewline(b);
    } else {
      UnitStopsAtNewline(a, b);
      var n := FirstUnit(a).length;
      var rest := a[n..];
      assert s[n..] == rest + [NEWLINE] + b;
      LossySplitsAtNewline(rest, b);
    }
  }

  // Decoding invents no newline.
  lemma {:induction false} LossyWithoutNewline(s: seq<Byte>)
    requires NEWLINE !in s
    ensures '\n' !in Lossy(s)
    decreases |s|
  {
    if s != [] {
      assert s[0] != NEWLINE;
      LossyWithoutNewline(s[FirstUnit(s).length..]);
    }
  }
}
