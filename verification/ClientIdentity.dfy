/**
 * Client identity behind trusted proxies (backend/rust/src/client_identity.rs):
 * the peer address, or the rightmost untrusted address of the forwarding chain.
 *
 * Parsing of one address is the standard library's and is a parameter.
 */
module ClientIdentity {
  import opened Common
  import opened Text
  import opened Utf8

  const MAX_HEADER_BYTES: nat := 8_192

  const V4_SIZE: nat := 0x1_0000_0000

  type Address4 = a: nat | a < 0x1_0000_0000
  type Address6 = a: nat | a < 0x1_0000_0000_0000_0000_0000_0000_0000_0000

  datatype IpAddr = V4(v4: Address4) | V6(v6: Address6)

  // An IPv4-mapped IPv6 address ::ffff:a.b.c.d becomes the IPv4 address.
  function NormalizeIp(ip: IpAddr): IpAddr {
    match ip
    case V6(a) => if a / V4_SIZE == 0xFFFF then V4(a % V4_SIZE) else ip
    case V4(_) => ip
  }

  function ToMapped(ip: IpAddr): IpAddr {
    match ip
    case V4(a) => V6(0xFFFF * V4_SIZE + a)
    case V6(_) => ip
  }

  lemma MappedNormalizes(ip: IpAddr)
    ensures NormalizeIp(ToMapped(ip)) == NormalizeIp(ip)
    ensures NormalizeIp(NormalizeIp(ip)) == NormalizeIp(ip)
  {
  }

  // Only the 2^32 mapped addresses change.
  lemma NormalizedExactly(ip: IpAddr)
    ensures NormalizeIp(ip) ==
      match ip
      case V4(_) => ip
      case V6(a) =>
        if 0xFFFF_0000_0000 <= a <= 0xFFFF_FFFF_FFFF then V4(a - 0xFFFF_0000_0000) else ip
  {
  }

  datatype IpNet = Net4(base4: nat, prefix4: nat) | Net6(base6: nat, prefix6: nat)

  function Pow2(n: nat): nat {
    if n == 0 then 1 else 2 * Pow2(n - 1)
  }

  lemma Pow2Positive(n: nat)
    ensures Pow2(n) > 0
  {
  }

  // Same family and same leading bits.
  predicate InNet(net: IpNet, ip: IpAddr) {
    match (net, ip)
    case (Net4(base, prefix), V4(a)) =>
      prefix <= 32 && (Pow2Positive(32 - prefix); a / Pow2(32 - prefix) == base / Pow2(32 - prefix))
    case (Net6(base, prefix), V6(a)) =>
      prefix <= 128 && (Pow2Positive(128 - prefix); a / Pow2(128 - prefix) == base / Pow2(128 - prefix))
    case _ => false
  }

  datatype Source = DirectPeer | TrustedForwardedChain | ForwardedHeaderRejected

  datatype Identity = Identity(effectiveIp: IpAddr, source: Source)

  // `parseIp` is the library's address parser.
  datatype Config = Config(
    trustForwarded: bool,
    networks: seq<IpNet>,
    maxHops: nat,
    parseIp: string -> Option<IpAddr>)

  predicate IsTrusted(cfg: Config, ip: IpAddr) {
    exists i :: 0 <= i < |cfg.networks| && InNet(cfg.networks[i], ip)
  }

  // The addresses of a network, from the first to the last.
  predicate InRange(net: IpNet, ip: IpAddr) {
    match (net, ip)
    case (Net4(base, prefix), V4(a)) =>
      prefix <= 32 && (Pow2Positive(32 - prefix);
        var first := base - base % Pow2(32 - prefix); first <= a < first + Pow2(32 - prefix))
    case (Net6(base, prefix), V6(a)) =>
      prefix <= 128 && (Pow2Positive(128 - prefix);
        var first := base - base % Pow2(128 - prefix); first <= a < first + Pow2(128 - prefix))
    case _ => false
  }

  lemma SameBlock(a: nat, base: nat, size: nat)
    requires size > 0
    ensures a / size == base / size <==> base - base % size <= a < base - base % size + size
  {
    var q, r := a / size, base / size;
    assert a == q * size + a % size && base == r * size + base % size;
    if q < r {
      SizeMono(q + 1, r, size);
    } else if r < q {
      SizeMono(r + 1, q, size);
    }
  }

  lemma SizeMono(a: nat, b: nat, size: nat)
    requires a <= b
    ensures a * size <= b * size && (a > 0 ==> a * size == (a - 1) * size + size)
  {
  }

  // A list of networks trusts exactly the addresses in the range of one of them.
  lemma TrustedExactly(cfg: Config, ip: IpAddr)
    ensures IsTrusted(cfg, ip) <==> exists i :: 0 <= i < |cfg.networks| && InRange(cfg.networks[i], ip)
  {
    forall i | 0 <= i < |cfg.networks| ensures InNet(cfg.networks[i], ip) <==> InRange(cfg.networks[i], ip) {
      match (cfg.networks[i], ip) {
        case (Net4(base, prefix), V4(a)) =>
          if prefix <= 32 { Pow2Positive(32 - prefix); SameBlock(a, base, Pow2(32 - prefix)); }
        case (Net6(base, prefix), V6(a)) =>
          if prefix <= 128 { Pow2Positive(128 - prefix); SameBlock(a, base, Pow2(128 - prefix)); }
        case _ =>
      }
    }
  }

  lemma PowerOf24()
    ensures Pow2(24) == 0x100_0000
  {
    assert Pow2(6) == 64;
    assert Pow2(12) == 64 * Pow2(6);
    assert Pow2(18) == 64 * Pow2(12);
    assert Pow2(24) == 64 * Pow2(18);
  }

  // 10.0.0.0/8 trusts the addresses 10.x.y.z alone, and no IPv6 address.
  lemma PrivateTen(cfg: Config, ip: IpAddr)
    requires cfg.networks == [Net4(0x0A00_0000, 8)]
    ensures IsTrusted(cfg, ip) <==> ip.V4? && 0x0A00_0000 <= ip.v4 <= 0x0AFF_FFFF
  {
    PowerOf24();
    TrustedExactly(cfg, ip);
    assert InRange(cfg.networks[0], ip) <==> ip.V4? && 0x0A00_0000 <= ip.v4 <= 0x0AFF_FFFF;
  }

  // ---------- parsing, as a specification ----------

  // One field value: the bytes after `x-forwarded-for:`.
  type Field = seq<Byte>

  predicate VisibleAscii(field: Field) {
    forall i :: 0 <= i < |field| ==> 32 <= field[i] < 127 || field[i] == 9
  }

  function AsText(field: Field): string {
    seq(|field|, i requires 0 <= i < |field| => field[i] as char)
  }

  // `str::split`: always at least one piece.
  function Split(s: string, c: char): (r: seq<string>)
    ensures |r| >= 1
    decreases |s|
  {
    var n := UpTo(s, c);
    if n == |s| then [s] else [s[..n]] + Split(s[n+1..], c)
  }

  function ParseElement(cfg: Config, element: string): Option<IpAddr> {
    var t := Trim(element);
    if t == "" then None
    else
      var ip := cfg.parseIp(t);
      if ip.None? then None else Some(NormalizeIp(ip.value))
  }

  // All elements, or nothing if one of them is malformed.
  function ParseElements(cfg: Config, elements: seq<string>): Option<seq<IpAddr>> {
    if elements == [] then Some([])
    else
      var rest := ParseElements(cfg, elements[..|elements|-1]);
      var last := ParseElement(cfg, elements[|elements|-1]);
      if rest.None? || last.None? then None else Some(rest.value + [last.value])
  }

  function Elements(fields: seq<Field>): seq<string> {
    if fields == [] then []
    else Elements(fields[..|fields|-1]) + Split(AsText(fields[|fields|-1]), ',')
  }

  function TotalBytes(fields: seq<Field>): nat {
    if fields == [] then 0 else TotalBytes(fields[..|fields|-1]) + |fields[|fields|-1]|
  }

  predicate AllVisible(fields: seq<Field>) {
    forall i :: 0 <= i < |fields| ==> VisibleAscii(fields[i])
  }

  // The chain, or None when any limit is exceeded or any part is malformed.
  function Chain(cfg: Config, fields: seq<Field>): Option<seq<IpAddr>> {
    if fields == [] || TotalBytes(fields) > MAX_HEADER_BYTES || !AllVisible(fields) then None
    else
      var chain := ParseElements(cfg, Elements(fields));
      if chain.None? || |chain.value| > cfg.maxHops then None else chain
  }

  // ---------- parsing, as the code runs it ----------

  lemma {:induction false} TotalGrows(fields: seq<Field>, n: nat)
    requires n <= |fields|
    ensures TotalBytes(fields[..n]) <= TotalBytes(fields)
  {
    if n < |fields| {
      TotalGrows(fields[..|fields|-1], n);
      assert fields[..|fields|-1][..n] == fields[..n];
    } else {
      assert fields[..n] == fields;
    }
  }

  lemma {:induction false} ElementsGrow(fields: seq<Field>, n: nat)
    requires n <= |fields|
    ensures Elements(fields[..n]) <= Elements(fields)
    ensures |Elements(fields)| >= |fields|
  {
    if n < |fields| {
      ElementsGrow(fields[..|fields|-1], n);
      assert fields[..|fields|-1][..n] == fields[..n];
    } else {
      assert fields[..n] == fields;
      if n > 0 { ElementsGrow(fields[..n-1], n - 1); }
    }
  }

  // Parsing keeps positions; a malformed prefix spoils the whole.
  lemma {:induction false} ParsePrefix(cfg: Config, elements: seq<string>, n: nat)
    requires n <= |elements| && ParseElements(cfg, elements).Some?
    ensures |ParseElements(cfg, elements).value| == |elements|
    ensures ParseElements(cfg, elements[..n]) == Some(ParseElements(cfg, elements).value[..n])
  {
    if elements != [] {
      var init := elements[..|elements|-1];
      ParsePrefix(cfg, init, Min(n, |init|));
      var all, front := ParseElements(cfg, elements).value, ParseElements(cfg, init).value;
      if n < |elements| {
        assert init[..n] == elements[..n];
        assert all[..n] == front[..n];
      } else {
        assert elements[..n] == elements && all[..n] == all;
      }
    }
  }

  lemma RejectedPrefix(cfg: Config, fields: seq<Field>, n: nat, prefix: seq<string>)
    requires n <= |fields| && prefix <= Elements(fields[..n])
    requires ParseElements(cfg, prefix).None? || |ParseElements(cfg, prefix).value| > cfg.maxHops
    ensures Chain(cfg, fields).None?
  {
    var all := Elements(fields);
    ElementsGrow(fields, n);
    if ParseElements(cfg, all).Some? {
      ParsePrefix(cfg, all, |prefix|);
      assert all[..|prefix|] == prefix;
    }
  }

  lemma ParseNext(cfg: Config, done: seq<string>, elements: seq<string>, j: nat, chain: seq<IpAddr>)
    requires j < |elements| && ParseElements(cfg, done + elements[..j]) == Some(chain)
    ensures var ip := ParseElement(cfg, elements[j]);
      ParseElements(cfg, done + elements[..j+1]) == if ip.None? then None else Some(chain + [ip.value])
    ensures done + elements[..j+1] <= done + elements
  {
    var prefix := done + elements[..j+1];
    assert prefix[..|prefix|-1] == done + elements[..j];
  }

  // The elements of one field, appended to those before it.
  method ParseField(cfg: Config, fields: seq<Field>, i: nat, before: seq<IpAddr>) returns (r: Option<seq<IpAddr>>)
    requires i < |fields| && |before| <= cfg.maxHops
    requires ParseElements(cfg, Elements(fields[..i])) == Some(before)
    ensures r.Some? ==> ParseElements(cfg, Elements(fields[..i+1])) == r && |r.value| <= cfg.maxHops
    ensures r.None? ==> Chain(cfg, fields).None?
  {
    var chain := before;
    ghost var done := Elements(fields[..i]);
    var elements := Split(AsText(fields[i]), ',');
    assert fields[..i+1][..i] == fields[..i];
    assert Elements(fields[..i+1]) == done + elements;
    assert done + elements[..0] == done;
    for j := 0 to |elements|
      invariant ParseElements(cfg, done + elements[..j]) == Some(chain)
      invariant |chain| <= cfg.maxHops
    {
      var ip := ParseElement(cfg, elements[j]);
      ghost var prefix := done + elements[..j+1];
      ParseNext(cfg, done, elements, j, chain);
      if ip.None? {
        RejectedPrefix(cfg, fields, i + 1, prefix);
        return None;
      }
      chain := chain + [ip.value];
      if |chain| > cfg.maxHops {
        RejectedPrefix(cfg, fields, i + 1, prefix);
        return None;
      }
    }
    assert elements[..|elements|] == elements;
    return Some(chain);
  }

  lemma BadField(cfg: Config, fields: seq<Field>, i: nat)
    requires i < |fields|
    ensures TotalBytes(fields[..i+1]) == TotalBytes(fields[..i]) + |fields[i]|
    ensures TotalBytes(fields[..i+1]) > MAX_HEADER_BYTES || !VisibleAscii(fields[i]) ==> Chain(cfg, fields).None?
    ensures AllVisible(fields[..i+1]) == (AllVisible(fields[..i]) && VisibleAscii(fields[i]))
  {
    assert fields[..i+1][..i] == fields[..i];
    assert forall j :: 0 <= j < i ==> fields[..i+1][j] == fields[..i][j];
    assert fields[..i+1][i] == fields[i];
    TotalGrows(fields, i + 1);
  }

  lemma ParsedChain(cfg: Config, fields: seq<Field>, chain: seq<IpAddr>)
    requires TotalBytes(fields) <= MAX_HEADER_BYTES && AllVisible(fields)
    requires ParseElements(cfg, Elements(fields)) == Some(chain) && |chain| <= cfg.maxHops
    ensures Chain(cfg, fields) == if fields == [] then None else Some(chain)
    ensures chain == [] <==> fields == []
  {
    ElementsGrow(fields, 0);
    ParsePrefix(cfg, Elements(fields), 0);
  }

  method ParseForwardedChain(cfg: Config, fields: seq<Field>) returns (r: Option<seq<IpAddr>>)
    ensures r == Chain(cfg, fields)
  {
    var totalBytes := 0;
    var chain: seq<IpAddr> := [];
    var sawHeader := false;
    for i := 0 to |fields|
      invariant totalBytes == TotalBytes(fields[..i]) <= MAX_HEADER_BYTES
      invariant AllVisible(fields[..i])
      invariant ParseElements(cfg, Elements(fields[..i])) == Some(chain)
      invariant |chain| <= cfg.maxHops
      invariant sawHeader == (i > 0)
    {
      sawHeader := true;
      totalBytes := totalBytes + |fields[i]|;
      BadField(cfg, fields, i);
      if totalBytes > MAX_HEADER_BYTES {
        return None;
      }
      if !VisibleAscii(fields[i]) {
        return None;
      }
      var next := ParseField(cfg, fields, i, chain);
      if next.None? {
        return None;
      }
      chain := next.value;
    }
    assert fields[..|fields|] == fields;
    ParsedChain(cfg, fields, chain);
    if !sawHeader || chain == [] {
      return None;
    }
    return Some(chain);
  }

  // ---------- several fields or one combined field ----------

  // The single field that a recipient may form from several (section 5.3 of RFC 9110).
  function Combined(fields: seq<Field>): Field
    requires fields != []
  {
    if |fields| == 1 then fields[0]
    else Combined(fields[..|fields|-1]) + [0x2C] + fields[|fields|-1]
  }

  lemma {:induction false} SplitAtSeparator(s: string, t: string, c: char)
    ensures Split(s + [c] + t, c) == Split(s, c) + Split(t, c)
    decreases |s|
  {
    if c !in s {
      NoSeparator(s, c);
      SplitFirst(s, c, t);
    } else {
      var head, rest := CutAt(s, c);
      SplitAtSeparator(rest, t, c);
      SplitAfterHead(head, rest, t, c);
      assert s + [c] + t == head + [c] + (rest + [c] + t);
    }
  }

  lemma {:induction false} CutAt(s: string, c: char) returns (head: string, rest: string)
    requires c in s
    ensures c !in head && s == head + [c] + rest
  {
    if s[0] == c {
      head, rest := "", s[1..];
    } else {
      head, rest := CutAt(s[1..], c);
      head := [s[0]] + head;
    }
  }

  lemma SplitAfterHead(head: string, rest: string, t: string, c: char)
    requires c !in head && Split(rest + [c] + t, c) == Split(rest, c) + Split(t, c)
    ensures Split(head + [c] + (rest + [c] + t), c) == Split(head + [c] + rest, c) + Split(t, c)
  {
    SplitFirst(head, c, rest);
    SplitFirst(head, c, rest + [c] + t);
    ConcatThree([head], Split(rest, c), Split(t, c));
  }

  lemma SplitFirst(head: string, c: char, rest: string)
    requires c !in head
    ensures Split(head + [c] + rest, c) == [head] + Split(rest, c)
  {
    var s := head + [c] + rest;
    UpToFirst(head, c, rest);
    assert s[..|head|] == head && s[|head|+1..] == rest;
    SplitStep(s, c, head, rest);
  }

  lemma SplitStep(s: string, c: char, head: string, rest: string)
    requires UpTo(s, c) < |s| && head == s[..UpTo(s, c)] && rest == s[UpTo(s, c)+1..]
    ensures Split(s, c) == [head] + Split(rest, c)
  {
  }

  lemma OneField(f: Field)
    ensures Elements([f]) == Split(AsText(f), ',') && TotalBytes([f]) == |f|
    ensures AllVisible([f]) == VisibleAscii(f)
  {
    var one := [f];
    assert one[..|one|-1] == [];
    assert AllVisible(one) ==> VisibleAscii(one[0]);
  }

  lemma {:induction false} CombinedElements(fields: seq<Field>)
    requires fields != []
    ensures Elements([Combined(fields)]) == Elements(fields)
  {
    var n := |fields| - 1;
    if n == 0 {
      assert fields == [fields[0]];
    } else {
      CombinedElements(fields[..n]);
      JoinedElements(Combined(fields[..n]), fields[n]);
    }
  }

  lemma JoinedElements(a: Field, b: Field)
    ensures Elements([a + [0x2C] + b]) == Elements([a]) + Split(AsText(b), ',')
  {
    OneField(a);
    OneField(a + [0x2C] + b);
    assert AsText(a + [0x2C] + b) == AsText(a) + [','] + AsText(b);
    SplitAtSeparator(AsText(a), AsText(b), ',');
  }

  lemma {:induction false} CombinedBytes(fields: seq<Field>)
    requires fields != []
    ensures VisibleAscii(Combined(fields)) == AllVisible(fields)
    ensures |Combined(fields)| == TotalBytes(fields) + |fields| - 1
  {
    var n := |fields| - 1;
    if n == 0 {
      OneField(fields[0]);
      assert fields == [fields[0]];
    } else {
      CombinedBytes(fields[..n]);
      CombinedVisible(Combined(fields[..n]), fields[n]);
      VisibleSplit(fields, n);
    }
  }

  lemma VisibleSplit(fields: seq<Field>, n: nat)
    requires |fields| == n + 1
    ensures AllVisible(fields) == (AllVisible(fields[..n]) && VisibleAscii(fields[n]))
  {
    assert forall i :: 0 <= i < n ==> fields[..n][i] == fields[i];
  }

  lemma CombinedVisible(a: Field, b: Field)
    ensures VisibleAscii(a + [0x2C] + b) == (VisibleAscii(a) && VisibleAscii(b))
  {
    var f := a + [0x2C] + b;
    if VisibleAscii(f) {
      assert forall i :: 0 <= i < |a| ==> a[i] == f[i];
      assert forall i :: 0 <= i < |b| ==> b[i] == f[|a|+1+i];
    }
  }

  // Several fields and the combined field give the same chain or the same
  // rejection; only the added commas count against the byte limit.
  lemma HeaderCombination(cfg: Config, fields: seq<Field>)
    requires fields != []
    ensures Chain(cfg, [Combined(fields)])
         == if TotalBytes(fields) + |fields| - 1 > MAX_HEADER_BYTES then None else Chain(cfg, fields)
  {
    CombinedElements(fields);
    CombinedBytes(fields);
    OneField(Combined(fields));
  }

  // ---------- lists of addresses ----------

  lemma {:induction false} ParseExactly(cfg: Config, elements: seq<string>)
    ensures var r := ParseElements(cfg, elements);
      && (r.Some? <==>
            forall i :: 0 <= i < |elements| ==> Trim(elements[i]) != "" && cfg.parseIp(Trim(elements[i])).Some?)
      && (r.Some? ==>
            && |r.value| == |elements|
            && forall i :: 0 <= i < |elements| ==> r.value[i] == NormalizeIp(cfg.parseIp(Trim(elements[i])).value))
  {
    if elements != [] {
      var init := elements[..|elements|-1];
      ParseExactly(cfg, init);
      assert forall i :: 0 <= i < |init| ==> init[i] == elements[i];
    }
  }

  // A chain is accepted exactly within the limits and if every element is an address
  // between blanks; it then holds the normalised addresses in order.
  lemma ChainExactly(cfg: Config, fields: seq<Field>)
    ensures var elements := Elements(fields);
      && (Chain(cfg, fields).Some? <==>
            && fields != [] && TotalBytes(fields) <= 8192 && |elements| <= cfg.maxHops
            && (forall i, j :: 0 <= i < |fields| && 0 <= j < |fields[i]| ==>
                  fields[i][j] == 9 || 32 <= fields[i][j] <= 126)
            && forall i :: 0 <= i < |elements| ==> Trim(elements[i]) != "" && cfg.parseIp(Trim(elements[i])).Some?)
      && (Chain(cfg, fields).Some? ==>
            && |Chain(cfg, fields).value| == |elements|
            && forall i :: 0 <= i < |elements| ==>
                 Chain(cfg, fields).value[i] == NormalizeIp(cfg.parseIp(Trim(elements[i])).value))
  {
    ParseExactly(cfg, Elements(fields));
  }

  // Elements joined by commas.
  function Joined(elements: seq<string>): string
    requires elements != []
  {
    if |elements| == 1 then elements[0]
    else Joined(elements[..|elements|-1]) + [','] + elements[|elements|-1]
  }

  // Splitting at the commas gives back what was joined.
  lemma {:induction false} SplitJoined(elements: seq<string>)
    requires elements != [] && forall i :: 0 <= i < |elements| ==> ',' !in elements[i]
    ensures Split(Joined(elements), ',') == elements
  {
    var n := |elements| - 1;
    NoSeparator(elements[n], ',');
    if n == 0 {
      assert elements == [elements[0]];
    } else {
      SplitJoined(elements[..n]);
      SplitAtSeparator(Joined(elements[..n]), elements[n], ',');
      assert elements == elements[..n] + [elements[n]];
    }
  }

  function Bytes(text: string): Field
    requires forall i :: 0 <= i < |text| ==> ' ' <= text[i] <= '~'
  {
    seq(|text|, i requires 0 <= i < |text| => text[i] as int)
  }

  // A field that lists addresses gives exactly these, unless it is too long or there
  // are too many.
  lemma ListedAddresses(cfg: Config, elements: seq<string>, ips: seq<IpAddr>)
    requires elements != [] && |ips| == |elements|
    requires forall i :: 0 <= i < |elements| ==>
      ',' !in elements[i] && Trim(elements[i]) != "" && cfg.parseIp(Trim(elements[i])) == Some(ips[i])
    requires forall i :: 0 <= i < |Joined(elements)| ==> ' ' <= Joined(elements)[i] <= '~'
    ensures Chain(cfg, [Bytes(Joined(elements))])
         == if |Joined(elements)| > 8192 || |ips| > cfg.maxHops then None
            else Some(seq(|ips|, i requires 0 <= i < |ips| => NormalizeIp(ips[i])))
  {
    var text := Joined(elements);
    var f := Bytes(text);
    OneField(f);
    assert AsText(f) == text;
    SplitJoined(elements);
    ChainExactly(cfg, [f]);
    if Chain(cfg, [f]).Some? {
      assert Chain(cfg, [f]).value == seq(|ips|, i requires 0 <= i < |ips| => NormalizeIp(ips[i]));
    }
  }

  // The address "::1", followed by blanks up to n characters.
  function PaddedField(n: nat): Field
    requires n >= 3
  {
    [0x3A, 0x3A, 0x31] + seq(n - 3, _ => 0x20)
  }

  lemma {:induction false} TrimEndTail(s: string, n: nat)
    requires 0 < n <= |s| && Blank(s, n, |s|) && !IsWhitespace(s[n-1])
    ensures TrimEnd(s) == s[..n]
  {
    if n < |s| {
      TrimEndTail(s[..|s|-1], n);
      assert s[..|s|-1][..n] == s[..n];
    } else {
      assert s[..n] == s;
    }
  }

  lemma {:induction false} NoSeparator(s: string, c: char)
    requires c !in s
    ensures Split(s, c) == [s]
  {
    assert UpTo(s, c) == |s|;
  }

  lemma PaddedElement(cfg: Config, n: nat)
    requires n >= 3 && cfg.parseIp("::1").Some?
    ensures VisibleAscii(PaddedField(n)) && Split(AsText(PaddedField(n)), ',') == [AsText(PaddedField(n))]
    ensures ParseElement(cfg, AsText(PaddedField(n))).Some?
  {
    var t := AsText(PaddedField(n));
    NoSeparator(t, ',');
    TrimEndTail(t, 3);
    assert t[..3] == "::1";
  }

  lemma TwoParsed(cfg: Config, t: string)
    requires ParseElement(cfg, t).Some?
    ensures ParseElements(cfg, [t, t]).Some? && |ParseElements(cfg, [t, t]).value| == 2
  {
    var elements, ip := [t, t], ParseElement(cfg, t).value;
    assert [] + elements[..0] == [] && [] + elements[..2] == elements;
    ParseNext(cfg, [], elements, 0, []);
    assert [] + [ip] == [ip];
    ParseNext(cfg, [], elements, 1, [ip]);
  }

  lemma TwiceTheSame(cfg: Config, f: Field, t: string)
    requires VisibleAscii(f) && 2 * |f| <= MAX_HEADER_BYTES && Split(AsText(f), ',') == [t]
    requires ParseElement(cfg, t).Some? && cfg.maxHops >= 2
    ensures Chain(cfg, [f, f]).Some?
  {
    OneField(f);
    var fields := [f, f];
    assert fields[..1] == [f];
    assert TotalBytes(fields) == 2 * |f|;
    assert Elements(fields) == [t, t];
    TwoParsed(cfg, t);
  }

  // Two fields of 4096 bytes are accepted one by one; the comma between them makes
  // the combined field one byte too long.
  lemma CombinedIsRefused(cfg: Config)
    requires cfg.parseIp("::1").Some? && cfg.maxHops >= 2
    ensures var fields := [PaddedField(4096), PaddedField(4096)];
      Chain(cfg, fields).Some? && Chain(cfg, [Combined(fields)]).None?
  {
    PaddedElement(cfg, 4096);
    TwiceTheSame(cfg, PaddedField(4096), AsText(PaddedField(4096)));
    HeaderCombination(cfg, [PaddedField(4096), PaddedField(4096)]);
  }

  // ---------- resolution ----------

  // The rightmost address outside the trusted networks.
  function RightmostUntrusted(cfg: Config, chain: seq<IpAddr>): Option<IpAddr> {
    if chain == [] then None
    else if !IsTrusted(cfg, chain[|chain|-1]) then Some(chain[|chain|-1])
    else RightmostUntrusted(cfg, chain[..|chain|-1])
  }

  function Resolve(cfg: Config, peer: IpAddr, fields: seq<Field>): Identity {
    var peer := NormalizeIp(peer);
    if !cfg.trustForwarded || !IsTrusted(cfg, peer) then Identity(peer, DirectPeer)
    else match Chain(cfg, fields)
      case None => Identity(peer, ForwardedHeaderRejected)
      case Some(chain) =>
        match RightmostUntrusted(cfg, chain)
        case None => Identity(peer, ForwardedHeaderRejected)
        case Some(ip) => Identity(ip, TrustedForwardedChain)
  }

  ghost predicate IsRightmostUntrusted(cfg: Config, chain: seq<IpAddr>, i: nat) {
    i < |chain| && !IsTrusted(cfg, chain[i]) && forall j :: i < j < |chain| ==> IsTrusted(cfg, chain[j])
  }

  lemma {:induction false} WalkFindsRightmost(cfg: Config, chain: seq<IpAddr>, i: nat)
    requires IsRightmostUntrusted(cfg, chain, i)
    ensures RightmostUntrusted(cfg, chain) == Some(chain[i])
  {
    var n := |chain| - 1;
    if i < n {
      assert IsTrusted(cfg, chain[n]);
      WalkFindsRightmost(cfg, chain[..n], i);
    }
  }

  lemma {:induction false} WalkResult(cfg: Config, chain: seq<IpAddr>)
    ensures RightmostUntrusted(cfg, chain).Some? ==>
      exists i: nat :: IsRightmostUntrusted(cfg, chain, i) && RightmostUntrusted(cfg, chain) == Some(chain[i])
    ensures RightmostUntrusted(cfg, chain).None? <==> forall i :: 0 <= i < |chain| ==> IsTrusted(cfg, chain[i])
  {
    if chain != [] {
      var n := |chain| - 1;
      if !IsTrusted(cfg, chain[n]) {
        assert IsRightmostUntrusted(cfg, chain, n);
      } else {
        WalkResult(cfg, chain[..n]);
        if RightmostUntrusted(cfg, chain).Some? {
          var i: nat :| IsRightmostUntrusted(cfg, chain[..n], i) && RightmostUntrusted(cfg, chain[..n]) == Some(chain[..n][i]);
          assert IsRightmostUntrusted(cfg, chain, i);
        }
        assert forall i :: 0 <= i < n ==> chain[..n][i] == chain[i];
      }
    }
  }

  // A forwarded identity is used exactly for a trusted peer with a valid chain
  // that has an untrusted address, and it is the rightmost such address.
  lemma ForwardedIdentity(cfg: Config, peer: IpAddr, fields: seq<Field>)
    ensures var id := Resolve(cfg, peer, fields);
      && (id.source == TrustedForwardedChain <==>
            && cfg.trustForwarded && IsTrusted(cfg, NormalizeIp(peer))
            && Chain(cfg, fields).Some?
            && exists i :: 0 <= i < |Chain(cfg, fields).value| && !IsTrusted(cfg, Chain(cfg, fields).value[i]))
      && (id.source == TrustedForwardedChain ==>
            exists i: nat :: IsRightmostUntrusted(cfg, Chain(cfg, fields).value, i)
                          && id.effectiveIp == Chain(cfg, fields).value[i])
      && (id.source != TrustedForwardedChain ==> id.effectiveIp == NormalizeIp(peer))
  {
    if Chain(cfg, fields).Some? {
      WalkResult(cfg, Chain(cfg, fields).value);
    }
  }

  // ---------- spoofing ----------

  lemma ElementsAppend(a: seq<Field>, f: Field)
    ensures Elements(a + [f]) == Elements(a) + Split(AsText(f), ',')
  {
    assert (a + [f])[..|a|] == a;
  }

  lemma {:induction false} ElementsConcat(a: seq<Field>, b: seq<Field>)
    ensures Elements(a + b) == Elements(a) + Elements(b)
  {
    if b == [] {
      assert a + b == a;
    } else {
      var init, last := b[..|b|-1], b[|b|-1];
      ElementsConcat(a, init);
      ElementsAppend(a + init, last);
      assert a + b == (a + init) + [last];
      ConcatThree(Elements(a), Elements(init), Split(AsText(last), ','));
    }
  }

  lemma {:induction false} ParseConcat(cfg: Config, a: seq<string>, b: seq<string>)
    requires ParseElements(cfg, a + b).Some?
    ensures ParseElements(cfg, a).Some? && ParseElements(cfg, b).Some?
    ensures ParseElements(cfg, a + b).value == ParseElements(cfg, a).value + ParseElements(cfg, b).value
  {
    if b == [] {
      assert a + b == a;
    } else {
      assert (a + b)[..|a+b|-1] == a + b[..|b|-1];
      ParseConcat(cfg, a, b[..|b|-1]);
    }
  }

  // Addresses that a client puts in front of a chain change nothing.
  lemma SpoofedPrefix(cfg: Config, peer: IpAddr, spoofed: seq<Field>, fields: seq<Field>)
    requires Resolve(cfg, peer, fields).source == TrustedForwardedChain
    requires Chain(cfg, spoofed + fields).Some?
    ensures Resolve(cfg, peer, spoofed + fields) == Resolve(cfg, peer, fields)
  {
    ElementsConcat(spoofed, fields);
    ParseConcat(cfg, Elements(spoofed), Elements(fields));
    PrefixIrrelevant(cfg, ParseElements(cfg, Elements(spoofed)).value, Chain(cfg, fields).value);
  }

  lemma SpoofedElements(spoofed: Field, own: Field, rest: seq<Field>)
    ensures Elements([spoofed + [0x2C] + own] + rest) == Elements([spoofed]) + Elements([own] + rest)
  {
    var joined := spoofed + [0x2C] + own;
    assert AsText(joined) == AsText(spoofed) + [','] + AsText(own);
    SplitAtSeparator(AsText(spoofed), AsText(own), ',');
    OneField(joined);
    OneField(spoofed);
    OneField(own);
    ElementsConcat([joined], rest);
    ElementsConcat([own], rest);
    ConcatThree(Elements([spoofed]), Elements([own]), Elements(rest));
  }

  // Nor do addresses that a client puts in its own field, to which a proxy then appends.
  lemma SpoofedInField(cfg: Config, peer: IpAddr, spoofed: Field, own: Field, rest: seq<Field>)
    requires Resolve(cfg, peer, [own] + rest).source == TrustedForwardedChain
    requires Chain(cfg, [spoofed + [0x2C] + own] + rest).Some?
    ensures Resolve(cfg, peer, [spoofed + [0x2C] + own] + rest) == Resolve(cfg, peer, [own] + rest)
  {
    SpoofedElements(spoofed, own, rest);
    ParseConcat(cfg, Elements([spoofed]), Elements([own] + rest));
    PrefixIrrelevant(cfg, ParseElements(cfg, Elements([spoofed])).value, Chain(cfg, [own] + rest).value);
  }

  lemma {:induction false} PrefixIrrelevant(cfg: Config, prefix: seq<IpAddr>, chain: seq<IpAddr>)
    requires RightmostUntrusted(cfg, chain).Some?
    ensures RightmostUntrusted(cfg, prefix + chain) == RightmostUntrusted(cfg, chain)
  {
    var whole := prefix + chain;
    assert whole[|whole|-1] == chain[|chain|-1];
    if IsTrusted(cfg, chain[|chain|-1]) {
      assert whole[..|whole|-1] == prefix + chain[..|chain|-1];
      PrefixIrrelevant(cfg, prefix, chain[..|chain|-1]);
    }
  }

  // Two spellings of the same addresses, some of them IPv4-mapped.
  ghost predicate SameUpToMapping(cfg: Config, a: seq<string>, b: seq<string>) {
    && |a| == |b|
    && forall i :: 0 <= i < |a| ==>
         var x, y := cfg.parseIp(Trim(a[i])), cfg.parseIp(Trim(b[i]));
         && Trim(a[i]) != "" && Trim(b[i]) != ""
         && x.Some? && y.Some?
         && (y.value == x.value || y.value == ToMapped(x.value))
  }

  lemma {:induction false} MappedElements(cfg: Config, a: seq<string>, b: seq<string>)
    requires SameUpToMapping(cfg, a, b)
    ensures ParseElements(cfg, a) == ParseElements(cfg, b)
  {
    if a != [] {
      MappedElements(cfg, a[..|a|-1], b[..|b|-1]);
      MappedNormalizes(cfg.parseIp(Trim(a[|a|-1])).value);
    }
  }

  // Writing any address of the chain, or the peer, in IPv4-mapped form changes nothing.
  lemma MappedFormsAreEqual(cfg: Config, peer: IpAddr, fields: seq<Field>, respelled: seq<Field>)
    requires AllVisible(fields) && AllVisible(respelled) && fields != [] && respelled != []
    requires TotalBytes(fields) <= MAX_HEADER_BYTES && TotalBytes(respelled) <= MAX_HEADER_BYTES
    requires SameUpToMapping(cfg, Elements(fields), Elements(respelled))
    ensures Resolve(cfg, peer, respelled) == Resolve(cfg, peer, fields)
    ensures Resolve(cfg, ToMapped(peer), fields) == Resolve(cfg, peer, fields)
  {
    MappedElements(cfg, Elements(fields), Elements(respelled));
    MappedNormalizes(peer);
  }
}
