/**
 * Bounded JSON redaction for operator telemetry (backend/rust/src/main.rs).
 *
 * Lower-casing of member names is a parameter: every result holds whatever
 * full Unicode lower-casing does.
 */
module Redactor {
  import opened Common
  import opened Json
  import opened Text
  import opened Utf8

  const MAX_ARRAY_LEN: nat := 48
  const MAX_STRING_CHARS: nat := 1200
  const ELLIPSIS: char := '\U{2026}'
  const DEPTH_LIMIT: string := "[DEPTH_LIMIT]"
  const PATH_REDACTED: string := "[PATH_REDACTED]"
  const REDACTED: string := "[REDACTED]"

  function TruncatePreview(s: string, maxChars: nat): string {
    if |s| <= maxChars then s else s[..maxChars] + [ELLIPSIS]
  }

  // The test as the code makes it, on the bytes of the trimmed string.
  predicate LooksLikePath(s: string) {
    var t := Trim(s);
    var b := Encode(t);
    |b| >= 2 && (("/" <= t && !("//" <= t)) || (|b| >= 3 && b[1] == 0x3A && (b[2] == 0x5C || b[2] == 0x2F)))
  }

  predicate EndsWith(s: string, suffix: string) {
    |suffix| <= |s| && s[|s|-|suffix|..] == suffix
  }

  predicate Contains(s: string, part: string) {
    exists i :: 0 <= i <= |s| && part <= s[i..]
  }

  predicate SensitiveKey(lower: string -> string, key: string) {
    var k := lower(key);
    k in ["authorization", "password", "api_key", "apikey", "access_token", "refresh_token"]
    || EndsWith(k, "_secret") || k == "jwt"
  }

  // What happens to a member that is kept: replaced by a fixed value, or redacted itself.
  datatype Fate = Replace(with: Value) | Recurse

  function FateOf(lower: string -> string, key: string, v: Value): Fate {
    var k := lower(key);
    if k == "cwd" || k == "executable" then Replace(Str(REDACTED))
    else if Contains(k, "path") && v.Str? && LooksLikePath(v.s) then Replace(Str(PATH_REDACTED))
    else if (k == "env" || k == "environment") && v.Obj? then Replace(Obj(map[]))
    else Recurse
  }

  function RedactString(s: string): string {
    if LooksLikePath(s) then PATH_REDACTED else TruncatePreview(s, MAX_STRING_CHARS)
  }

  function RedactMember(lower: string -> string, key: string, v: Value, depth: nat): Value
    decreases depth, 1
  {
    match FateOf(lower, key, v)
    case Replace(w) => w
    case Recurse => Redact(lower, v, depth)
  }

  function Redact(lower: string -> string, v: Value, depth: nat): Value
    decreases depth, 0
  {
    if depth == 0 then Str(DEPTH_LIMIT)
    else match v
      case Str(s) => Str(RedactString(s))
      case Arr(items) =>
        var kept := items[..Min(|items|, MAX_ARRAY_LEN)];
        Arr(seq(|kept|, i requires 0 <= i < |kept| => Redact(lower, kept[i], depth - 1)))
      case Obj(fields) =>
        Obj(map k | k in fields && !SensitiveKey(lower, k) :: RedactMember(lower, k, fields[k], depth - 1))
      case _ => v
  }

  // ---------- bounds on every output ----------

  // At most `depth` levels of nesting, bounded arrays and strings, no sensitive name.
  ghost predicate Bounded(lower: string -> string, v: Value, depth: nat)
    decreases depth
  {
    match v
    case Str(s) => |s| <= MAX_STRING_CHARS + 1
    case Arr(items) =>
      && |items| <= MAX_ARRAY_LEN
      && (items != [] ==> depth > 0)
      && forall i :: 0 <= i < |items| ==> Bounded(lower, items[i], depth - 1)
    case Obj(fields) =>
      && (fields != map[] ==> depth > 0)
      && forall k :: k in fields ==> !SensitiveKey(lower, k) && Bounded(lower, fields[k], depth - 1)
    case _ => true
  }

  lemma {:induction false} RedactIsBounded(lower: string -> string, v: Value, depth: nat)
    ensures Bounded(lower, Redact(lower, v, depth), depth)
    decreases depth, 1
  {
    if depth > 0 {
      match v
      case Arr(items) => ArrayIsBounded(lower, items, depth);
      case Obj(fields) => ObjectIsBounded(lower, fields, depth);
      case _ =>
    }
  }

  lemma {:induction false} ArrayIsBounded(lower: string -> string, items: seq<Value>, depth: nat)
    requires depth > 0
    ensures Bounded(lower, Redact(lower, Arr(items), depth), depth)
    decreases depth, 0
  {
    var r := Redact(lower, Arr(items), depth).items;
    forall i | 0 <= i < |r| ensures Bounded(lower, r[i], depth - 1) {
      RedactIsBounded(lower, items[i], depth - 1);
    }
  }

  lemma {:induction false} ObjectIsBounded(lower: string -> string, fields: map<string, Value>, depth: nat)
    requires depth > 0
    ensures Bounded(lower, Redact(lower, Obj(fields), depth), depth)
    decreases depth, 0
  {
    var r := Redact(lower, Obj(fields), depth).fields;
    forall k | k in r ensures !SensitiveKey(lower, k) && Bounded(lower, r[k], depth - 1) {
      RedactIsBounded(lower, fields[k], depth - 1);
      assert r[k] == RedactMember(lower, k, fields[k], depth - 1);
    }
  }

  // ---------- every place of every output ----------

  datatype Hop = Item(i: nat) | Member(k: string)

  // What a document holds at a path.
  function At(v: Value, path: seq<Hop>): Option<Value>
    decreases |path|
  {
    if path == [] then Some(v)
    else match path[0]
      case Item(i) => if v.Arr? && i < |v.items| then At(v.items[i], path[1..]) else None
      case Member(k) => if v.Obj? && k in v.fields then At(v.fields[k], path[1..]) else None
  }

  // The names whose members are removed.
  predicate Removed(lower: string -> string, key: string) {
    var k := lower(key);
    || k in ["authorization", "password", "api_key", "apikey", "access_token", "refresh_token", "jwt"]
    || (|k| >= 7 && k[|k|-7..] == "_secret")
  }

  predicate HoldsPath(k: string) {
    exists i :: 0 <= i < |k| - 3 && k[i] == 'p' && k[i+1] == 'a' && k[i+2] == 't' && k[i+3] == 'h'
  }

  // The fixed value that a member is overwritten with, if it is.
  function Overwritten(lower: string -> string, key: string, v: Value): Option<Value> {
    var k := lower(key);
    if k in ["cwd", "executable"] then Some(Str("[REDACTED]"))
    else if v.Str? && LooksLikePath(v.s) && HoldsPath(k)
    then Some(Str("[PATH_REDACTED]"))
    else if v.Obj? && k in ["env", "environment"] then Some(Obj(map[]))
    else None
  }

  // The output descends along the path: no removed name, no item from the 49th on,
  // and nothing below a member that is overwritten.
  ghost predicate Descends(lower: string -> string, v: Value, path: seq<Hop>) {
    forall j :: 0 <= j < |path| ==>
      match path[j]
      case Item(i) => i < 48
      case Member(k) =>
        && !Removed(lower, k)
        && (j + 1 < |path| && At(v, path[..j+1]).Some? ==> Overwritten(lower, k, At(v, path[..j+1]).value).None?)
  }

  // What the output shows at a path of a document that holds `v` there.
  ghost predicate Shows(lower: string -> string, v: Value, path: seq<Hop>, depth: nat, out: Value) {
    if path != [] && path[|path|-1].Member? && Overwritten(lower, path[|path|-1].k, v).Some?
    then out == Overwritten(lower, path[|path|-1].k, v).value
    else if depth == |path| then out == Str("[DEPTH_LIMIT]")
    else match v
      case Str(s) =>
        out == Str(if LooksLikePath(s) then "[PATH_REDACTED]"
                   else if |s| <= 1200 then s else s[..1200] + ['\U{2026}'])
      case Arr(items) => out.Arr? && |out.items| == Min(|items|, 48)
      case Obj(_) => out.Obj?
      case _ => out == v
  }

  lemma RemovedIsSensitive(lower: string -> string, key: string)
    ensures Removed(lower, key) <==> SensitiveKey(lower, key)
  {
  }

  lemma ContainsPath(k: string)
    ensures Contains(k, "path") <==> HoldsPath(k)
  {
    if Contains(k, "path") {
      var i: nat :| i <= |k| && "path" <= k[i..];
      var t := k[i..];
      assert t[0] == 'p' && t[1] == 'a' && t[2] == 't' && t[3] == 'h';
      assert k[i] == t[0] && k[i+1] == t[1] && k[i+2] == t[2] && k[i+3] == t[3];
    }
    if HoldsPath(k) {
      var i :| 0 <= i < |k| - 3 && k[i] == 'p' && k[i+1] == 'a' && k[i+2] == 't' && k[i+3] == 'h';
      assert "path" <= k[i..];
    }
  }

  lemma OverwrittenIsFate(lower: string -> string, key: string, v: Value)
    ensures FateOf(lower, key, v) ==
      if Overwritten(lower, key, v).Some? then Replace(Overwritten(lower, key, v).value) else Recurse
  {
    ContainsPath(lower(key));
  }

  lemma AtStep(v: Value, child: Value, path: seq<Hop>, j: nat)
    requires path != [] && At(v, path[..1]) == Some(child) && j <= |path| - 1
    ensures At(v, path[..j+1]) == At(child, path[1..][..j])
  {
    assert path[..1][1..] == [] && path[..j+1][1..] == path[1..][..j];
  }

  lemma DescendsStep(lower: string -> string, v: Value, child: Value, path: seq<Hop>)
    requires path != [] && At(v, path[..1]) == Some(child)
    ensures Descends(lower, v, path) <==>
      && (match path[0]
          case Item(i) => i < 48
          case Member(k) => !Removed(lower, k) && (|path| > 1 ==> Overwritten(lower, k, child).None?))
      && Descends(lower, child, path[1..])
  {
    hide Removed, Overwritten;
    var rest := path[1..];
    forall j | 0 <= j < |path| ensures At(v, path[..j+1]) == At(child, rest[..j]) {
      AtStep(v, child, path, j);
    }
    assert rest[..0] == [];
    assert forall j :: 0 <= j < |rest| ==> rest[j] == path[j+1];
    forall j | 1 <= j < |path| ensures path[j] == rest[j-1] && At(v, path[..j+1]) == At(child, rest[..(j-1)+1]) {
    }
  }

  // An overwritten member holds the fixed value and nothing below it.
  lemma OverwrittenBelow(lower: string -> string, key: string, child: Value, path: seq<Hop>, depth: nat)
    requires path != [] && path[0] == Member(key) && Overwritten(lower, key, child).Some?
    ensures var w := Overwritten(lower, key, child).value;
      && (At(w, path[1..]).Some? <==> |path| == 1)
      && (|path| == 1 ==> At(w, path[1..]) == Some(w) && Shows(lower, child, path, depth, w))
  {
    hide LooksLikePath;
  }

  // The output holds something at a path exactly if the document does, the path is
  // no longer than the depth, and the output descends along it; and what it holds
  // there is determined.
  lemma {:induction false} RedactPointwise(lower: string -> string, v: Value, depth: nat, path: seq<Hop>)
    ensures At(Redact(lower, v, depth), path).Some? <==>
      At(v, path).Some? && |path| <= depth && Descends(lower, v, path)
    ensures At(Redact(lower, v, depth), path).Some? ==>
      Shows(lower, At(v, path).value, path, depth, At(Redact(lower, v, depth), path).value)
    decreases |path|, 1
  {
    if path != [] && depth > 0 {
      match path[0]
      case Item(i) =>
        if v.Arr? && i < |v.items| {
          ItemPointwise(lower, v, depth, path);
        }
      case Member(k) =>
        if v.Obj? && k in v.fields {
          MemberPointwise(lower, v, depth, path);
        }
    }
  }

  // What is shown below a child is shown from its parent.
  lemma ShowsFromParent(lower: string -> string, w: Value, path: seq<Hop>, depth: nat, out: Value)
    requires path != [] && depth > 0 && Shows(lower, w, path[1..], depth - 1, out)
    requires |path| > 1 || path[0].Item? || Overwritten(lower, path[0].k, w).None?
    ensures Shows(lower, w, path, depth, out)
  {
    hide Overwritten, LooksLikePath;
    if |path| > 1 {
      assert path[1..][|path|-2] == path[|path|-1];
    }
  }

  lemma AtItem(lower: string -> string, v: Value, depth: nat, path: seq<Hop>)
    requires path != [] && depth > 0 && path[0].Item? && v.Arr? && path[0].i < |v.items|
    ensures var (i, rest) := (path[0].i, path[1..]);
      && At(v, path) == At(v.items[i], rest) && At(v, path[..1]) == Some(v.items[i])
      && At(Redact(lower, v, depth), path) == if i < 48 then At(Redact(lower, v.items[i], depth - 1), rest) else None
  {
    assert path[..1][1..] == [];
  }

  lemma ItemPointwise(lower: string -> string, v: Value, depth: nat, path: seq<Hop>)
    requires path != [] && depth > 0 && path[0].Item? && v.Arr? && path[0].i < |v.items|
    ensures At(Redact(lower, v, depth), path).Some? <==>
      At(v, path).Some? && |path| <= depth && Descends(lower, v, path)
    ensures At(Redact(lower, v, depth), path).Some? ==>
      Shows(lower, At(v, path).value, path, depth, At(Redact(lower, v, depth), path).value)
    decreases |path|, 0
  {
    hide Overwritten, Removed, LooksLikePath, Descends, Shows, At, Redact;
    var i, rest := path[0].i, path[1..];
    AtItem(lower, v, depth, path);
    DescendsStep(lower, v, v.items[i], path);
    RedactPointwise(lower, v.items[i], depth - 1, rest);
    var out := At(Redact(lower, v.items[i], depth - 1), rest);
    if out.Some? {
      ShowsFromParent(lower, At(v.items[i], rest).value, path, depth, out.value);
    }
  }

  lemma MemberPointwise(lower: string -> string, v: Value, depth: nat, path: seq<Hop>)
    requires path != [] && depth > 0 && path[0].Member? && v.Obj? && path[0].k in v.fields
    ensures At(Redact(lower, v, depth), path).Some? <==>
      At(v, path).Some? && |path| <= depth && Descends(lower, v, path)
    ensures At(Redact(lower, v, depth), path).Some? ==>
      Shows(lower, At(v, path).value, path, depth, At(Redact(lower, v, depth), path).value)
    decreases |path|, 0
  {
    hide Removed, LooksLikePath, Descends, SensitiveKey, FateOf, Shows, Overwritten;
    var k, rest := path[0].k, path[1..];
    var child := v.fields[k];
    assert path[..1][1..] == [];
    DescendsStep(lower, v, child, path);
    RemovedIsSensitive(lower, k);
    OverwrittenIsFate(lower, k, child);
    RedactPointwise(lower, child, depth - 1, rest);
    if Overwritten(lower, k, child).Some? {
      OverwrittenBelow(lower, k, child, path, depth);
    } else {
      var out := At(Redact(lower, child, depth - 1), rest);
      if out.Some? {
        ShowsFromParent(lower, At(child, rest).value, path, depth, out.value);
      }
    }
  }

  // No output, at any depth, holds a name that is to be removed at any level.
  lemma NothingRemovedIsLeft(lower: string -> string, v: Value, depth: nat, path: seq<Hop>, j: nat)
    requires At(Redact(lower, v, depth), path).Some? && j < |path| && path[j].Member?
    ensures !Removed(lower, path[j].k)
  {
    RedactPointwise(lower, v, depth, path);
  }

  // ---------- paths and truncation ----------

  // The path test in terms of characters.
  predicate PathChars(t: string) {
    || (|t| >= 2 && t[0] == '/' && t[1] != '/')
    || (|t| >= 3 && t[0] as int < 0x80 && t[1] == ':' && (t[2] == '\\' || t[2] == '/'))
  }

  lemma EncodeTwo(t: string)
    requires |t| >= 2
    ensures Encode(t) == EncodeChar(t[0]) + EncodeChar(t[1]) + Encode(t[2..])
  {
    assert t[1..][0] == t[1] && t[1..][1..] == t[2..];
  }

  lemma LooksLikePathByChars(s: string)
    ensures LooksLikePath(s) <==> PathChars(Trim(s))
  {
    var t := Trim(s);
    var b := Encode(t);
    if |t| >= 2 {
      EncodeTwo(t);
      var a, c := EncodeChar(t[0]), EncodeChar(t[1]);
      if |t| >= 3 {
        var d := EncodeChar(t[2]);
        assert t[2..][0] == t[2];
        assert b == a + c + (d + Encode(t[2..][1..]));
        if |a| == 1 && |c| == 1 {
          assert b[1] == c[0] && b[2] == d[0];
        }
      } else {
        assert t[2..] == "";
        assert b == a + c;
      }
      if |a| > 1 {
        assert b[1] == a[1];
      } else {
        assert b[1] == c[0];
        if |c| > 1 {
          assert c[0] >= 0xC0;
        }
      }
    } else if |t| == 1 {
      assert t[1..] == "" && Encode(t[1..]) == [];
    }
  }

  function LeadingBlanks(s: string): (n: nat)
    ensures n <= |s| && Blank(s, 0, n) && (n < |s| ==> !IsWhitespace(s[n]))
    ensures TrimStart(s) == s[n..]
  {
    if s != "" && IsWhitespace(s[0]) then 1 + LeadingBlanks(s[1..]) else 0
  }

  lemma {:induction false} TrimEndIsPrefix(s: string)
    ensures TrimEnd(s) <= s && Blank(s, |TrimEnd(s)|, |s|)
    ensures TrimEnd(s) != "" ==> !IsWhitespace(TrimEnd(s)[|TrimEnd(s)|-1])
  {
    if s != "" && IsWhitespace(s[|s|-1]) {
      var init := s[..|s|-1];
      TrimEndIsPrefix(init);
      assert forall k :: 0 <= k < |init| ==> init[k] == s[k];
    }
  }

  lemma LeadingBlanksUnique(s: string, n: nat)
    requires n < |s| && Blank(s, 0, n) && !IsWhitespace(s[n])
    ensures LeadingBlanks(s) == n
  {
  }

  // The path test in terms of the first character that is not blank.
  predicate PathAt(s: string, i: nat)
    requires i <= |s|
  {
    || (i < |s| && s[i] == '/' && !Blank(s, i + 1, |s|) && s[i+1] != '/')
    || (i + 2 < |s| && s[i] as int < 0x80 && s[i+1] == ':' && (s[i+2] == '\\' || s[i+2] == '/'))
  }

  lemma TrimShape(s: string)
    ensures var i, t := LeadingBlanks(s), Trim(s);
      && i + |t| <= |s| && t == s[i..i+|t|]
      && Blank(s, i + |t|, |s|)
      && (i < |s| ==> |t| >= 1 && !IsWhitespace(s[i+|t|-1]))
  {
    var i := LeadingBlanks(s);
    var u := s[i..];
    var t := TrimEnd(u);
    TrimEndIsPrefix(u);
    DropShape(s, i, t);
  }

  lemma DropShape(s: string, i: nat, t: string)
    requires i <= |s| && t <= s[i..] && Blank(s[i..], |t|, |s| - i)
    requires i < |s| ==> !IsWhitespace(s[i])
    requires t != "" ==> !IsWhitespace(t[|t|-1])
    ensures i + |t| <= |s| && t == s[i..i+|t|] && Blank(s, i + |t|, |s|)
    ensures i < |s| ==> |t| >= 1 && !IsWhitespace(s[i+|t|-1])
  {
    var u := s[i..];
    assert forall k :: i <= k < |s| ==> s[k] == u[k-i];
  }

  lemma PathInSlice(s: string, i: nat, t: string)
    requires i + |t| <= |s| && t == s[i..i+|t|] && Blank(s, i + |t|, |s|)
    requires i < |s| ==> |t| >= 1 && !IsWhitespace(s[i+|t|-1])
    ensures PathChars(t) <==> PathAt(s, i)
  {
    assert forall k :: 0 <= k < |t| ==> t[k] == s[i+k];
  }

  lemma TrimmedPath(s: string)
    ensures PathChars(Trim(s)) <==> PathAt(s, LeadingBlanks(s))
  {
    TrimShape(s);
    PathInSlice(s, LeadingBlanks(s), Trim(s));
  }

  lemma LooksLikePathByPosition(s: string)
    ensures LooksLikePath(s) <==> PathAt(s, LeadingBlanks(s))
  {
    LooksLikePathByChars(s);
    TrimmedPath(s);
  }

  // The long strings that only look like a path once they are truncated: a
  // slash followed by nothing but blanks, or "//" right at the cut.
  predicate SlashAtCut(s: string) {
    var i := LeadingBlanks(s);
    && |s| > MAX_STRING_CHARS
    && i < MAX_STRING_CHARS
    && s[i] == '/'
    && (Blank(s, i + 1, |s|) || (i == MAX_STRING_CHARS - 1 && s[i+1] == '/'))
  }

  lemma TruncatedBlanks(s: string)
    requires |s| > MAX_STRING_CHARS
    ensures LeadingBlanks(TruncatePreview(s, MAX_STRING_CHARS)) == Min(LeadingBlanks(s), MAX_STRING_CHARS)
  {
    var cut := TruncatePreview(s, MAX_STRING_CHARS);
    assert forall k :: 0 <= k < MAX_STRING_CHARS ==> cut[k] == s[k];
    assert cut[MAX_STRING_CHARS] == ELLIPSIS;
    LeadingBlanksUnique(cut, Min(LeadingBlanks(s), MAX_STRING_CHARS));
  }

  lemma TruncationMakesPath(s: string)
    requires |s| > MAX_STRING_CHARS && !LooksLikePath(s)
    ensures LooksLikePath(TruncatePreview(s, MAX_STRING_CHARS)) <==> SlashAtCut(s)
  {
    hide LooksLikePath;
    var cut := TruncatePreview(s, MAX_STRING_CHARS);
    LooksLikePathByPosition(s);
    LooksLikePathByPosition(cut);
    TruncatedBlanks(s);
    assert forall k :: 0 <= k < MAX_STRING_CHARS ==> cut[k] == s[k];
    assert cut[MAX_STRING_CHARS] == ELLIPSIS;
  }

  lemma SlashAtCutIsNoPath(s: string)
    requires SlashAtCut(s)
    ensures !LooksLikePath(s)
  {
    LooksLikePathByPosition(s);
  }

  lemma PathRedactedIsNoPath()
    ensures !LooksLikePath(PATH_REDACTED)
  {
    LeadingBlanksUnique(PATH_REDACTED, 0);
    LooksLikePathByPosition(PATH_REDACTED);
  }

  // ---------- fixed points ----------

  // Strings that redaction keeps.
  predicate PlainString(s: string) {
    !LooksLikePath(s)
    && (|s| <= MAX_STRING_CHARS || (|s| == MAX_STRING_CHARS + 1 && s[MAX_STRING_CHARS] == ELLIPSIS))
  }

  lemma TruncateFixed(s: string, n: nat)
    ensures TruncatePreview(s, n) == s <==> |s| <= n || (|s| == n + 1 && s[n] == ELLIPSIS)
  {
    if |s| == n + 1 {
      assert s == s[..n] + [s[n]];
    }
  }

  lemma RedactStringFixed(s: string)
    ensures RedactString(s) == s <==> PlainString(s)
  {
    PathRedactedIsNoPath();
    TruncateFixed(s, MAX_STRING_CHARS);
  }

  // A string comes out plain unless its only fault is a slash at the cut.
  lemma RedactStringPlain(s: string)
    ensures PlainString(RedactString(s)) <==> !SlashAtCut(s)
  {
    PathRedactedIsNoPath();
    if LooksLikePath(s) {
      if SlashAtCut(s) { SlashAtCutIsNoPath(s); }
    } else if |s| > MAX_STRING_CHARS {
      TruncationMakesPath(s);
    }
  }

  // Documents in normal form for a depth: nothing left to redact, drop or cut.
  ghost predicate Normal(lower: string -> string, v: Value, depth: nat)
    decreases depth, 0
  {
    if depth == 0 then v == Str(DEPTH_LIMIT)
    else match v
      case Str(s) => PlainString(s)
      case Arr(items) =>
        |items| <= MAX_ARRAY_LEN && forall i :: 0 <= i < |items| ==> Normal(lower, items[i], depth - 1)
      case Obj(fields) =>
        forall k :: k in fields ==> !SensitiveKey(lower, k) && NormalMember(lower, k, fields[k], depth - 1)
      case _ => true
  }

  ghost predicate NormalMember(lower: string -> string, key: string, v: Value, depth: nat)
    decreases depth, 1
  {
    match FateOf(lower, key, v)
    case Replace(w) => v == w
    case Recurse => Normal(lower, v, depth)
  }

  // The normal forms are exactly the documents redaction leaves alone.
  lemma {:induction false} FixedPoints(lower: string -> string, v: Value, depth: nat)
    ensures Redact(lower, v, depth) == v <==> Normal(lower, v, depth)
    decreases depth, 1
  {
    if depth > 0 {
      match v
      case Str(s) => RedactStringFixed(s);
      case Arr(items) => FixedArray(lower, items, depth);
      case Obj(fields) => FixedObject(lower, fields, depth);
      case _ =>
    }
  }

  lemma {:induction false} FixedArray(lower: string -> string, items: seq<Value>, depth: nat)
    requires depth > 0
    ensures Redact(lower, Arr(items), depth) == Arr(items) <==> Normal(lower, Arr(items), depth)
    decreases depth, 0
  {
    var r := Redact(lower, Arr(items), depth).items;
    assert |r| == Min(|items|, MAX_ARRAY_LEN);
    forall i | 0 <= i < |r| ensures r[i] == items[i] <==> Normal(lower, items[i], depth - 1) {
      FixedPoints(lower, items[i], depth - 1);
    }
    if r == items {
      assert forall i :: 0 <= i < |items| ==> r[i] == items[i];
    }
  }

  lemma {:induction false} FixedObject(lower: string -> string, fields: map<string, Value>, depth: nat)
    requires depth > 0
    ensures Redact(lower, Obj(fields), depth) == Obj(fields) <==> Normal(lower, Obj(fields), depth)
    decreases depth, 0
  {
    var r := Redact(lower, Obj(fields), depth).fields;
    forall k | k in fields
      ensures RedactMember(lower, k, fields[k], depth - 1) == fields[k] <==> NormalMember(lower, k, fields[k], depth - 1)
    {
      FixedPoints(lower, fields[k], depth - 1);
    }
    FixedFields(lower, fields, r, depth);
  }

  lemma FixedFields(lower: string -> string, fields: map<string, Value>, r: map<string, Value>, depth: nat)
    requires depth > 0 && r == Redact(lower, Obj(fields), depth).fields
    requires forall k :: k in fields ==>
      (RedactMember(lower, k, fields[k], depth - 1) == fields[k] <==> NormalMember(lower, k, fields[k], depth - 1))
    ensures r == fields <==> Normal(lower, Obj(fields), depth)
  {
    assert forall k :: k in r ==> r[k] == RedactMember(lower, k, fields[k], depth - 1);
    if r == fields {
      forall k | k in fields
        ensures !SensitiveKey(lower, k) && NormalMember(lower, k, fields[k], depth - 1)
      {
        assert k in r && r[k] == fields[k];
      }
    }
    if Normal(lower, Obj(fields), depth) {
      assert r == fields;
    }
  }

  // ---------- redacting twice ----------

  // The inputs on which a second pass changes nothing: no kept string has a slash
  // at the cut, and no path is replaced right above the depth limit, where the
  // second pass overwrites the replacement.
  ghost predicate Settled(lower: string -> string, v: Value, depth: nat)
    decreases depth, 0
  {
    depth == 0 ||
    match v
    case Str(s) => !SlashAtCut(s)
    case Arr(items) =>
      forall i :: 0 <= i < Min(|items|, MAX_ARRAY_LEN) ==> Settled(lower, items[i], depth - 1)
    case Obj(fields) =>
      forall k :: k in fields && !SensitiveKey(lower, k) ==> SettledMember(lower, k, fields[k], depth - 1)
    case _ => true
  }

  ghost predicate SettledMember(lower: string -> string, key: string, v: Value, depth: nat)
    decreases depth, 1
  {
    match FateOf(lower, key, v)
    case Replace(w) => w != Str(PATH_REDACTED) || depth > 0
    case Recurse => Settled(lower, v, depth)
  }

  lemma {:induction false} RedactIsNormal(lower: string -> string, v: Value, depth: nat)
    ensures Normal(lower, Redact(lower, v, depth), depth) <==> Settled(lower, v, depth)
    decreases depth, 1
  {
    if depth > 0 {
      match v
      case Str(s) => RedactStringPlain(s);
      case Arr(items) => SettledArray(lower, items, depth);
      case Obj(fields) => SettledObject(lower, fields, depth);
      case _ =>
    }
  }

  lemma RedactedItems(lower: string -> string, items: seq<Value>, depth: nat)
    requires depth > 0
    ensures var out := Redact(lower, Arr(items), depth);
      && out.Arr? && |out.items| == Min(|items|, MAX_ARRAY_LEN)
      && forall i :: 0 <= i < |out.items| ==> out.items[i] == Redact(lower, items[i], depth - 1)
  {
  }

  lemma {:induction false} SettledArray(lower: string -> string, items: seq<Value>, depth: nat)
    requires depth > 0
    ensures Normal(lower, Redact(lower, Arr(items), depth), depth) <==> Settled(lower, Arr(items), depth)
    decreases depth, 0
  {
    hide Redact, Normal, Settled;
    forall i | 0 <= i < Min(|items|, MAX_ARRAY_LEN)
      ensures Normal(lower, Redact(lower, items[i], depth - 1), depth - 1) == Settled(lower, items[i], depth - 1)
    {
      RedactIsNormal(lower, items[i], depth - 1);
    }
    SettledItems(lower, items, depth);
  }

  lemma SettledItems(lower: string -> string, items: seq<Value>, depth: nat)
    requires depth > 0
    requires forall i :: 0 <= i < Min(|items|, MAX_ARRAY_LEN) ==>
      Normal(lower, Redact(lower, items[i], depth - 1), depth - 1) == Settled(lower, items[i], depth - 1)
    ensures Normal(lower, Redact(lower, Arr(items), depth), depth) <==> Settled(lower, Arr(items), depth)
  {
    RedactedItems(lower, items, depth);
    var r := Redact(lower, Arr(items), depth).items;
    assert forall i :: 0 <= i < |r| ==> Normal(lower, r[i], depth - 1) == Settled(lower, items[i], depth - 1);
  }

  lemma {:induction false} SettledObject(lower: string -> string, fields: map<string, Value>, depth: nat)
    requires depth > 0
    ensures Normal(lower, Redact(lower, Obj(fields), depth), depth) <==> Settled(lower, Obj(fields), depth)
    decreases depth, 0
  {
    forall k | k in fields
      ensures NormalMember(lower, k, RedactMember(lower, k, fields[k], depth - 1), depth - 1)
           == SettledMember(lower, k, fields[k], depth - 1)
    {
      RedactedMember(lower, k, fields[k], depth - 1);
    }
    SettledFields(lower, fields, depth);
  }

  lemma {:induction false} RedactedMember(lower: string -> string, key: string, v: Value, depth: nat)
    ensures NormalMember(lower, key, RedactMember(lower, key, v, depth), depth) == SettledMember(lower, key, v, depth)
    decreases depth, 2
  {
    RedactIsNormal(lower, v, depth);
    MemberIsNormal(lower, key, v, depth);
  }

  lemma SettledFields(lower: string -> string, fields: map<string, Value>, depth: nat)
    requires depth > 0
    requires forall k :: k in fields ==>
      NormalMember(lower, k, RedactMember(lower, k, fields[k], depth - 1), depth - 1)
        == SettledMember(lower, k, fields[k], depth - 1)
    ensures Normal(lower, Redact(lower, Obj(fields), depth), depth) <==> Settled(lower, Obj(fields), depth)
  {
    var r := Redact(lower, Obj(fields), depth).fields;
    assert forall k :: k in r <==> k in fields && !SensitiveKey(lower, k);
    assert forall k :: k in r ==> r[k] == RedactMember(lower, k, fields[k], depth - 1);
    assert Normal(lower, Obj(r), depth) <==>
      forall k :: k in r ==> !SensitiveKey(lower, k) && NormalMember(lower, k, r[k], depth - 1);
  }

  // A replaced member keeps its fate, except a replaced path, which is then an
  // ordinary string.
  lemma MemberIsNormal(lower: string -> string, key: string, v: Value, depth: nat)
    requires Normal(lower, Redact(lower, v, depth), depth) <==> Settled(lower, v, depth)
    ensures NormalMember(lower, key, RedactMember(lower, key, v, depth), depth)
       <==> SettledMember(lower, key, v, depth)
  {
    hide LooksLikePath, Contains, SensitiveKey;
    PathRedactedIsNoPath();
    var r := RedactMember(lower, key, v, depth);
    if FateOf(lower, key, v).Recurse? {
      assert r.Obj? ==> v.Obj?;
      if r.Str? && LooksLikePath(r.s) {
        assert !PlainString(r.s);
        DepthLimitIsNoPath();
      }
    }
  }

  lemma DepthLimitIsNoPath()
    ensures !LooksLikePath(DEPTH_LIMIT)
  {
    LeadingBlanksUnique(DEPTH_LIMIT, 0);
    LooksLikePathByPosition(DEPTH_LIMIT);
  }

  // Redacting twice is redacting once on exactly the settled inputs.
  lemma RedactTwice(lower: string -> string, v: Value, depth: nat)
    ensures Redact(lower, Redact(lower, v, depth), depth) == Redact(lower, v, depth)
       <==> Settled(lower, v, depth)
  {
    FixedPoints(lower, Redact(lower, v, depth), depth);
    RedactIsNormal(lower, v, depth);
  }

  // Three inputs on which a second pass does change the document: a slash and
  // blanks, "//" at the cut, and a path right above the depth limit.
  lemma SlashThenBlanksChanges(lower: string -> string, depth: nat)
    requires depth > 0
    ensures var doc := Str(['/'] + seq(MAX_STRING_CHARS, _ => ' '));
      Redact(lower, Redact(lower, doc, depth), depth) != Redact(lower, doc, depth)
  {
    var s := ['/'] + seq(MAX_STRING_CHARS, _ => ' ');
    LeadingBlanksUnique(s, 0);
    assert SlashAtCut(s);
    RedactTwice(lower, Str(s), depth);
  }

  lemma SlashesAtCutChange(lower: string -> string, depth: nat)
    requires depth > 0
    ensures var doc := Str(seq(MAX_STRING_CHARS - 1, _ => ' ') + "//");
      Redact(lower, Redact(lower, doc, depth), depth) != Redact(lower, doc, depth)
  {
    var s := seq(MAX_STRING_CHARS - 1, _ => ' ') + "//";
    LeadingBlanksUnique(s, MAX_STRING_CHARS - 1);
    assert SlashAtCut(s);
    RedactTwice(lower, Str(s), depth);
  }

  // The value inside n arrays.
  function Nest(n: nat, v: Value): Value {
    if n == 0 then v else Arr([Nest(n - 1, v)])
  }

  lemma {:induction false} NestedSettled(lower: string -> string, n: nat, v: Value, depth: nat)
    ensures Settled(lower, Nest(n, v), n + depth) == Settled(lower, v, depth)
  {
    if n > 0 {
      var items := [Nest(n - 1, v)];
      NestedSettled(lower, n - 1, v, depth);
      assert items[0] == Nest(n - 1, v);
      assert Settled(lower, Arr(items), n + depth) == Settled(lower, items[0], n + depth - 1);
    }
  }

  lemma PathNotSettled(lower: string -> string)
    requires lower("path") == "path"
    ensures !Settled(lower, Obj(map["path" := Str("/x")]), 1)
  {
    var fields := map["path" := Str("/x")];
    LeadingBlanksUnique("/x", 0);
    LooksLikePathByPosition("/x");
    assert "path" <= "path"[0..];
    assert !EndsWith("path", "_secret");
    assert "path" in fields && !SettledMember(lower, "path", fields["path"], 0);
  }

  // For every depth limit: the service calls with 14, which is n == 13.
  lemma PathAboveDepthLimitChanges(lower: string -> string, n: nat)
    requires lower("path") == "path"
    ensures var doc := Nest(n, Obj(map["path" := Str("/x")]));
      Redact(lower, Redact(lower, doc, n + 1), n + 1) != Redact(lower, doc, n + 1)
  {
    var v := Obj(map["path" := Str("/x")]);
    PathNotSettled(lower);
    NestedSettled(lower, n, v, 1);
    RedactTwice(lower, Nest(n, v), n + 1);
  }
}
