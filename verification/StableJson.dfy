/**
 * `stableStringify`: the text of the canonical value, why that text identifies the value, and why it cannot be cut at
 * a `|` in another place.
 */
module StableJson {
  import opened Basics
  import opened CanonicalJson
  import Text

  const HEX := "0123456789abcdef"

  function EscapeChar(c: char): string
  {
    if c == '\"' then ['\\', '\"']
    else if c == '\\' then ['\\', '\\']
    else if c as int == 8 then ['\\', 'b']
    else if c as int == 12 then ['\\', 'f']
    else if c == '\n' then ['\\', 'n']
    else if c == '\r' then ['\\', 'r']
    else if c == '\t' then ['\\', 't']
    else if c as int < 32 then ['\\', 'u', '0', '0', HEX[c as int / 16], HEX[c as int % 16]]
    else [c]
  }

  function Escape(s: string): string
  {
    if s == "" then "" else EscapeChar(s[0]) + Escape(s[1..])
  }

  function Quote(s: string): string
  {
    ['\"'] + Escape(s) + ['\"']
  }

  function Print(v: Json): string
    decreases v, 1
  {
    match v
    case Null => "null"
    case Bool(b) => if b then "true" else "false"
    case Num(t) => t
    case Str(s) => Quote(s)
    case Arr(items) => if items == [] then "[]" else "[" + Print(items[0]) + PrintItems(items[1..])
    case Obj(ms) => if ms == [] then "{}" else "{" + PrintMember(ms[0]) + PrintMembers(ms[1..])
  }

  /** The remaining items, each after its comma, and the closing bracket. */
  function PrintItems(items: seq<Json>): string
    decreases items, 0
  {
    if items == [] then "]" else "," + Print(items[0]) + PrintItems(items[1..])
  }

  function PrintMember(m: Member): string
    decreases m, 2
  {
    Quote(m.key) + ":" + Print(m.value)
  }

  function PrintMembers(ms: seq<Member>): string
    decreases ms, 0
  {
    if ms == [] then "}" else "," + PrintMember(ms[0]) + PrintMembers(ms[1..])
  }

  function StableStringify(v: Json): string
  {
    Print(Canonical(v))
  }

  // ----- A reader of JSON texts without insignificant white space (RFC 8259) -----

  function HexValue(c: char): Option<nat>
  {
    if '0' <= c <= '9' then Some(c as int - '0' as int)
    else if 'a' <= c <= 'f' then Some(c as int - 'a' as int + 10)
    else if 'A' <= c <= 'F' then Some(c as int - 'A' as int + 10)
    else None
  }

  /** The character that a backslash and this letter stand for (section 7). */
  function Escaped2(c: char): Option<char>
  {
    match c
    case '\"' => Some('\"')
    case '\\' => Some('\\')
    case '/' => Some('/')
    case 'b' => Some(8 as char)
    case 'f' => Some(12 as char)
    case 'n' => Some(10 as char)
    case 'r' => Some(13 as char)
    case 't' => Some(9 as char)
    case _ => None
  }

  /** The code behind `\u`; surrogates are not characters of their own. */
  function CodePoint(a: char, b: char, c: char, d: char): Option<char>
  {
    var p, q, r, t := HexValue(a), HexValue(b), HexValue(c), HexValue(d);
    if p.None? || q.None? || r.None? || t.None? then None
    else
      var code := p.value * 4096 + q.value * 256 + r.value * 16 + t.value;
      if 0 <= code < 0xD800 || 0xE000 <= code < 0x10000 then Some(code as char) else None
  }

  function Prepend(c: char, r: Read<string>): Read<string>
  {
    if r.Got? then Got([c] + r.value, r.rest) else Malformed
  }

  /** The rest of a string, after its opening quote. */
  function ReadString(s: string): (r: Read<string>)
    ensures r.Got? ==> |r.rest| < |s|
    decreases |s|
  {
    if s == "" then Malformed
    else if s[0] == '\"' then Got("", s[1..])
    else if s[0] == '\\' then
      if |s| >= 6 && s[1] == 'u' then
        var c := CodePoint(s[2], s[3], s[4], s[5]);
        if c.Some? then Prepend(c.value, ReadString(s[6..])) else Malformed
      else if |s| >= 2 && Escaped2(s[1]).Some? then Prepend(Escaped2(s[1]).value, ReadString(s[2..]))
      else Malformed
    else if s[0] as int < 32 then Malformed
    else Prepend(s[0], ReadString(s[1..]))
  }

  /** The characters in front that a number can hold. */
  function NumberFront(s: string): (n: nat)
    ensures n <= |s|
  {
    if s != "" && s[0] in NUMBER_CHARS then 1 + NumberFront(s[1..]) else 0
  }

  function ReadJson(s: string): (r: Read<Json>)
    ensures r.Got? ==> |r.rest| < |s|
    decreases |s|, 2
  {
    if s == "" then Malformed
    else if s[0] == '\"' then
      var r := ReadString(s[1..]);
      if r.Got? then Got(Str(r.value), r.rest) else Malformed
    else if s[0] == '[' then
      if |s| >= 2 && s[1] == ']' then Got(Arr([]), s[2..])
      else
        var r := ReadItem(s[1..]);
        if r.Got? then Got(Arr(r.value), r.rest) else Malformed
    else if s[0] == '{' then
      if |s| >= 2 && s[1] == '}' then Got(Obj([]), s[2..])
      else
        var r := ReadField(s[1..]);
        if r.Got? then Got(Obj(r.value), r.rest) else Malformed
    else if "null" <= s then Got(Null, s[4..])
    else if "true" <= s then Got(Bool(true), s[4..])
    else if "false" <= s then Got(Bool(false), s[5..])
    else
      var n := NumberFront(s);
      if n > 0 && (s[0] == '-' || s[0] in Text.DIGITS) then Got(Num(s[..n]), s[n..]) else Malformed
  }

  /** An item and what follows it, up to the closing bracket. */
  function ReadItem(s: string): (r: Read<seq<Json>>)
    ensures r.Got? ==> |r.rest| < |s|
    decreases |s|, 3
  {
    var first := ReadJson(s);
    if first.Malformed? then Malformed
    else
      var more := ReadItems(first.rest);
      if more.Got? then Got([first.value] + more.value, more.rest) else Malformed
  }

  function ReadItems(s: string): (r: Read<seq<Json>>)
    ensures r.Got? ==> |r.rest| < |s|
    decreases |s|, 0
  {
    if s == "" then Malformed
    else if s[0] == ']' then Got([], s[1..])
    else if s[0] == ',' then ReadItem(s[1..])
    else Malformed
  }

  function ReadMember(s: string): (r: Read<Member>)
    ensures r.Got? ==> |r.rest| < |s|
    decreases |s|, 0
  {
    if s == "" || s[0] != '\"' then Malformed
    else
      var key := ReadString(s[1..]);
      if key.Malformed? || key.rest == "" || key.rest[0] != ':' then Malformed
      else
        var value := ReadJson(key.rest[1..]);
        if value.Got? then Got(Member(key.value, value.value), value.rest) else Malformed
  }

  /** A member and what follows it, up to the closing brace. */
  function ReadField(s: string): (r: Read<seq<Member>>)
    ensures r.Got? ==> |r.rest| < |s|
    decreases |s|, 1
  {
    var first := ReadMember(s);
    if first.Malformed? then Malformed
    else
      var more := ReadMembers(first.rest);
      if more.Got? then Got([first.value] + more.value, more.rest) else Malformed
  }

  function ReadMembers(s: string): (r: Read<seq<Member>>)
    ensures r.Got? ==> |r.rest| < |s|
    decreases |s|, 0
  {
    if s == "" then Malformed
    else if s[0] == '}' then Got([], s[1..])
    else if s[0] == ',' then ReadField(s[1..])
    else Malformed
  }

  // ----- Printed values are read back -----

  /** A text that cannot extend a number in front of it. */
  ghost predicate Delimited(rest: string)
  {
    rest == "" || rest[0] !in NUMBER_CHARS
  }

  lemma Associate(a: string, b: string, c: string)
    ensures (a + b) + c == a + (b + c)
  {
  }

  lemma Cancel(c: char, d: char, x: string, y: string)
    requires [c] + x == [d] + y
    ensures c == d && x == y
  {
    assert ([c] + x)[0] == ([d] + y)[0];
    assert x == ([c] + x)[1..] == ([d] + y)[1..] == y;
  }

  lemma CancelEqual(a: string, x: string, y: string)
    requires a + x == a + y
    ensures x == y
  {
    assert x == (a + x)[|a|..] == (a + y)[|a|..] == y;
  }

  lemma HexIsRead(n: nat)
    requires n < 16
    ensures HexValue(HEX[n]) == Some(n)
  {
  }

  /** An escaped character is read back, whatever follows. */
  lemma EscapeCharIsRead(c: char, x: string)
    ensures ReadString(EscapeChar(c) + x) == Prepend(c, ReadString(x))
  {
    var e, u := EscapeChar(c), EscapeChar(c) + x;
    assert u[|e|..] == x && forall i :: 0 <= i < |e| ==> u[i] == e[i];
    if |e| == 6 {
      LongEscapeIsRead(c);
    } else if |e| == 2 {
      ShortEscapeIsRead(c);
    }
    hide EscapeChar, CodePoint, Escaped2;
  }

  lemma LongEscapeIsRead(c: char)
    requires |EscapeChar(c)| == 6
    ensures var e := EscapeChar(c); e[0] == '\\' && e[1] == 'u' && CodePoint(e[2], e[3], e[4], e[5]) == Some(c)
  {
    HexIsRead(c as int / 16);
    HexIsRead(c as int % 16);
    assert HexValue('0') == Some(0);
  }

  lemma ShortEscapeIsRead(c: char)
    requires |EscapeChar(c)| == 2
    ensures var e := EscapeChar(c); e[0] == '\\' && e[1] != 'u' && Escaped2(e[1]) == Some(c)
  {
  }

  /** How the escapes are written: as short as can be, and a control character without a letter in lower-case hex. */
  lemma EscapesAreShort(c: char)
    ensures |EscapeChar(c)| == if c as int >= 32 && c != '\"' && c != '\\' then 1
                               else if c in "\"\\" || c as int in {8, 9, 10, 12, 13} then 2 else 6
    ensures |EscapeChar(c)| == 6 ==> forall i :: 2 <= i < 6 ==> EscapeChar(c)[i] in Text.DIGITS + "abcdef"
  {
  }

  lemma {:induction false} EscapeIsRead(s: string, rest: string)
    ensures ReadString(Escape(s) + (['\"'] + rest)) == Got(s, rest)
  {
    if s == "" {
      assert Escape(s) + (['\"'] + rest) == ['\"'] + rest;
    } else {
      Associate(EscapeChar(s[0]), Escape(s[1..]), ['\"'] + rest);
      EscapeIsRead(s[1..], rest);
      EscapeCharIsRead(s[0], Escape(s[1..]) + (['\"'] + rest));
      assert s == [s[0]] + s[1..];
    }
  }

  lemma QuoteText(s: string, rest: string)
    ensures Quote(s) + rest == ['\"'] + (Escape(s) + (['\"'] + rest))
  {
  }

  lemma QuoteIsRead(s: string, rest: string)
    ensures var u := Quote(s) + rest;
            u[0] == '\"' && ReadString(u[1..]) == Got(s, rest)
  {
    QuoteText(s, rest);
    EscapeIsRead(s, rest);
    assert (['\"'] + (Escape(s) + (['\"'] + rest)))[1..] == Escape(s) + (['\"'] + rest);
  }

  lemma {:induction false} NumberEnds(t: string, rest: string)
    requires (forall i :: 0 <= i < |t| ==> t[i] in NUMBER_CHARS) && Delimited(rest)
    ensures NumberFront(t + rest) == |t|
  {
    if t == "" {
      assert t + rest == rest;
    } else {
      assert (t + rest)[1..] == t[1..] + rest;
      NumberEnds(t[1..], rest);
    }
  }

  lemma NumberIsRead(t: string, rest: string)
    requires NumberText(t) && Delimited(rest)
    ensures ReadJson(t + rest) == Got(Num(t), rest)
  {
    hide NumberFront;
    forall i | 0 <= i < |t| ensures t[i] in NUMBER_CHARS { assert t[i] in t; }
    NumberEnds(t, rest);
    var u := t + rest;
    assert u[0] == t[0] && u[..|t|] == t && u[|t|..] == rest;
    NumberStart(t[0]);
    assert "null"[0] == 'n' && "true"[0] == 't' && "false"[0] == 'f';
  }

  lemma NumberStart(c: char)
    requires c == '-' || c in Text.DIGITS
    ensures c != '\"' && c != '[' && c != '{' && c != 'n' && c != 't' && c != 'f'
  {
  }

  /** A printed value is read back as it is, with what follows it, when that cannot extend a number. */
  lemma {:induction false} PrintIsRead(v: Json, rest: string)
    requires WellFormed(v) && Delimited(rest)
    ensures ReadJson(Print(v) + rest) == Got(v, rest)
    ensures Print(v) != "" && Print(v)[0] !in "]},"
    decreases v, 1
  {
    PrintOpens(v);
    match v
    case Null =>
      assert ("null" + rest)[4..] == rest;
    case Bool(b) =>
      assert ("true" + rest)[4..] == rest && ("false" + rest)[5..] == rest;
    case Num(t) =>
      NumberIsRead(t, rest);
    case Str(s) =>
      QuoteIsRead(s, rest);
    case Arr(items) =>
      ArrayIsRead(items, rest);
    case Obj(ms) =>
      ObjectIsRead(ms, rest);
  }

  lemma PrintOpens(v: Json)
    requires WellFormed(v)
    ensures Print(v) != "" && Print(v)[0] !in "]},"
  {
  }

  lemma ArrayText(items: seq<Json>, rest: string)
    requires items != []
    ensures Print(Arr(items)) + rest == ['['] + (Print(items[0]) + (PrintItems(items[1..]) + rest))
    ensures PrintItems(items) + rest == [','] + (Print(items[0]) + (PrintItems(items[1..]) + rest))
  {
    var p, q := Print(items[0]), PrintItems(items[1..]);
    Associate(['['] + p, q, rest);
    Associate(['['], p, q + rest);
    Associate([','] + p, q, rest);
    Associate([','], p, q + rest);
  }

  lemma ObjectText(ms: seq<Member>, rest: string)
    requires ms != []
    ensures Print(Obj(ms)) + rest == ['{'] + (PrintMember(ms[0]) + (PrintMembers(ms[1..]) + rest))
    ensures PrintMembers(ms) + rest == [','] + (PrintMember(ms[0]) + (PrintMembers(ms[1..]) + rest))
  {
    hide PrintMember;
    var p, q := PrintMember(ms[0]), PrintMembers(ms[1..]);
    Associate(['{'] + p, q, rest);
    Associate(['{'], p, q + rest);
    Associate([','] + p, q, rest);
    Associate([','], p, q + rest);
  }

  lemma EndText(rest: string)
    ensures PrintItems([]) + rest == [']'] + rest && PrintMembers([]) + rest == ['}'] + rest
  {
  }

  lemma BracketStep(t: string)
    requires t != "" && t[0] != ']'
    ensures ReadJson(['['] + t) == var r := ReadItem(t); if r.Got? then Got(Arr(r.value), r.rest) else Malformed
  {
    assert (['['] + t)[1..] == t;
  }

  lemma CommaStep(t: string)
    ensures ReadItems([','] + t) == ReadItem(t) && ReadMembers([','] + t) == ReadField(t)
    ensures ReadItems([']'] + t) == Got([], t) && ReadMembers(['}'] + t) == Got([], t)
  {
    hide ReadItem, ReadField;
    assert ([','] + t)[1..] == t && ([']'] + t)[1..] == t && (['}'] + t)[1..] == t;
  }

  lemma BraceStep(t: string)
    requires t != "" && t[0] != '}'
    ensures ReadJson(['{'] + t) == var r := ReadField(t); if r.Got? then Got(Obj(r.value), r.rest) else Malformed
  {
    assert (['{'] + t)[1..] == t;
  }

  lemma ClosersDelimit(items: seq<Json>, ms: seq<Member>, rest: string)
    ensures Delimited(PrintItems(items) + rest) && Delimited(PrintMembers(ms) + rest)
  {
    hide Print, PrintMember;
  }

  lemma ItemStep(t: string, v: Json, more: string, tail: seq<Json>, rest: string)
    requires ReadJson(t) == Got(v, more) && ReadItems(more) == Got(tail, rest)
    ensures ReadItem(t) == Got([v] + tail, rest)
  {
  }

  lemma FieldStep(t: string, m: Member, more: string, tail: seq<Member>, rest: string)
    requires ReadMember(t) == Got(m, more) && ReadMembers(more) == Got(tail, rest)
    ensures ReadField(t) == Got([m] + tail, rest)
  {
  }

  lemma {:induction false} ArrayIsRead(items: seq<Json>, rest: string)
    requires forall i :: 0 <= i < |items| ==> WellFormed(items[i])
    ensures ReadJson(Print(Arr(items)) + rest) == Got(Arr(items), rest)
    decreases items, 1
  {
    if items == [] {
      assert ("[]" + rest)[2..] == rest;
    } else {
      hide ReadJson, ReadItem, ReadItems, WellFormed, Delimited, Print, PrintItems;
      var first, more := Print(items[0]), PrintItems(items[1..]) + rest;
      ItemsAreRead(items[1..], rest);
      PrintIsRead(items[0], more);
      ArrayText(items, rest);
      ItemStep(first + more, items[0], more, items[1..], rest);
      assert (first + more)[0] == first[0];
      BracketStep(first + more);
      assert items == [items[0]] + items[1..];
    }
  }

  lemma {:induction false} ItemsAreRead(items: seq<Json>, rest: string)
    requires forall i :: 0 <= i < |items| ==> WellFormed(items[i])
    ensures ReadItems(PrintItems(items) + rest) == Got(items, rest)
    ensures Delimited(PrintItems(items) + rest)
    decreases items, 0
  {
    hide ReadJson, ReadItem, ReadItems, WellFormed, Delimited, Print, PrintItems;
    ClosersDelimit(items, [], rest);
    CommaStep(rest);
    EndText(rest);
    if items != [] {
      var first, more := Print(items[0]), PrintItems(items[1..]) + rest;
      ItemsAreRead(items[1..], rest);
      PrintIsRead(items[0], more);
      ArrayText(items, rest);
      ItemStep(first + more, items[0], more, items[1..], rest);
      CommaStep(first + more);
      assert items == [items[0]] + items[1..];
    }
  }

  lemma {:induction false} ObjectIsRead(ms: seq<Member>, rest: string)
    requires forall i :: 0 <= i < |ms| ==> WellFormed(ms[i].value)
    ensures ReadJson(Print(Obj(ms)) + rest) == Got(Obj(ms), rest)
    decreases ms, 1
  {
    if ms == [] {
      assert ("{}" + rest)[2..] == rest;
    } else {
      hide ReadJson, ReadMember, ReadMembers, ReadField, WellFormed, Delimited, Print, PrintMember, PrintMembers;
      var first, more := PrintMember(ms[0]), PrintMembers(ms[1..]) + rest;
      MembersAreRead(ms[1..], rest);
      MemberIsRead(ms[0], more);
      ObjectText(ms, rest);
      FieldStep(first + more, ms[0], more, ms[1..], rest);
      assert (first + more)[0] == first[0];
      BraceStep(first + more);
      assert ms == [ms[0]] + ms[1..];
    }
  }

  lemma {:induction false} MembersAreRead(ms: seq<Member>, rest: string)
    requires forall i :: 0 <= i < |ms| ==> WellFormed(ms[i].value)
    ensures ReadMembers(PrintMembers(ms) + rest) == Got(ms, rest)
    ensures Delimited(PrintMembers(ms) + rest)
    decreases ms, 0
  {
    hide ReadMember, ReadMembers, ReadField, WellFormed, Delimited, PrintMember, PrintMembers;
    ClosersDelimit([], ms, rest);
    CommaStep(rest);
    EndText(rest);
    if ms != [] {
      var first, more := PrintMember(ms[0]), PrintMembers(ms[1..]) + rest;
      MembersAreRead(ms[1..], rest);
      MemberIsRead(ms[0], more);
      ObjectText(ms, rest);
      FieldStep(first + more, ms[0], more, ms[1..], rest);
      CommaStep(first + more);
      assert ms == [ms[0]] + ms[1..];
    }
  }

  lemma {:induction false} MemberIsRead(m: Member, rest: string)
    requires WellFormed(m.value) && Delimited(rest)
    ensures ReadMember(PrintMember(m) + rest) == Got(m, rest)
    ensures PrintMember(m) != "" && PrintMember(m)[0] == '\"'
    decreases m, 2
  {
    hide ReadJson, ReadString, Print, WellFormed, Escape, Delimited;
    var value := Print(m.value) + rest;
    PrintIsRead(m.value, rest);
    QuoteIsRead(m.key, [':'] + value);
    assert PrintMember(m) + rest == Quote(m.key) + ([':'] + value);
    assert ([':'] + value)[1..] == value;
  }

  /** So a printed value can be read off the front of a longer text in one way only. */
  lemma PrintUnique(v: Json, w: Json, x: string, y: string)
    requires WellFormed(v) && WellFormed(w) && Delimited(x) && Delimited(y)
    requires Print(v) + x == Print(w) + y
    ensures v == w && x == y
  {
    PrintIsRead(v, x);
    PrintIsRead(w, y);
  }

  // ----- The encoding theorems -----

  /** Equal text exactly for values that are equal up to the order of object keys. */
  lemma StableTextIsMeaning(v: Json, w: Json)
    requires WellFormed(v) && WellFormed(w)
    ensures StableStringify(v) == StableStringify(w) <==> Meaning(v) == Meaning(w)
  {
    CanonicalKeepsMeaning(v);
    CanonicalKeepsMeaning(w);
    if StableStringify(v) == StableStringify(w) {
      assert StableStringify(v) + "" == StableStringify(w) + "";
      PrintUnique(Canonical(v), Canonical(w), "", "");
    }
    if Meaning(v) == Meaning(w) {
      MeaningFixesCanonical(v, w);
    }
  }

  /** Followed by `|`, a stable text can be read off the front of a payload in one way only. */
  lemma StableTextSelfDelimits(v: Json, w: Json, x: string, y: string)
    requires WellFormed(v) && WellFormed(w)
    requires StableStringify(v) + (['|'] + x) == StableStringify(w) + (['|'] + y)
    ensures Meaning(v) == Meaning(w) && x == y
  {
    CanonicalKeepsMeaning(v);
    CanonicalKeepsMeaning(w);
    PrintUnique(Canonical(v), Canonical(w), ['|'] + x, ['|'] + y);
    assert x == (['|'] + x)[1..] == (['|'] + y)[1..] == y;
  }

  // ----- Reading the text one character at a time, inside and outside its strings -----

  /** `Broken` is where no printed text leads: a backslash outside a string, or one in front of a `|`. */
  datatype Place = Outside | Inside | Escaped | Broken

  function Next(p: Place, c: char): Place
  {
    match p
    case Outside => if c == '\"' then Inside else if c == '\\' then Broken else Outside
    case Inside => if c == '\"' then Outside else if c == '\\' then Escaped else Inside
    case Escaped => if c == '|' then Broken else Inside
    case Broken => Broken
  }

  function Scan(p: Place, s: string): Place
    decreases |s|
  {
    if s == "" then p else Scan(Next(p, s[0]), s[1..])
  }

  /** How many `|` a scan meets outside strings. */
  function Cuts(p: Place, s: string): nat
    decreases |s|
  {
    if s == "" then 0 else (if p == Outside && s[0] == '|' then 1 else 0) + Cuts(Next(p, s[0]), s[1..])
  }

  lemma {:induction false} ScanConcat(p: Place, s: string, t: string)
    ensures Scan(p, s + t) == Scan(Scan(p, s), t)
    ensures Cuts(p, s + t) == Cuts(p, s) + Cuts(Scan(p, s), t)
    decreases |s|
  {
    if s == "" {
      assert s + t == t;
    } else {
      assert (s + t)[1..] == s[1..] + t;
      ScanConcat(Next(p, s[0]), s[1..], t);
    }
  }

  lemma {:induction false} BrokenStays(s: string)
    ensures Scan(Broken, s) == Broken
  {
    if s != "" { BrokenStays(s[1..]); }
  }

  /** Read from inside a string and from outside one, the same text cannot end outside both times. */
  lemma {:induction false} OppositeScans(s: string)
    ensures !(Scan(Outside, s) == Outside && Scan(Inside, s) == Outside)
  {
    if s != "" {
      if s[0] == '\\' {
        BrokenStays(s[1..]);
      } else {
        OppositeScans(s[1..]);
      }
    }
  }

  /** A text that leads from outside to outside and holds `n` cuts. */
  ghost predicate Whole(s: string, n: nat)
  {
    Scan(Outside, s) == Outside && Cuts(Outside, s) == n
  }

  lemma WholeConcat(s: string, m: nat, t: string, n: nat)
    requires Whole(s, m) && Whole(t, n)
    ensures Whole(s + t, m + n)
  {
    ScanConcat(Outside, s, t);
  }

  // ----- Printed values hold no cut -----

  lemma {:induction false} PlainChars(s: string)
    requires forall i :: 0 <= i < |s| ==> s[i] !in "\"\\|"
    ensures Whole(s, 0)
  {
    if s != "" { PlainChars(s[1..]); }
  }

  lemma EscapedPair(c: char)
    requires c != '|'
    ensures Scan(Inside, ['\\', c]) == Inside && Cuts(Inside, ['\\', c]) == 0
  {
    assert ['\\', c][1..] == [c] && [c][1..] == "";
    assert Scan(Escaped, [c]) == Scan(Inside, "") == Inside;
    assert Cuts(Escaped, [c]) == Cuts(Inside, "") == 0;
  }

  lemma EscapeCharScans(c: char)
    ensures Scan(Inside, EscapeChar(c)) == Inside && Cuts(Inside, EscapeChar(c)) == 0
  {
    var e := EscapeChar(c);
    if |e| == 1 {
      assert e[1..] == "";
    } else if |e| == 2 {
      EscapedPair(e[1]);
    } else {
      var rest := ['0', '0', HEX[c as int / 16], HEX[c as int % 16]];
      EscapedPair('u');
      InsideStays(rest);
      ScanConcat(Inside, ['\\', 'u'], rest);
      assert e == ['\\', 'u'] + rest;
    }
  }

  lemma {:induction false} InsideStays(s: string)
    requires forall i :: 0 <= i < |s| ==> s[i] !in "\"\\"
    ensures Scan(Inside, s) == Inside && Cuts(Inside, s) == 0
  {
    if s != "" { InsideStays(s[1..]); }
  }

  lemma {:induction false} EscapeScans(s: string)
    ensures Scan(Inside, Escape(s)) == Inside && Cuts(Inside, Escape(s)) == 0
  {
    if s != "" {
      EscapeCharScans(s[0]);
      EscapeScans(s[1..]);
      ScanConcat(Inside, EscapeChar(s[0]), Escape(s[1..]));
    }
  }

  lemma QuoteIsWhole(s: string)
    ensures Whole(Quote(s), 0)
  {
    EscapeScans(s);
    var body := Escape(s) + ['\"'];
    ScanConcat(Inside, Escape(s), ['\"']);
    assert ['\"'][1..] == "";
    assert Scan(Inside, body) == Outside && Cuts(Inside, body) == 0;
    assert Quote(s) == ['\"'] + body;
    assert Quote(s)[1..] == body;
  }

  lemma NumberIsWhole(t: string)
    requires NumberText(t)
    ensures Whole(t, 0)
  {
    forall i | 0 <= i < |t| ensures t[i] !in "\"\\|" {
      assert t[i] in t;
      assert t[i] in NUMBER_CHARS;
    }
    PlainChars(t);
  }

  lemma {:induction false} PrintIsWhole(v: Json)
    requires WellFormed(v)
    ensures Whole(Print(v), 0)
    decreases v, 1
  {
    hide Whole;
    match v
    case Null => PlainChars("null");
    case Bool(b) => PlainChars(if b then "true" else "false");
    case Num(t) => NumberIsWhole(t);
    case Str(s) => QuoteIsWhole(s);
    case Arr(items) =>
      PlainChars("[]");
      PlainChars("[");
      if items != [] {
        PrintIsWhole(items[0]);
        ItemsAreWhole(items[1..]);
        WholeConcat("[", 0, Print(items[0]), 0);
        WholeConcat("[" + Print(items[0]), 0, PrintItems(items[1..]), 0);
      }
    case Obj(ms) =>
      PlainChars("{}");
      PlainChars("{");
      if ms != [] {
        MemberIsWhole(ms[0]);
        MembersAreWhole(ms[1..]);
        WholeConcat("{", 0, PrintMember(ms[0]), 0);
        WholeConcat("{" + PrintMember(ms[0]), 0, PrintMembers(ms[1..]), 0);
      }
  }

  lemma {:induction false} ItemsAreWhole(items: seq<Json>)
    requires forall i :: 0 <= i < |items| ==> WellFormed(items[i])
    ensures Whole(PrintItems(items), 0)
    decreases items, 0
  {
    PlainChars("]");
    PlainChars(",");
    if items != [] {
      PrintIsWhole(items[0]);
      ItemsAreWhole(items[1..]);
      WholeConcat(",", 0, Print(items[0]), 0);
      WholeConcat("," + Print(items[0]), 0, PrintItems(items[1..]), 0);
    }
  }

  lemma {:induction false} MemberIsWhole(m: Member)
    requires WellFormed(m.value)
    ensures Whole(PrintMember(m), 0)
    decreases m, 2
  {
    QuoteIsWhole(m.key);
    PlainChars(":");
    PrintIsWhole(m.value);
    WholeConcat(Quote(m.key), 0, ":", 0);
    WholeConcat(Quote(m.key) + ":", 0, Print(m.value), 0);
  }

  lemma {:induction false} MembersAreWhole(ms: seq<Member>)
    requires forall i :: 0 <= i < |ms| ==> WellFormed(ms[i].value)
    ensures Whole(PrintMembers(ms), 0)
    decreases ms, 0
  {
    PlainChars("}");
    PlainChars(",");
    if ms != [] {
      MemberIsWhole(ms[0]);
      MembersAreWhole(ms[1..]);
      WholeConcat(",", 0, PrintMember(ms[0]), 0);
      WholeConcat("," + PrintMember(ms[0]), 0, PrintMembers(ms[1..]), 0);
    }
  }

  lemma StableTextIsWhole(v: Json)
    requires WellFormed(v)
    ensures Whole(StableStringify(v), 0)
  {
    CanonicalKeepsMeaning(v);
    PrintIsWhole(Canonical(v));
  }

  // ----- Values joined by `|` -----

  lemma OneBar()
    ensures Whole(['|'], 1)
  {
    assert ['|'][1..] == "";
  }

  /** A run of values joined by `|` does not end, behind a `|`, in another such run of as many values. */
  lemma NoInnerRun(run: string, inner: string, front: string, n: nat)
    requires Whole(run, n) && Whole(inner, n)
    ensures run != front + (['|'] + inner)
  {
    var tail := ['|'] + inner;
    OneBar();
    WholeConcat(['|'], 1, inner, n);
    ScanConcat(Outside, front, tail);
    assert tail[0] == '|' && tail[1..] == inner;
    OppositeScans(tail);
    BrokenStays(inner);
    BrokenStays(tail);
  }
}
