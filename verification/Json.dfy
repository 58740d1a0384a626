// JSON trees, their canonical text, and a parser for that text.
// The text of a tree is what `marshalCanonicalJSON` prints: object keys in
// sorted order, no blanks, strings quoted as encoding/json quotes them.
module Json {
  import opened Wrappers
  import opened Text

  // ----- numbers -----

  predicate NumberChar(c: char) {
    '0' <= c <= '9' || c in "+-.eE"
  }

  predicate IsNumberToken(t: string) {
    t != "" && forall c :: c in t ==> NumberChar(c)
  }

  /** The text of a number: one token per value, so printing a number is injective. */
  type NumberToken = t: string | IsNumberToken(t) witness "0"

  /** What a decoded JSON document is in Go: nil, bool, number, string, []any, map[string]any. */
  datatype Json =
    | Null
    | Bool(b: bool)
    | Number(token: NumberToken)
    | String(text: string)
    | Array(items: seq<Json>)
    | Object(fields: map<string, Json>)

  // ----- strings: section 7 of RFC 8259 -----

  function HexDigit(d: nat): char
    requires d < 16
  {
    if d < 10 then '0' + d as char else 'a' + (d - 10) as char
  }

  function HexValue(c: char): (d: int)
    ensures -1 <= d < 16
  {
    if '0' <= c <= '9' then c as int - '0' as int
    else if 'a' <= c <= 'f' then c as int - 'a' as int + 10
    else if 'A' <= c <= 'F' then c as int - 'A' as int + 10
    else -1
  }

  predicate ShortEscape(c: char) {
    c in "\"\\\n\r\t" || c as int == 8 || c as int == 12
  }

  /** The letter after the backslash in a short escape. */
  function ShortLetter(c: char): char
    requires ShortEscape(c)
  {
    if c == '\n' then 'n' else if c == '\r' then 'r' else if c == '\t' then 't'
    else if c as int == 8 then 'b' else if c as int == 12 then 'f' else c
  }

  /** Control characters, the three HTML characters and the two JavaScript
      line separators are printed as \uXXXX. */
  predicate LongEscape(c: char) {
    !ShortEscape(c) && (c < ' ' || c in "<>&" || c as int == 0x2028 || c as int == 0x2029)
  }

  function EscapeChar(c: char): (s: string)
    ensures s != "" && s[0] != '\"'
  {
    if ShortEscape(c) then ['\\', ShortLetter(c)]
    else if LongEscape(c) then
      var n := c as int;
      ['\\', 'u', HexDigit(n / 4096), HexDigit(n / 256 % 16), HexDigit(n / 16 % 16), HexDigit(n % 16)]
    else [c]
  }

  function Escape(s: string): string {
    if s == "" then "" else EscapeChar(s[0]) + Escape(s[1..])
  }

  function Quote(s: string): string {
    "\"" + Escape(s) + "\""
  }

  /** How each character stands in a string: a quote and a backslash after a
      backslash; five control characters as a letter; the other control
      characters, the three HTML characters and the two line separators by four
      hex digits; every other character as it is. */
  lemma EscapeTable(c: char)
    ensures var n := c as int;
            var hex := "0123456789abcdef";
            EscapeChar(c)
            == if n == 0x22 then "\\\"" else if n == 0x5C then "\\\\"
               else if n == 8 then "\\b" else if n == 9 then "\\t" else if n == 10 then "\\n"
               else if n == 12 then "\\f" else if n == 13 then "\\r"
               else if n < 0x20 || n == 0x26 || n == 0x3C || n == 0x3E || n == 0x2028 || n == 0x2029
               then "\\u" + [hex[n / 4096], hex[n / 256 % 16], hex[n / 16 % 16], hex[n % 16]]
               else [c]
  {
    HexTable();
    assert '\"' as int == 0x22 && '\\' as int == 0x5C && '<' as int == 0x3C && '>' as int == 0x3E && '&' as int == 0x26;
    assert forall d :: d in "<>&" <==> d == '<' || d == '>' || d == '&';
    assert forall d :: d in "\"\\\n\r\t" <==> d == '\"' || d == '\\' || d == '\n' || d == '\r' || d == '\t';
  }

  lemma HexTable()
    ensures forall d: nat :: d < 16 ==> HexDigit(d) == "0123456789abcdef"[d]
  {
  }

  /** A quoted string is its characters one after another between quotes. */
  lemma {:induction false} EscapeParts(s: string, i: nat)
    requires i <= |s|
    ensures Escape("") == "" && Escape(s) == Escape(s[..i]) + Escape(s[i..])
    ensures i < |s| ==> Escape(s[i..]) == EscapeChar(s[i]) + Escape(s[i + 1..])
  {
    hide EscapeChar;
    if i == 0 {
      assert s[0..] == s;
    } else {
      EscapeParts(s[1..], i - 1);
      assert s[1..][..i - 1] == s[..i][1..] && s[1..][i - 1..] == s[i..];
    }
  }

  // ----- the canonical text -----

  /** Byte-wise order of the keys, which for UTF-8 is the order of the code points. */
  predicate KeyLeq(a: string, b: string) {
    a == "" || (b != "" && (a[0] < b[0] || (a[0] == b[0] && KeyLeq(a[1..], b[1..]))))
  }

  lemma {:induction false} KeyLeqTotal(a: string, b: string)
    ensures KeyLeq(a, b) || KeyLeq(b, a)
  {
    if a != "" && b != "" { KeyLeqTotal(a[1..], b[1..]); }
  }

  /** One key comes before another when it is a prefix of it or has the smaller
      character where they first differ. */
  lemma {:induction false} KeyLeqMeans(a: string, b: string)
    ensures KeyLeq(a, b) <==> exists i: nat :: FirstDifference(a, b, i) && (i == |a| || (i < |b| && a[i] < b[i]))
  {
    if a == "" {
      assert FirstDifference(a, b, 0);
    } else if b == "" || a[0] != b[0] {
      assert FirstDifference(a, b, 0);
      forall i: nat | FirstDifference(a, b, i)
        ensures i == 0
      {
        SameStart(a, b, i);
      }
    } else {
      KeyLeqMeans(a[1..], b[1..]);
      if i: nat :| FirstDifference(a[1..], b[1..], i) && (i == |a[1..]| || (i < |b[1..]| && a[1..][i] < b[1..][i])) {
        assert a[..i + 1] == [a[0]] + a[1..][..i] && b[..i + 1] == [b[0]] + b[1..][..i];
        assert FirstDifference(a, b, i + 1);
      }
      if i: nat :| FirstDifference(a, b, i) && (i == |a| || (i < |b| && a[i] < b[i])) {
        assert i > 0;
        assert a[1..][..i - 1] == a[..i][1..] && b[1..][..i - 1] == b[..i][1..];
        assert FirstDifference(a[1..], b[1..], i - 1);
      }
    }
  }

  lemma SameStart(a: string, b: string, i: nat)
    requires FirstDifference(a, b, i)
    ensures i > 0 ==> a[0] == b[0]
  {
    if i > 0 { assert a[..i][0] == b[..i][0]; }
  }

  ghost predicate FirstDifference(a: string, b: string, i: nat) {
    i <= |a| && i <= |b| && a[..i] == b[..i] && (i < |a| && i < |b| ==> a[i] != b[i])
  }

  lemma {:induction false} KeyLeqAntisymmetric(a: string, b: string)
    requires KeyLeq(a, b) && KeyLeq(b, a)
    ensures a == b
  {
    if a != "" && b != "" {
      KeyLeqAntisymmetric(a[1..], b[1..]);
      assert a == [a[0]] + a[1..] && b == [b[0]] + b[1..];
    }
  }

  lemma {:induction false} KeyLeqTransitive(a: string, b: string, c: string)
    requires KeyLeq(a, b) && KeyLeq(b, c)
    ensures KeyLeq(a, c)
  {
    if a != "" && a[0] == b[0] == c[0] { KeyLeqTransitive(a[1..], b[1..], c[1..]); }
  }

  ghost predicate IsLeastKey(k: string, keys: set<string>) {
    k in keys && forall j :: j in keys ==> KeyLeq(k, j)
  }

  lemma {:induction false} FindLeastKey(keys: set<string>) returns (k: string)
    requires keys != {}
    ensures IsLeastKey(k, keys)
  {
    var x :| x in keys;
    var rest := keys - {x};
    KeyLeqTotal(x, x);
    if rest == {} {
      k := x;
      assert keys == {x} by {
        forall j | j in keys ensures j == x { assert j == x || j in rest; }
      }
    } else {
      var y := FindLeastKey(rest);
      KeyLeqTotal(x, y);
      k := if KeyLeq(x, y) then x else y;
      forall j | j in keys
        ensures KeyLeq(k, j)
      {
        assert j == x || j in rest;
        if j in rest {
          assert KeyLeq(y, j);
          if k == x { KeyLeqTransitive(x, y, j); }
        }
      }
    }
  }

  lemma LeastKeyExists(keys: set<string>)
    requires keys != {}
    ensures exists k :: IsLeastKey(k, keys)
  {
    var k := FindLeastKey(keys);
  }

  ghost function LeastKey(keys: set<string>): (k: string)
    requires keys != {}
    ensures IsLeastKey(k, keys)
  {
    LeastKeyExists(keys);
    var k :| IsLeastKey(k, keys);
    k
  }

  /** The keys of a map, each once, in order. */
  ghost function SortedKeys(keys: set<string>): (ks: seq<string>)
    ensures forall k :: k in ks <==> k in keys
  {
    if keys == {} then [] else
      var k := LeastKey(keys);
      [k] + SortedKeys(keys - {k})
  }

  ghost function Canonical(v: Json): string
    decreases v
  {
    match v
    case Null => "null"
    case Bool(b) => if b then "true" else "false"
    case Number(t) => t
    case String(s) => Quote(s)
    case Array(items) => "[" + Join(ItemTexts(items), ",") + "]"
    case Object(fields) => "{" + Join(MemberTexts(SortedKeys(fields.Keys), v), ",") + "}"
  }

  ghost function ItemTexts(items: seq<Json>): (parts: seq<string>)
    ensures |parts| == |items|
    ensures forall i :: 0 <= i < |items| ==> parts[i] == Canonical(items[i])
    decreases items, 0
  {
    if items == [] then [] else [Canonical(items[0])] + ItemTexts(items[1..])
  }

  ghost function MemberText(key: string, v: Json): string
    requires v.Object? && key in v.fields
    decreases v, 0
  {
    Quote(key) + ":" + Canonical(v.fields[key])
  }

  ghost function MemberTexts(keys: seq<string>, v: Json): (parts: seq<string>)
    requires v.Object? && forall k :: k in keys ==> k in v.fields
    ensures |parts| == |keys|
    ensures forall i :: 0 <= i < |keys| ==> parts[i] == MemberText(keys[i], v)
    decreases v, 1 + |keys|
  {
    if keys == [] then [] else [MemberText(keys[0], v)] + MemberTexts(keys[1..], v)
  }

  /** The text of each kind of value. */
  lemma CanonicalForms(v: Json)
    ensures v == Null ==> Canonical(v) == "null"
    ensures v == Bool(true) ==> Canonical(v) == "true"
    ensures v == Bool(false) ==> Canonical(v) == "false"
    ensures v.Number? ==> Canonical(v) == v.token
    ensures v.String? ==> Canonical(v) == "\"" + Escape(v.text) + "\""
    ensures v.Array? ==> Canonical(v) == "[" + Join(ItemTexts(v.items), ",") + "]"
    ensures v.Object? ==> Canonical(v) == "{" + Join(MemberTexts(SortedKeys(v.fields.Keys), v), ",") + "}"
  {
    hide Join, SortedKeys, Escape, ItemTexts, MemberTexts;
  }

  /** The parts of an array are the texts of its items in order, those of an
      object its quoted keys in order, each with a colon and the text of its value. */
  lemma CanonicalParts(v: Json, i: nat)
    ensures v.Array? && i < |v.items| ==> ItemTexts(v.items)[i] == Canonical(v.items[i])
    ensures v.Array? ==> |ItemTexts(v.items)| == |v.items|
    ensures v.Object? ==> |MemberTexts(SortedKeys(v.fields.Keys), v)| == |SortedKeys(v.fields.Keys)|
    ensures v.Object? && i < |SortedKeys(v.fields.Keys)| ==>
              var k := SortedKeys(v.fields.Keys)[i];
              k in v.fields && MemberTexts(SortedKeys(v.fields.Keys), v)[i]
                   == "\"" + Escape(k) + "\":" + Canonical(v.fields[k])
  {
    hide Canonical, SortedKeys, Escape, ItemTexts, MemberTexts;
    if v.Object? && i < |SortedKeys(v.fields.Keys)| {
      var k := SortedKeys(v.fields.Keys)[i];
      assert k in SortedKeys(v.fields.Keys);
      assert MemberTexts(SortedKeys(v.fields.Keys), v)[i] == MemberText(k, v);
    }
  }

  // ----- the parser -----

  datatype Member = Member(key: string, value: Json)

  /** The map a list of members denotes; a repeated key overwrites. */
  function FromMembers(members: seq<Member>): map<string, Json> {
    if members == [] then map[]
    else
      var last := members[|members| - 1];
      FromMembers(members[..|members| - 1])[last.key := last.value]
  }

  datatype Parse<+T> = Fail | Done(value: T, rest: string)

  /** Four hex digits of a \u escape; surrogates are not characters. */
  function ParseHex(s: string): (r: Parse<char>)
    ensures r.Done? ==> |r.rest| < |s|
  {
    if |s| < 4 || HexValue(s[0]) < 0 || HexValue(s[1]) < 0 || HexValue(s[2]) < 0 || HexValue(s[3]) < 0 then Fail
    else
      var n := 4096 * HexValue(s[0]) + 256 * HexValue(s[1]) + 16 * HexValue(s[2]) + HexValue(s[3]);
      if 0xD800 <= n < 0xE000 then Fail else Done(n as char, s[4..])
  }

  /** One character of a string literal, escaped or not. */
  function ParseChar(s: string): (r: Parse<char>)
    ensures r.Done? ==> |r.rest| < |s|
  {
    if s == "" || s[0] < ' ' then Fail
    else if s[0] != '\\' then Done(s[0], s[1..])
    else if |s| < 2 then Fail
    else match s[1]
      case 'n' => Done('\n', s[2..])
      case 'r' => Done('\r', s[2..])
      case 't' => Done('\t', s[2..])
      case 'b' => Done(8 as char, s[2..])
      case 'f' => Done(12 as char, s[2..])
      case 'u' => ParseHex(s[2..])
      case c => if c in "\"\\/" then Done(c, s[2..]) else Fail
  }

  /** The characters of a string literal up to its closing quote. */
  function ParseChars(s: string): (r: Parse<string>)
    ensures r.Done? ==> |r.rest| < |s|
    decreases |s|
  {
    if s == "" then Fail
    else if s[0] == '\"' then Done("", s[1..])
    else match ParseChar(s)
      case Fail => Fail
      case Done(c, rest) =>
        match ParseChars(rest)
        case Fail => Fail
        case Done(cs, end) => Done([c] + cs, end)
  }

  function NumberEnd(s: string): (n: nat)
    ensures n <= |s|
    ensures forall i :: 0 <= i < n ==> NumberChar(s[i])
    ensures n < |s| ==> !NumberChar(s[n])
  {
    if s == "" || !NumberChar(s[0]) then 0 else 1 + NumberEnd(s[1..])
  }

  function ParseLiteral(s: string, word: string, v: Json): (r: Parse<Json>)
    requires word != ""
    ensures r.Done? ==> |r.rest| < |s|
  {
    if HasPrefix(s, word) then Done(v, s[|word|..]) else Fail
  }

  function ParseNumber(s: string): (r: Parse<Json>)
    ensures r.Done? ==> |r.rest| < |s|
  {
    var n := NumberEnd(s);
    if n == 0 then Fail else
      assert forall c :: c in s[..n] ==> NumberChar(c);
      Done(Number(s[..n]), s[n..])
  }

  function ParseValue(s: string): (r: Parse<Json>)
    ensures r.Done? ==> |r.rest| < |s|
    decreases |s|, 1
  {
    if s == "" then Fail
    else match s[0]
      case 'n' => ParseLiteral(s, "null", Null)
      case 't' => ParseLiteral(s, "true", Bool(true))
      case 'f' => ParseLiteral(s, "false", Bool(false))
      case '\"' =>
        (match ParseChars(s[1..])
         case Fail => Fail
         case Done(cs, rest) => Done(String(cs), rest))
      case '[' => ParseArray(s[1..])
      case '{' => ParseObject(s[1..])
      case _ => ParseNumber(s)
  }

  /** An array after its opening bracket. */
  function ParseArray(s: string): (r: Parse<Json>)
    ensures r.Done? ==> |r.rest| < |s|
    decreases |s|, 3
  {
    if s != "" && s[0] == ']' then Done(Array([]), s[1..])
    else match ParseItems(s)
      case Fail => Fail
      case Done(items, rest) => Done(Array(items), rest)
  }

  /** An object after its opening brace. */
  function ParseObject(s: string): (r: Parse<Json>)
    ensures r.Done? ==> |r.rest| < |s|
    decreases |s|, 3
  {
    if s != "" && s[0] == '}' then Done(Object(map[]), s[1..])
    else match ParseMembers(s)
      case Fail => Fail
      case Done(members, rest) => Done(Object(FromMembers(members)), rest)
  }

  /** One or more values separated by commas, up to the closing bracket. */
  function ParseItems(s: string): (r: Parse<seq<Json>>)
    ensures r.Done? ==> |r.rest| < |s|
    decreases |s|, 2
  {
    match ParseValue(s)
    case Fail => Fail
    case Done(v, rest) =>
      if rest != "" && rest[0] == ']' then Done([v], rest[1..])
      else if rest != "" && rest[0] == ',' then
        match ParseItems(rest[1..])
        case Fail => Fail
        case Done(vs, end) => Done([v] + vs, end)
      else Fail
  }

  /** One member: a key, a colon and a value. */
  function ParseMember(s: string): (r: Parse<Member>)
    ensures r.Done? ==> |r.rest| < |s|
    decreases |s|, 2, 0
  {
    if s == "" || s[0] != '\"' then Fail
    else match ParseChars(s[1..])
      case Fail => Fail
      case Done(key, rest) =>
        if rest == "" || rest[0] != ':' then Fail
        else match ParseValue(rest[1..])
          case Fail => Fail
          case Done(v, end) => Done(Member(key, v), end)
  }

  /** One or more members separated by commas, up to the closing brace. */
  function ParseMembers(s: string): (r: Parse<seq<Member>>)
    ensures r.Done? ==> |r.rest| < |s|
    decreases |s|, 2, 1
  {
    match ParseMember(s)
    case Fail => Fail
    case Done(m, rest) =>
      if rest != "" && rest[0] == '}' then Done([m], rest[1..])
      else if rest != "" && rest[0] == ',' then
        match ParseMembers(rest[1..])
        case Fail => Fail
        case Done(ms, end) => Done([m] + ms, end)
      else Fail
  }

  // ----- the parser inverts the printer -----

  lemma HexSum(n: nat)
    requires n < 0x10000
    ensures n / 4096 < 16
    ensures n == 4096 * (n / 4096) + 256 * (n / 256 % 16) + 16 * (n / 16 % 16) + n % 16
  {
    var a, b := n / 16, n / 256;
    assert b == a / 16 && n / 4096 == b / 16;
  }

  lemma HexDigitValue(d: nat)
    requires d < 16
    ensures HexValue(HexDigit(d)) == d
  {
  }

  lemma ParseHexDigits(n: nat, rest: string)
    requires n < 0xD800
    ensures n / 4096 < 16
    ensures ParseHex([HexDigit(n / 4096), HexDigit(n / 256 % 16), HexDigit(n / 16 % 16), HexDigit(n % 16)] + rest)
         == Done(n as char, rest)
  {
    HexSum(n);
    var a, b, c, d := n / 4096, n / 256 % 16, n / 16 % 16, n % 16;
    var s := [HexDigit(a), HexDigit(b), HexDigit(c), HexDigit(d)] + rest;
    HexDigitValue(a);
    HexDigitValue(b);
    HexDigitValue(c);
    HexDigitValue(d);
    assert s[0] == HexDigit(a) && s[1] == HexDigit(b) && s[2] == HexDigit(c) && s[3] == HexDigit(d);
    assert s[4..] == rest;
  }

  lemma ParseEscapedChar(c: char, rest: string)
    ensures ParseChar(EscapeChar(c) + rest) == Done(c, rest)
  {
    hide ParseHex, HexDigit;
    var s := EscapeChar(c) + rest;
    if ShortEscape(c) {
      assert s[2..] == rest;
    } else if LongEscape(c) {
      ParseHexDigits(c as int, rest);
      assert s[2..] == EscapeChar(c)[2..] + rest;
    } else {
      assert s[1..] == rest;
    }
  }

  lemma {:induction false} ParseEscaped(text: string, rest: string)
    ensures ParseChars(Escape(text) + "\"" + rest) == Done(text, rest)
  {
    var s := Escape(text) + "\"" + rest;
    if text == "" {
      assert s[1..] == rest;
    } else {
      var tail := Escape(text[1..]) + "\"" + rest;
      assert s == EscapeChar(text[0]) + tail;
      ParseEscapedChar(text[0], tail);
      ParseEscaped(text[1..], rest);
      assert text == [text[0]] + text[1..];
    }
  }

  lemma ParseQuoted(text: string, rest: string)
    ensures Quote(text) + rest != "" && (Quote(text) + rest)[0] == '\"'
    ensures ParseChars((Quote(text) + rest)[1..]) == Done(text, rest)
  {
    hide ParseChars, Escape;
    ParseEscaped(text, rest);
    assert (Quote(text) + rest)[1..] == Escape(text) + "\"" + rest;
  }

  lemma {:induction false} NumberEndToken(t: string, rest: string)
    requires forall c :: c in t ==> NumberChar(c)
    requires rest == "" || !NumberChar(rest[0])
    ensures NumberEnd(t + rest) == |t|
  {
    if t == "" {
      assert t + rest == rest;
    } else {
      NumberEndToken(t[1..], rest);
      assert (t + rest)[1..] == t[1..] + rest;
      assert t[0] in t;
    }
  }

  /** A value's text starts with the character that tells the parser its kind. */
  predicate Delimited(v: Json, rest: string) {
    v.Number? ==> rest == "" || !NumberChar(rest[0])
  }

  lemma ParsePrimitive(v: Json, rest: string)
    requires Delimited(v, rest) && !v.Array? && !v.Object?
    ensures Canonical(v) != "" && Canonical(v)[0] !in "]}"
    ensures ParseValue(Canonical(v) + rest) == Done(v, rest)
  {
    hide ParseArray, ParseObject, ParseChars, Escape, MemberTexts, ItemTexts, SortedKeys, NumberEnd;
    var s := Canonical(v) + rest;
    match v
    case Null => assert s[..4] == "null" && s[4..] == rest;
    case Bool(b) =>
      if b { assert s[..4] == "true" && s[4..] == rest; }
      else { assert s[..5] == "false" && s[5..] == rest; }
    case Number(t) =>
      NumberEndToken(t, rest);
      assert s[..|t|] == t && s[|t|..] == rest;
      assert t[0] in t;
    case String(text) => ParseQuoted(text, rest);
  }

  lemma ParseArrayText(inner: string, items: seq<Json>, rest: string)
    requires inner != "" && inner[0] != ']'
    requires ParseItems(inner + "]" + rest) == Done(items, rest)
    ensures ParseValue("[" + inner + "]" + rest) == Done(Array(items), rest)
  {
    hide ParseItems, ParseObject, ParseChars, ParseNumber, ParseLiteral;
    var s := "[" + inner + "]" + rest;
    var t := inner + "]" + rest;
    assert s[1..] == t;
    assert ParseArray(t) == Done(Array(items), rest);
    assert ParseValue(s) == ParseArray(s[1..]);
  }

  lemma ParseObjectText(inner: string, members: seq<Member>, rest: string)
    requires inner != "" && inner[0] != '}'
    requires ParseMembers(inner + "}" + rest) == Done(members, rest)
    ensures ParseValue("{" + inner + "}" + rest) == Done(Object(FromMembers(members)), rest)
  {
    hide ParseMembers, ParseArray, ParseChars, ParseNumber, ParseLiteral, FromMembers;
    var s := "{" + inner + "}" + rest;
    var t := inner + "}" + rest;
    assert s[1..] == t;
    assert ParseObject(t) == Done(Object(FromMembers(members)), rest);
    assert ParseValue(s) == ParseObject(s[1..]);
  }

  lemma ParseEmpty(rest: string)
    ensures ParseValue("[]" + rest) == Done(Array([]), rest)
    ensures ParseValue("{}" + rest) == Done(Object(map[]), rest)
  {
    assert ("[]" + rest)[1..] == "]" + rest && ("]" + rest)[1..] == rest;
    assert ("{}" + rest)[1..] == "}" + rest && ("}" + rest)[1..] == rest;
  }

  /** The parser reads back exactly the printed value and leaves what follows it. */
  lemma {:induction false} ParseCanonical(v: Json, rest: string)
    requires Delimited(v, rest)
    ensures Canonical(v) != "" && Canonical(v)[0] !in "]}"
    ensures ParseValue(Canonical(v) + rest) == Done(v, rest)
    decreases v
  {
    hide ParseItems, ParseMembers, ParseValue, Escape, FromMembers, MembersOf, ItemTexts, MemberTexts, SortedKeys;
    if v.Array? {
      var inner := Join(ItemTexts(v.items), ",");
      ParseEmpty(rest);
      if v.items == [] {
        assert Canonical(v) == "[]";
      } else {
        ParseItemTexts(v.items, rest);
        ParseArrayText(inner, v.items, rest);
        assert Canonical(v) + rest == "[" + inner + "]" + rest;
      }
    } else if v.Object? {
      var keys := SortedKeys(v.fields.Keys);
      var inner := Join(MemberTexts(keys, v), ",");
      ParseEmpty(rest);
      assert forall k :: k in keys <==> k in v.fields;
      if keys == [] {
        assert v.fields == map[];
        assert Canonical(v) == "{}";
      } else {
        ParseMemberTexts(keys, v, rest);
        MembersGiveBack(keys, v.fields);
        ParseObjectText(inner, MembersOf(keys, v.fields), rest);
        assert Canonical(v) + rest == "{" + inner + "}" + rest;
      }
    } else {
      ParsePrimitive(v, rest);
    }
  }

  lemma ParseLastItem(text: string, v: Json, rest: string)
    requires ParseValue(text + ("]" + rest)) == Done(v, "]" + rest)
    ensures ParseItems(text + "]" + rest) == Done([v], rest)
  {
    assert text + "]" + rest == text + ("]" + rest);
    assert ("]" + rest)[1..] == rest;
  }

  lemma ParseNextItem(text: string, v: Json, tail: string, vs: seq<Json>, rest: string)
    requires ParseValue(text + ("," + tail)) == Done(v, "," + tail)
    requires ParseItems(tail) == Done(vs, rest)
    ensures ParseItems(text + "," + tail) == Done([v] + vs, rest)
  {
    assert text + "," + tail == text + ("," + tail);
    assert ("," + tail)[1..] == tail;
  }

  lemma {:induction false} ParseItemTexts(items: seq<Json>, rest: string)
    requires items != []
    ensures Join(ItemTexts(items), ",") != "" && Join(ItemTexts(items), ",")[0] != ']'
    ensures ParseItems(Join(ItemTexts(items), ",") + "]" + rest) == Done(items, rest)
    decreases items, 0
  {
    hide Canonical, ParseItems, ParseValue, ItemTexts;
    var parts := ItemTexts(items);
    if |items| == 1 {
      ParseCanonical(items[0], "]" + rest);
      ParseLastItem(parts[0], items[0], rest);
      assert items == [items[0]];
    } else {
      assert parts[1..] == ItemTexts(items[1..]);
      var tail := Join(parts[1..], ",") + "]" + rest;
      ParseCanonical(items[0], "," + tail);
      ParseItemTexts(items[1..], rest);
      ParseNextItem(parts[0], items[0], tail, items[1..], rest);
      assert Join(parts, ",") + "]" + rest == parts[0] + "," + tail;
      assert items == [items[0]] + items[1..];
    }
  }

  function MembersOf(keys: seq<string>, fields: map<string, Json>): (ms: seq<Member>)
    requires forall k :: k in keys ==> k in fields
    ensures |ms| == |keys|
    ensures forall i :: 0 <= i < |keys| ==> ms[i] == Member(keys[i], fields[keys[i]])
  {
    if keys == [] then [] else [Member(keys[0], fields[keys[0]])] + MembersOf(keys[1..], fields)
  }

  lemma {:induction false} FromMembersOf(ms: seq<Member>, fields: map<string, Json>)
    requires forall m :: m in ms ==> m.key in fields && fields[m.key] == m.value
    ensures forall k :: k in FromMembers(ms) ==> k in fields && FromMembers(ms)[k] == fields[k]
    ensures forall m :: m in ms ==> m.key in FromMembers(ms)
  {
    if ms != [] {
      var n := |ms| - 1;
      FromMembersOf(ms[..n], fields);
      assert ms[n] in ms;
      assert forall m :: m in ms ==> m in ms[..n] || m == ms[n];
    }
  }

  lemma MembersGiveBack(keys: seq<string>, fields: map<string, Json>)
    requires forall k :: k in keys <==> k in fields
    ensures FromMembers(MembersOf(keys, fields)) == fields
  {
    hide FromMembers, MembersOf;
    var ms := MembersOf(keys, fields);
    FromMembersOf(ms, fields);
    forall k | k in fields
      ensures k in FromMembers(ms)
    {
      var i :| 0 <= i < |keys| && keys[i] == k;
      assert ms[i] in ms && ms[i].key == k;
    }
  }

  lemma ParseMemberText(key: string, text: string, v: Json, tail: string)
    requires ParseValue(text + tail) == Done(v, tail)
    ensures ParseMember(Quote(key) + ":" + text + tail) == Done(Member(key, v), tail)
  {
    hide ParseChars, ParseValue, Escape;
    var after := ":" + (text + tail);
    assert Quote(key) + ":" + text + tail == Quote(key) + after;
    ParseQuoted(key, after);
    assert after[1..] == text + tail;
  }

  lemma ParseLastMember(text: string, m: Member, rest: string)
    requires ParseMember(text + ("}" + rest)) == Done(m, "}" + rest)
    ensures ParseMembers(text + "}" + rest) == Done([m], rest)
  {
    assert text + "}" + rest == text + ("}" + rest);
    assert ("}" + rest)[1..] == rest;
  }

  lemma ParseNextMember(text: string, m: Member, tail: string, ms: seq<Member>, rest: string)
    requires ParseMember(text + ("," + tail)) == Done(m, "," + tail)
    requires ParseMembers(tail) == Done(ms, rest)
    ensures ParseMembers(text + "," + tail) == Done([m] + ms, rest)
  {
    assert text + "," + tail == text + ("," + tail);
    assert ("," + tail)[1..] == tail;
  }

  lemma {:induction false} ParseFirstMember(key: string, v: Json, tail: string)
    requires v.Object? && key in v.fields
    requires Delimited(v.fields[key], tail)
    ensures ParseMember(MemberText(key, v) + tail) == Done(Member(key, v.fields[key]), tail)
    decreases v, 0
  {
    ParseCanonical(v.fields[key], tail);
    ParseMemberText(key, Canonical(v.fields[key]), v.fields[key], tail);
  }

  lemma {:induction false} ParseMemberTexts(keys: seq<string>, v: Json, rest: string)
    requires v.Object? && keys != [] && forall k :: k in keys ==> k in v.fields
    ensures Join(MemberTexts(keys, v), ",") != "" && Join(MemberTexts(keys, v), ",")[0] == '\"'
    ensures ParseMembers(Join(MemberTexts(keys, v), ",") + "}" + rest) == Done(MembersOf(keys, v.fields), rest)
    decreases v, |keys|
  {
    hide Canonical, Escape, ParseMember, ParseMembers, ParseValue;
    var parts := MemberTexts(keys, v);
    var text, m := MemberText(keys[0], v), Member(keys[0], v.fields[keys[0]]);
    assert parts[0] == text && text[0] == '\"';
    if |keys| == 1 {
      ParseFirstMember(m.key, v, "}" + rest);
      ParseLastMember(text, m, rest);
      assert MembersOf(keys, v.fields) == [m];
    } else {
      var inner := Join(MemberTexts(keys[1..], v), ",");
      assert parts[1..] == MemberTexts(keys[1..], v);
      assert Join(parts, ",") == text + "," + inner;
      var tail := inner + "}" + rest;
      ParseFirstMember(m.key, v, "," + tail);
      ParseMemberTexts(keys[1..], v, rest);
      ParseNextMember(text, m, tail, MembersOf(keys[1..], v.fields), rest);
      assert Join(parts, ",") + "}" + rest == text + "," + tail;
    }
  }

  // ----- main results -----

  /** A document is one value and nothing after it. */
  function Decode(text: string): Option<Json> {
    match ParseValue(text)
    case Fail => None
    case Done(v, rest) => if rest == "" then Some(v) else None
  }

  /** Reading the canonical text gives the tree back, for every tree. */
  lemma RoundTrip(v: Json)
    ensures Decode(Canonical(v)) == Some(v)
  {
    ParseCanonical(v, "");
    assert Canonical(v) + "" == Canonical(v);
  }

  /** Distinct trees never share a canonical text. */
  lemma CanonicalInjective(a: Json, b: Json)
    requires Canonical(a) == Canonical(b)
    ensures a == b
  {
    RoundTrip(a);
    RoundTrip(b);
  }

  /** The text of a value other than a number is a prefix of no other value's text. */
  lemma CanonicalPrefixFree(a: Json, b: Json)
    requires !a.Number? && Canonical(a) <= Canonical(b)
    ensures a == b
  {
    var rest := Canonical(b)[|Canonical(a)|..];
    assert Canonical(b) == Canonical(a) + rest;
    ParseCanonical(a, rest);
    ParseCanonical(b, "");
    assert Canonical(b) + "" == Canonical(b);
  }
}
