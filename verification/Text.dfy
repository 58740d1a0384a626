// String helpers the components share: join and split on a separator, and
// decimal printing. Strings are sequences of Unicode scalar values.
module Text {

  /** `strings.Join`. */
  function Join(parts: seq<string>, sep: string): string {
    if |parts| == 0 then ""
    else if |parts| == 1 then parts[0]
    else parts[0] + sep + Join(parts[1..], sep)
  }

  /** `strings.Index(s, sep) == 0`: `sep` stands at the front of `s`. */
  predicate HasPrefix(s: string, sep: string) {
    |sep| <= |s| && s[..|sep|] == sep
  }

  predicate Contains(s: string, sep: string) {
    exists i :: 0 <= i <= |s| && HasPrefix(s[i..], sep)
  }

  /** The first position of a nonempty `sep` in `s`, or `|s|` when there is none. */
  function IndexOf(s: string, sep: string): (i: nat)
    requires sep != ""
    ensures i <= |s|
    ensures i < |s| ==> HasPrefix(s[i..], sep)
    ensures i == |s| ==> !HasPrefix(s[i..], sep)
    ensures forall j :: 0 <= j < i ==> !HasPrefix(s[j..], sep)
  {
    if s == "" || HasPrefix(s, sep) then 0
    else
      var r := IndexOf(s[1..], sep);
      assert forall j :: 1 <= j < 1 + r ==> s[j..] == s[1..][j - 1..];
      assert s[1 + r..] == s[1..][r..];
      assert s[0..] == s;
      1 + r
  }

  /** `strings.Split` for a nonempty separator. */
  function Split(s: string, sep: string): (parts: seq<string>)
    requires sep != ""
    ensures |parts| >= 1
    decreases |s|
  {
    var i := IndexOf(s, sep);
    if i == |s| then [s]
    else [s[..i]] + Split(s[i + |sep|..], sep)
  }

  /** The separator's first character occurs nowhere else in it, so that no
      occurrence of the separator can overlap another one. */
  predicate Unbordered(sep: string) {
    sep != "" && forall i :: 0 < i < |sep| ==> sep[i] != sep[0]
  }

  /** Cutting `name + sep + rest` at its first separator gives `name` back. */
  lemma FirstSeparator(name: string, sep: string, rest: string)
    requires Unbordered(sep) && !Contains(name, sep)
    ensures IndexOf(name + sep + rest, sep) == |name|
  {
    var s := name + sep + rest;
    assert s[|name|..] == sep + rest;
    assert HasPrefix(s[|name|..], sep);
    forall j | 0 <= j < |name|
      ensures !HasPrefix(s[j..], sep)
    {
      if j + |sep| <= |name| {
        assert s[j..][..|sep|] == name[j..][..|sep|];
        assert !HasPrefix(name[j..], sep);
      } else {
        assert s[j..][|name| - j] == s[|name|] == sep[0] != sep[|name| - j];
      }
    }
  }

  lemma NoSeparator(name: string, sep: string)
    requires sep != "" && !Contains(name, sep)
    ensures IndexOf(name, sep) == |name|
    ensures Split(name, sep) == [name]
  {
    assert !HasPrefix(name[IndexOf(name, sep)..], sep);
  }

  /** Splitting undoes joining when no part holds the separator. */
  lemma {:induction false} SplitJoin(parts: seq<string>, sep: string)
    requires Unbordered(sep) && |parts| >= 1
    requires forall p :: p in parts ==> !Contains(p, sep)
    ensures Split(Join(parts, sep), sep) == parts
  {
    if |parts| == 1 {
      NoSeparator(parts[0], sep);
      assert parts == [parts[0]];
    } else {
      var rest := Join(parts[1..], sep);
      var s := parts[0] + sep + rest;
      FirstSeparator(parts[0], sep, rest);
      assert s[..|parts[0]|] == parts[0];
      assert s[|parts[0]| + |sep|..] == rest;
      SplitJoin(parts[1..], sep);
      assert parts == [parts[0]] + parts[1..];
    }
  }

  lemma PrefixClean(s: string, i: nat, sep: string)
    requires sep != "" && i <= |s|
    requires forall j :: 0 <= j < i ==> !HasPrefix(s[j..], sep)
    ensures !Contains(s[..i], sep)
  {
    forall k | 0 <= k <= i
      ensures !HasPrefix(s[..i][k..], sep)
    {
      if k + |sep| <= i {
        assert s[..i][k..][..|sep|] == s[k..][..|sep|];
        assert !HasPrefix(s[k..], sep);
      }
    }
  }

  /** What `Split` returns never holds the separator. */
  lemma {:induction false} SplitPartsClean(s: string, sep: string)
    requires sep != ""
    ensures forall p :: p in Split(s, sep) ==> !Contains(p, sep)
    decreases |s|
  {
    var i := IndexOf(s, sep);
    PrefixClean(s, i, sep);
    if i == |s| {
      assert s[..i] == s;
    } else {
      var rest := Split(s[i + |sep|..], sep);
      SplitPartsClean(s[i + |sep|..], sep);
      forall p | p in Split(s, sep)
        ensures !Contains(p, sep)
      {
        assert p == s[..i] || p in rest;
      }
    }
  }

  lemma JoinCons(part: string, parts: seq<string>, sep: string)
    requires parts != []
    ensures Join([part] + parts, sep) == part + sep + Join(parts, sep)
  {
    assert ([part] + parts)[1..] == parts;
  }

  lemma SplitStep(s: string, sep: string)
    requires sep != ""
    ensures var i := IndexOf(s, sep);
            Split(s, sep) == if i == |s| then [s] else [s[..i]] + Split(s[i + |sep|..], sep)
  {
    hide IndexOf;
  }

  /** Joining undoes splitting, for every string. */
  lemma {:induction false} JoinSplit(s: string, sep: string)
    requires sep != ""
    ensures Join(Split(s, sep), sep) == s
    decreases |s|
  {
    hide IndexOf, Split, Join;
    var i := IndexOf(s, sep);
    SplitStep(s, sep);
    if i == |s| {
      JoinOne(s, sep);
    } else {
      var rest := s[i + |sep|..];
      JoinSplit(rest, sep);
      JoinCons(s[..i], Split(rest, sep), sep);
      assert s[i..][..|sep|] == sep;
      assert s == s[..i] + sep + rest;
    }
  }

  lemma JoinOne(s: string, sep: string)
    ensures Join([s], sep) == s
  {
  }

  // ----- white space -----

  /** `unicode.IsSpace`. */
  predicate IsSpace(c: char) {
    var n := c as int;
    9 <= n <= 13 || n in {0x20, 0x85, 0xA0, 0x1680, 0x2028, 0x2029, 0x202F, 0x205F, 0x3000} || 0x2000 <= n <= 0x200A
  }

  /** `strings.TrimSpace`. */
  function TrimSpace(s: string): string
    decreases |s|
  {
    if s == "" then ""
    else if IsSpace(s[0]) then TrimSpace(s[1..])
    else if IsSpace(s[|s| - 1]) then TrimSpace(s[..|s| - 1])
    else s
  }

  /** Trimming cuts white space off both ends, and nothing else. */
  lemma {:induction false} TrimMeans(s: string)
    ensures exists a: nat, b: nat :: TrimsTo(s, a, b) && TrimSpace(s) == s[a..b]
    decreases |s|
  {
    if s != "" && IsSpace(s[0]) {
      TrimMeans(s[1..]);
      var a: nat, b: nat :| TrimsTo(s[1..], a, b) && TrimSpace(s[1..]) == s[1..][a..b];
      assert TrimsTo(s, a + 1, b + 1) && TrimSpace(s) == s[a + 1..b + 1];
    } else if s != "" && IsSpace(s[|s| - 1]) {
      var t := s[..|s| - 1];
      TrimMeans(t);
      var a: nat, b: nat :| TrimsTo(t, a, b) && TrimSpace(t) == t[a..b];
      assert TrimsTo(s, a, b) && TrimSpace(s) == s[a..b];
    } else {
      assert TrimsTo(s, 0, |s|) && s[0..|s|] == s;
    }
  }

  /** From `a` up to `b`, `s` neither starts nor ends with white space; outside there is only that. */
  ghost predicate TrimsTo(s: string, a: nat, b: nat) {
    && a <= b <= |s|
    && (forall i :: 0 <= i < |s| && (i < a || b <= i) ==> IsSpace(s[i]))
    && (a < b ==> !IsSpace(s[a]) && !IsSpace(s[b - 1]))
  }

  /** A text trims to nothing exactly when it holds only tabs, line ends, blanks
      and the other white space of Unicode. */
  lemma BlankMeans(s: string)
    ensures TrimSpace(s) == "" <==> forall c :: c in s ==>
              var n := c as int;
              9 <= n <= 13 || n == 32 || n == 0x85 || n == 0xA0 || n == 0x1680 || 0x2000 <= n <= 0x200A
              || n == 0x2028 || n == 0x2029 || n == 0x202F || n == 0x205F || n == 0x3000
  {
    TrimMeans(s);
    var a: nat, b: nat :| TrimsTo(s, a, b) && TrimSpace(s) == s[a..b];
    if a < b { assert s[a] in s; }
  }

  // ----- decimal integers -----

  function Digit(d: nat): char
    requires d < 10
  {
    '0' + d as char
  }

  function DigitValue(c: char): int { c as int - '0' as int }

  function DecimalNat(n: nat): (s: string)
    ensures |s| >= 1
    ensures forall c :: c in s ==> '0' <= c <= '9'
  {
    if n < 10 then [Digit(n)] else DecimalNat(n / 10) + [Digit(n % 10)]
  }

  /** `strconv.FormatInt(n, 10)`. */
  function Decimal(n: int): (s: string)
    ensures |s| >= 1
    ensures forall c :: c in s ==> '0' <= c <= '9' || c == '-'
  {
    if n < 0 then "-" + DecimalNat(-n) else DecimalNat(n)
  }

  function ReadNat(s: string): int {
    if s == "" then 0 else 10 * ReadNat(s[..|s| - 1]) + DigitValue(s[|s| - 1])
  }

  lemma {:induction false} ReadDecimalNat(n: nat)
    ensures ReadNat(DecimalNat(n)) == n
  {
    var s := DecimalNat(n);
    if n < 10 {
      assert s[..0] == "";
    } else {
      ReadDecimalNat(n / 10);
      assert s[..|s| - 1] == DecimalNat(n / 10);
    }
  }

  lemma DecimalInjective(a: int, b: int)
    requires Decimal(a) == Decimal(b)
    ensures a == b
  {
    var s := Decimal(a);
    ReadDecimalNat(if a < 0 then -a else a);
    ReadDecimalNat(if b < 0 then -b else b);
    assert (a < 0) == (s[0] == '-') by {
      if a >= 0 { assert s[0] in s; assert s[0] in DecimalNat(a); }
    }
    assert (b < 0) == (s[0] == '-') by {
      if b >= 0 { assert s[0] in DecimalNat(b); }
    }
    if a < 0 {
      assert s[1..] == DecimalNat(-a);
      assert s[1..] == DecimalNat(-b);
    }
  }
}
