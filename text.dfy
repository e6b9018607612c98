/** Models of the JavaScript string built-ins that the validator and the two
    demo applications rely on: character classes, `toLowerCase`, `trim`,
    `split` and `join` on a one-character separator, the filter-and-join idiom,
    `indexOf`/`lastIndexOf` and `parseInt(s, 10)`. Strings are sequences of
    characters. */
module Text {
  import opened Wrappers

  // ---------------------------------------------------------------------------
  // Character classes
  // ---------------------------------------------------------------------------

  /** An ASCII decimal digit. */
  predicate IsDigit(c: char) {
    '0' <= c <= '9'
  }

  /** A character of `[A-Za-z0-9]`. */
  predicate IsAlphanumericChar(c: char) {
    'a' <= c <= 'z' || 'A' <= c <= 'Z' || IsDigit(c)
  }

  /** The ECMAScript WhiteSpace and LineTerminator code points: what
      `String.prototype.trim` strips, and what the string-to-number conversion
      reads as nothing at all. */
  predicate IsWhitespace(c: char) {
    || c == '\t' || c == '\n' || c == '\U{B}' || c == '\U{C}' || c == '\r'
    || c == ' ' || c == '\U{A0}' || c == '\U{1680}'
    || ('\U{2000}' <= c <= '\U{200A}')
    || c == '\U{2028}' || c == '\U{2029}' || c == '\U{202F}' || c == '\U{205F}'
    || c == '\U{3000}' || c == '\U{FEFF}'
  }

  /** `toLowerCase` on one character, for the ASCII letters. */
  function LowerChar(c: char): char {
    if 'A' <= c <= 'Z' then (c as int + 32) as char else c
  }

  /** `toLowerCase` on a string, letter by letter. */
  function Lower(s: string): string {
    seq(|s|, i requires 0 <= i < |s| => LowerChar(s[i]))
  }

  /** A string without upper-case ASCII letters is its own lower case. */
  lemma LowerUnchanged(s: string)
    requires forall i :: 0 <= i < |s| ==> !('A' <= s[i] <= 'Z')
    ensures Lower(s) == s
  {
  }

  /** Lower case never introduces an upper-case ASCII letter. */
  lemma LowerHasNoUpper(s: string)
    ensures forall i :: 0 <= i < |Lower(s)| ==> !('A' <= Lower(s)[i] <= 'Z')
  {
  }

  // ---------------------------------------------------------------------------
  // Filtering: `s.split('').filter(...).join('')` and the `norm += s[i]` loops
  // ---------------------------------------------------------------------------

  /** The characters of `s`, in order, whose membership in `cs` equals
      `inside`. */
  function Select(s: string, cs: set<char>, inside: bool): (r: string)
    ensures |r| <= |s|
    ensures forall c :: c in r ==> (c in cs) == inside
  {
    if s == [] then []
    else
      var last := s[|s| - 1];
      assert s == s[..|s| - 1] + [last];
      Select(s[..|s| - 1], cs, inside) + (if (last in cs) == inside then [last] else [])
  }

  /** `s` without the characters of `cs`. */
  function Drop(s: string, cs: set<char>): string {
    Select(s, cs, false)
  }

  /** Only the characters of `s` that belong to `cs`. */
  function Keep(s: string, cs: set<char>): string {
    Select(s, cs, true)
  }

  /** Filtering keeps every occurrence of a qualifying character and adds
      none. */
  lemma {:induction false} SelectCounts(s: string, cs: set<char>, inside: bool)
    ensures forall c :: (c in cs) == inside ==> multiset(Select(s, cs, inside))[c] == multiset(s)[c]
    ensures forall c :: c in Select(s, cs, inside) ==> c in s
    decreases |s|
  {
    if s != [] {
      var s' := s[..|s| - 1];
      assert s == s' + [s[|s| - 1]];
      SelectCounts(s', cs, inside);
    }
  }

  /** One more character of `s` read by a `norm += s[i]` loop. */
  lemma SelectPrefix(s: string, i: nat, cs: set<char>, inside: bool)
    requires i < |s|
    ensures Select(s[..i + 1], cs, inside)
         == Select(s[..i], cs, inside) + (if (s[i] in cs) == inside then [s[i]] else [])
  {
    assert s[..i + 1][..i] == s[..i];
  }

  /** Filtering works piece by piece: it keeps the order of what it keeps. */
  lemma {:induction false} SelectConcat(a: string, b: string, cs: set<char>, inside: bool)
    ensures Select(a + b, cs, inside) == Select(a, cs, inside) + Select(b, cs, inside)
    decreases |b|
  {
    if b == [] {
      assert a + b == a;
    } else {
      var b', x := b[..|b| - 1], b[|b| - 1];
      var tail := if (x in cs) == inside then [x] else [];
      assert (a + b)[..|a + b| - 1] == a + b';
      assert (a + b)[|a + b| - 1] == x;
      SelectConcat(a, b', cs, inside);
      calc {
        Select(a + b, cs, inside);
        Select(a + b', cs, inside) + tail;
        Select(a, cs, inside) + Select(b', cs, inside) + tail;
        Select(a, cs, inside) + (Select(b', cs, inside) + tail);
        Select(a, cs, inside) + Select(b, cs, inside);
      }
    }
  }

  /** Filtering a one-character string keeps it exactly when it qualifies. */
  lemma SelectChar(c: char, cs: set<char>, inside: bool)
    ensures Select([c], cs, inside) == if (c in cs) == inside then [c] else []
  {
    assert [c][..0] == [];
  }

  /** Filtering twice is filtering once. */
  lemma {:induction false} SelectIdempotent(s: string, cs: set<char>, inside: bool)
    ensures Select(Select(s, cs, inside), cs, inside) == Select(s, cs, inside)
    decreases |s|
  {
    if s != [] {
      var s' := s[..|s| - 1];
      var last := s[|s| - 1];
      SelectIdempotent(s', cs, inside);
      var tail := if (last in cs) == inside then [last] else [];
      SelectConcat(Select(s', cs, inside), tail, cs, inside);
      SelectChar(last, cs, inside);
    }
  }

  /** A string whose characters all qualify is its own filtering. */
  lemma {:induction false} SelectAll(s: string, cs: set<char>, inside: bool)
    requires forall i :: 0 <= i < |s| ==> (s[i] in cs) == inside
    ensures Select(s, cs, inside) == s
    decreases |s|
  {
    if s != [] {
      var s' := s[..|s| - 1];
      assert forall i :: 0 <= i < |s'| ==> s'[i] == s[i];
      SelectAll(s', cs, inside);
      assert (s[|s| - 1] in cs) == inside;
      assert s == s' + [s[|s| - 1]];
    }
  }

  /** A string none of whose characters qualify filters to nothing. */
  lemma {:induction false} SelectNone(s: string, cs: set<char>, inside: bool)
    requires forall i :: 0 <= i < |s| ==> (s[i] in cs) != inside
    ensures Select(s, cs, inside) == []
    decreases |s|
  {
    if s != [] {
      SelectNone(s[..|s| - 1], cs, inside);
    }
  }

  // ---------------------------------------------------------------------------
  // split and join on a one-character separator
  // ---------------------------------------------------------------------------

  /** `parts.join(sep)`. */
  function Join(parts: seq<string>, sep: char): string
  {
    if parts == [] then ""
    else if |parts| == 1 then parts[0]
    else parts[0] + [sep] + Join(parts[1..], sep)
  }

  /** `s.split(sep)`: the pieces between the separators, at least one. */
  function Split(s: string, sep: char): (parts: seq<string>)
    ensures |parts| >= 1
    decreases |s|
  {
    if s == [] then [""]
    else
      var rest := Split(s[1..], sep);
      if s[0] == sep then [""] + rest
      else [[s[0]] + rest[0]] + rest[1..]
  }

  /** The pieces hold no separator, and joining them with it gives `s`
      back. */
  lemma {:induction false} SplitPieces(s: string, sep: char)
    ensures forall i :: 0 <= i < |Split(s, sep)| ==> sep !in Split(s, sep)[i]
    ensures Join(Split(s, sep), sep) == s
    decreases |s|
  {
    if s != [] {
      var rest := Split(s[1..], sep);
      SplitPieces(s[1..], sep);
      assert s == [s[0]] + s[1..];
      if s[0] == sep {
        assert ([""] + rest)[1..] == rest;
      } else {
        var parts := Split(s, sep);
        assert parts[1..] == rest[1..];
        assert |rest| > 1 ==> rest == [rest[0]] + rest[1..];
        forall i | 0 <= i < |parts| ensures sep !in parts[i] {
          if i > 0 { assert parts[i] == rest[i]; }
        }
      }
    }
  }

  /** A string without the separator is one piece. */
  lemma {:induction false} SplitNoSeparator(s: string, sep: char)
    requires sep !in s
    ensures Split(s, sep) == [s]
    decreases |s|
  {
    if s != [] {
      assert s[0] != sep && sep !in s[1..];
      SplitNoSeparator(s[1..], sep);
      assert [s[0]] + s[1..] == s;
    }
  }

  /** Splitting at a separator splits the pieces on either side. */
  lemma {:induction false} SplitAt(a: string, b: string, sep: char)
    ensures Split(a + [sep] + b, sep) == Split(a, sep) + Split(b, sep)
    decreases |a|
  {
    if a == [] {
      assert a + [sep] + b == [sep] + b;
      SplitConsSep(b, sep);
    } else {
      var c, r := a[0], a[1..];
      SplitAt(r, b, sep);
      calc {
        Split(a + [sep] + b, sep);
        { assert a + [sep] + b == [c] + (r + [sep] + b); }
        Split([c] + (r + [sep] + b), sep);
        { if c == sep { SplitAtSep(r, b, sep); } else { SplitAtChar(c, r, b, sep); } }
        Split([c] + r, sep) + Split(b, sep);
        { assert [c] + r == a; }
        Split(a, sep) + Split(b, sep);
      }
    }
  }

  lemma SplitAtSep(a: string, b: string, sep: char)
    requires Split(a + [sep] + b, sep) == Split(a, sep) + Split(b, sep)
    ensures Split([sep] + (a + [sep] + b), sep) == Split([sep] + a, sep) + Split(b, sep)
  {
    SplitConsSep(a + [sep] + b, sep);
    SplitConsSep(a, sep);
  }

  lemma SplitAtChar(c: char, a: string, b: string, sep: char)
    requires c != sep
    requires Split(a + [sep] + b, sep) == Split(a, sep) + Split(b, sep)
    ensures Split([c] + (a + [sep] + b), sep) == Split([c] + a, sep) + Split(b, sep)
  {
    SplitConsChar(c, a + [sep] + b, sep);
    SplitConsChar(c, a, sep);
    ExtendFirst([c], Split(a, sep), Split(b, sep));
  }

  /** A separator in front starts an empty first piece. */
  lemma SplitConsSep(s: string, sep: char)
    ensures Split([sep] + s, sep) == [""] + Split(s, sep)
  {
    assert ([sep] + s)[1..] == s;
  }

  /** Any other character in front joins the first piece. */
  lemma SplitConsChar(c: char, s: string, sep: char)
    requires c != sep
    ensures Split([c] + s, sep) == [[c] + Split(s, sep)[0]] + Split(s, sep)[1..]
  {
    assert ([c] + s)[1..] == s;
  }

  /** Extending the first piece commutes with appending more pieces. */
  lemma ExtendFirst(x: string, p: seq<string>, q: seq<string>)
    requires |p| >= 1
    ensures [x + (p + q)[0]] + (p + q)[1..] == ([x + p[0]] + p[1..]) + q
  {
    var L, R := [x + (p + q)[0]] + (p + q)[1..], ([x + p[0]] + p[1..]) + q;
    assert |L| == |R|;
    forall i | 0 <= i < |L| ensures L[i] == R[i] {
      if i > 0 {
        assert L[i] == (p + q)[i];
      }
    }
  }

  /** Round trip: splitting joined separator-free pieces gives the pieces. */
  lemma {:induction false} SplitJoin(parts: seq<string>, sep: char)
    requires |parts| >= 1
    requires forall i :: 0 <= i < |parts| ==> sep !in parts[i]
    ensures Split(Join(parts, sep), sep) == parts
    decreases |parts|
  {
    SplitNoSeparator(parts[0], sep);
    if |parts| > 1 {
      SplitJoin(parts[1..], sep);
      SplitAt(parts[0], Join(parts[1..], sep), sep);
      assert parts == [parts[0]] + parts[1..];
    }
  }

  // ---------------------------------------------------------------------------
  // trim
  // ---------------------------------------------------------------------------

  /** How many whitespace characters `s` starts with. */
  function LeadingWhitespace(s: string): (k: nat)
    ensures k <= |s|
    ensures forall i :: 0 <= i < k ==> IsWhitespace(s[i])
    ensures k < |s| ==> !IsWhitespace(s[k])
    decreases |s|
  {
    if s != [] && IsWhitespace(s[0]) then 1 + LeadingWhitespace(s[1..]) else 0
  }

  /** How many whitespace characters `s` ends with. */
  function TrailingWhitespace(s: string): (k: nat)
    ensures k <= |s|
    ensures forall i :: |s| - k <= i < |s| ==> IsWhitespace(s[i])
    ensures k < |s| ==> !IsWhitespace(s[|s| - k - 1])
    decreases |s|
  {
    if s != [] && IsWhitespace(s[|s| - 1]) then 1 + TrailingWhitespace(s[..|s| - 1]) else 0
  }

  /** `s` without its leading whitespace (what `parseInt` skips). */
  function TrimStart(s: string): string {
    s[LeadingWhitespace(s)..]
  }

  /** `s.trim()`: `s` without leading and trailing whitespace. It is empty
      exactly when `s` is all whitespace, and otherwise starts and ends with
      a non-whitespace character. */
  function Trim(s: string): (r: string)
    ensures |r| <= |s|
    ensures r == [] <==> forall i :: 0 <= i < |s| ==> IsWhitespace(s[i])
    ensures r != [] ==> !IsWhitespace(r[0]) && !IsWhitespace(r[|r| - 1])
  {
    var k := LeadingWhitespace(s);
    var t := s[k..];
    var r := t[..|t| - TrailingWhitespace(t)];
    assert r != [] ==> r[0] == s[k];
    assert k < |s| ==> r != [] by {
      if k < |s| {
        assert t[0] == s[k];
      }
    }
    r
  }

  /** `trim` removes only whitespace, and only at the ends. */
  lemma TrimIsInfix(s: string)
    ensures exists i, j {:trigger s[i..j]} ::
              && 0 <= i <= j <= |s|
              && Trim(s) == s[i..j]
              && (forall k :: 0 <= k < i ==> IsWhitespace(s[k]))
              && (forall k :: j <= k < |s| ==> IsWhitespace(s[k]))
  {
    var i := LeadingWhitespace(s);
    var t := s[i..];
    var j := i + |t| - TrailingWhitespace(t);
    assert Trim(s) == s[i..j];
    forall k | j <= k < |s| ensures IsWhitespace(s[k]) {
      assert s[k] == t[k - i];
    }
  }

  /** A string that neither starts nor ends with whitespace is already
      trimmed. */
  lemma TrimUnchanged(s: string)
    requires s == [] || (!IsWhitespace(s[0]) && !IsWhitespace(s[|s| - 1]))
    ensures Trim(s) == s
  {
  }

  // ---------------------------------------------------------------------------
  // indexOf and lastIndexOf
  // ---------------------------------------------------------------------------

  /** `s.indexOf(c)`: the first position of `c`, or -1. */
  function IndexOf(s: string, c: char): (i: int)
    ensures -1 <= i < |s|
    ensures i == -1 <==> c !in s
    ensures 0 <= i ==> s[i] == c && c !in s[..i]
    decreases |s|
  {
    if s == [] then -1
    else if s[0] == c then 0
    else
      var j := IndexOf(s[1..], c);
      assert 0 <= j ==> s[..j + 1] == [s[0]] + s[1..][..j];
      if j == -1 then -1 else j + 1
  }

  /** `s.lastIndexOf(c)`: the last position of `c`, or -1. */
  function LastIndexOf(s: string, c: char): (i: int)
    ensures -1 <= i < |s|
    ensures i == -1 <==> c !in s
    ensures 0 <= i ==> s[i] == c && c !in s[i + 1..]
    decreases |s|
  {
    if s == [] then -1
    else if s[|s| - 1] == c then |s| - 1
    else
      var s' := s[..|s| - 1];
      assert s == s' + [s[|s| - 1]];
      var j := LastIndexOf(s', c);
      assert 0 <= j ==> s[j + 1..] == s'[j + 1..] + [s[|s| - 1]];
      j
  }

  // ---------------------------------------------------------------------------
  // parseInt(s, 10)
  // ---------------------------------------------------------------------------

  /** How many decimal digits `s` starts with. */
  function LeadingDigits(s: string): (k: nat)
    ensures k <= |s|
    ensures forall i :: 0 <= i < k ==> IsDigit(s[i])
    ensures k < |s| ==> !IsDigit(s[k])
    decreases |s|
  {
    if s != [] && IsDigit(s[0]) then 1 + LeadingDigits(s[1..]) else 0
  }

  /** The value of a string of decimal digits. */
  function DigitsValue(d: string): nat
    requires forall i :: 0 <= i < |d| ==> IsDigit(d[i])
    decreases |d|
  {
    if d == [] then 0
    else
      assert IsDigit(d[|d| - 1]);
      DigitsValue(d[..|d| - 1]) * 10 + (d[|d| - 1] as int - '0' as int)
  }

  /** `parseInt(s, 10)`: skip leading whitespace, read an optional sign and
      then the longest run of decimal digits; no digit at all gives NaN,
      modelled as `None`. */
  function ParseInt(s: string): Option<int> {
    ParseSigned(TrimStart(s))
  }

  /** An optional sign, then digits. */
  function ParseSigned(t: string): Option<int> {
    if |t| > 0 && t[0] == '-' then
      var magnitude := ParseDigits(t[1..]);
      if magnitude.Some? then Some(-magnitude.value) else None
    else if |t| > 0 && t[0] == '+' then ParseDigits(t[1..])
    else ParseDigits(t)
  }

  /** The value of the longest run of leading digits, if there is one. */
  function ParseDigits(body: string): Option<int> {
    var k := LeadingDigits(body);
    if k == 0 then None else Some(DigitsValue(body[..k]))
  }

  /** The decimal numeral of `n`, as `String(n)` writes it. */
  function Decimal(n: nat): (d: string)
    ensures |d| > 0
    ensures forall i :: 0 <= i < |d| ==> IsDigit(d[i])
    decreases n
  {
    var last := ('0' as int + n % 10) as char;
    if n < 10 then [last] else Decimal(n / 10) + [last]
  }

  /** The digits of `Decimal(n)` are worth `n`. */
  lemma {:induction false} DecimalValue(n: nat)
    ensures DigitsValue(Decimal(n)) == n
    decreases n
  {
    var d := Decimal(n);
    if n >= 10 {
      DecimalValue(n / 10);
      assert d[..|d| - 1] == Decimal(n / 10);
    } else {
      assert d[..0] == [];
    }
  }

  /** Round trip: `parseInt(String(n), 10) == n`, and a character that is not
      a digit ends the numeral. */
  lemma ParseDecimal(n: nat, rest: string)
    requires rest == [] || !IsDigit(rest[0])
    ensures ParseInt(Decimal(n) + rest) == Some(n)
  {
    var d := Decimal(n);
    var s := d + rest;
    assert LeadingWhitespace(s) == 0;
    assert TrimStart(s) == s;
    assert LeadingDigits(s) == |d| by {
      assert forall i :: 0 <= i < |d| ==> s[i] == d[i];
      if |d| < |s| { assert s[|d|] == rest[0]; }
      LeadingDigitsExact(s, |d|);
    }
    assert s[..|d|] == d;
    DecimalValue(n);
  }

  /** `LeadingDigits` is the length of the longest run of digits. */
  lemma {:induction false} LeadingDigitsExact(s: string, k: nat)
    requires k <= |s|
    requires forall i :: 0 <= i < k ==> IsDigit(s[i])
    requires k < |s| ==> !IsDigit(s[k])
    ensures LeadingDigits(s) == k
    decreases k
  {
    if k > 0 {
      LeadingDigitsExact(s[1..], k - 1);
    }
  }
}
