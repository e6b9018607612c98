/** The string validation library of project-assignment-4: a namespace of total
    predicates over strings, numbers and dates. The source's loops that build
    a string or scan one are methods here, each proved against a predicate
    that says what it decides; the source's expressions are functions over
    those predicates. */
module Validator {
  import opened Wrappers
  import opened Text

  // ===========================================================================
  // Utility functions
  // ===========================================================================

  /** `isNumber` applied to a one-character string: unary `+` reads a digit as
      its value and a whitespace character as 0, and `n - n + 1 >= 0` holds of
      every finite number; any other character reads as NaN. */
  predicate IsNumberChar(c: char) {
    IsDigit(c) || IsWhitespace(c)
  }

  function Pow2(n: nat): nat {
    if n == 0 then 1 else 2 * Pow2(n - 1)
  }

  /** What the loop of `recur(prefix, arr)` inside `combination` pushes from
      index `i` on: for each later index, the extended prefix and then
      everything the recursive call on the rest of the array pushes. */
  function Combos(prefix: string, arr: seq<string>, i: nat): seq<string>
    requires i <= |arr|
    decreases |arr|, |arr| - i
  {
    if i == |arr| then []
    else [prefix + arr[i]] + Combos(prefix + arr[i], arr[i + 1..], 0) + Combos(prefix, arr, i + 1)
  }

  /** `combination` of n strings yields 2^n - 1 concatenations. */
  lemma {:induction false} CombosCount(prefix: string, arr: seq<string>, i: nat)
    requires i <= |arr|
    ensures |Combos(prefix, arr, i)| == Pow2(|arr| - i) - 1
    decreases |arr|, |arr| - i
  {
    if i < |arr| {
      CombosCount(prefix + arr[i], arr[i + 1..], 0);
      CombosCount(prefix, arr, i + 1);
    }
  }

  /** Every single element, behind the prefix, is among the combinations. */
  lemma {:induction false} CombosHasSingles(prefix: string, arr: seq<string>, i: nat, j: nat)
    requires i <= j < |arr|
    ensures prefix + arr[j] in Combos(prefix, arr, i)
    decreases |arr| - i
  {
    if i < j {
      CombosHasSingles(prefix, arr, i + 1, j);
    }
  }

  /** The strings `mask` picks from `arr`, concatenated in array order. */
  function Picked(arr: seq<string>, mask: seq<bool>): string
    requires |mask| == |arr|
    decreases |arr|
  {
    if arr == [] then "" else (if mask[0] then arr[0] else "") + Picked(arr[1..], mask[1..])
  }

  /** A combination of `arr`: some non-empty choice of its strings,
      concatenated in array order. */
  ghost predicate IsCombination(arr: seq<string>, x: string) {
    exists mask :: |mask| == |arr| && true in mask && x == Picked(arr, mask)
  }

  lemma {:induction false} PickedNone(arr: seq<string>, mask: seq<bool>)
    requires |mask| == |arr| && true !in mask
    ensures Picked(arr, mask) == ""
    decreases |arr|
  {
    if arr != [] {
      assert true !in mask[1..];
      PickedNone(arr[1..], mask[1..]);
    }
  }

  lemma {:induction false} PickedSkip(arr: seq<string>, mask: seq<bool>, i: nat)
    requires |mask| == |arr| && i <= |arr|
    requires forall k :: 0 <= k < i ==> !mask[k]
    ensures Picked(arr, mask) == Picked(arr[i..], mask[i..])
    decreases i
  {
    if i > 0 {
      PickedSkip(arr[1..], mask[1..], i - 1);
      assert arr[1..][i - 1..] == arr[i..];
      assert mask[1..][i - 1..] == mask[i..];
    }
  }

  /** With nothing picked before `i` and `arr[i]` picked, the combination
      starts with `arr[i]`. */
  lemma PickedFrom(arr: seq<string>, mask: seq<bool>, i: nat)
    requires |mask| == |arr| && i < |arr|
    requires forall k :: 0 <= k < i ==> !mask[k]
    requires mask[i]
    ensures Picked(arr, mask) == arr[i] + Picked(arr[i + 1..], mask[i + 1..])
  {
    PickedSkip(arr, mask, i);
    assert arr[i..][1..] == arr[i + 1..];
    assert mask[i..][1..] == mask[i + 1..];
  }

  /** Every choice whose first picked string is at `i` or later is pushed by
      `recur(prefix, arr)` from index `i` on. */
  lemma {:induction false} CombosComplete(prefix: string, arr: seq<string>, i: nat, mask: seq<bool>)
    requires i <= |arr| && |mask| == |arr|
    requires forall k :: 0 <= k < i ==> !mask[k]
    requires true in mask
    ensures prefix + Picked(arr, mask) in Combos(prefix, arr, i)
    decreases |arr|, |arr| - i
  {
    var j :| 0 <= j < |mask| && mask[j];
    assert i <= j;
    if !mask[i] {
      CombosComplete(prefix, arr, i + 1, mask);
    } else {
      PickedFrom(arr, mask, i);
      var rest := mask[i + 1..];
      if true in rest {
        CombosComplete(prefix + arr[i], arr[i + 1..], 0, rest);
        assert prefix + Picked(arr, mask) == (prefix + arr[i]) + Picked(arr[i + 1..], rest);
      } else {
        PickedNone(arr[i + 1..], rest);
        assert prefix + Picked(arr, mask) == prefix + arr[i];
      }
    }
  }

  /** Everything `recur(prefix, arr)` pushes from index `i` on is the prefix
      followed by a choice whose first picked string is at `i` or later. */
  lemma {:induction false} CombosSound(prefix: string, arr: seq<string>, i: nat, x: string)
    returns (mask: seq<bool>)
    requires i <= |arr|
    requires x in Combos(prefix, arr, i)
    ensures |mask| == |arr| && true in mask
    ensures forall k :: 0 <= k < i ==> !mask[k]
    ensures x == prefix + Picked(arr, mask)
    decreases |arr|, |arr| - i
  {
    var inner := Combos(prefix + arr[i], arr[i + 1..], 0);
    if x in Combos(prefix, arr, i + 1) {
      mask := CombosSound(prefix, arr, i + 1, x);
    } else {
      var rest: seq<bool>;
      if x == prefix + arr[i] {
        rest := seq(|arr| - i - 1, _ => false);
        PickedNone(arr[i + 1..], rest);
      } else {
        assert x in inner;
        rest := CombosSound(prefix + arr[i], arr[i + 1..], 0, x);
      }
      mask := seq(i, _ => false) + [true] + rest;
      assert mask[i] && mask[i + 1..] == rest;
      PickedFrom(arr, mask, i);
    }
  }

  /** `combination(arr)` holds exactly the combinations of `arr`. */
  lemma CombosMembers(arr: seq<string>, x: string)
    ensures x in Combos("", arr, 0) <==> IsCombination(arr, x)
  {
    if x in Combos("", arr, 0) {
      var mask := CombosSound("", arr, 0, x);
      assert x == Picked(arr, mask);
    }
    if IsCombination(arr, x) {
      var mask :| |mask| == |arr| && true in mask && x == Picked(arr, mask);
      CombosComplete("", arr, 0, mask);
      assert "" + Picked(arr, mask) == x;
    }
  }

  /** `combination(arr)`: the shared `result` array after `recur('', arr)`. */
  method Combination(arr: seq<string>) returns (result: seq<string>)
    ensures result == Combos("", arr, 0)
    ensures forall x :: x in result <==> IsCombination(arr, x)
    ensures |result| == Pow2(|arr|) - 1
    ensures forall j :: 0 <= j < |arr| ==> arr[j] in result
  {
    result := Recur([], "", arr);
    forall x ensures x in result <==> IsCombination(arr, x) {
      CombosMembers(arr, x);
    }
    CombosCount("", arr, 0);
    forall j | 0 <= j < |arr| ensures arr[j] in result {
      CombosHasSingles("", arr, 0, j);
      assert "" + arr[j] == arr[j];
    }
  }

  /** `recur(prefix, arr)`, with the shared `result` array passed in and
      handed back. */
  method Recur(result0: seq<string>, prefix: string, arr: seq<string>) returns (result: seq<string>)
    ensures result == result0 + Combos(prefix, arr, 0)
    decreases |arr|
  {
    result := result0;
    for i := 0 to |arr|
      invariant result + Combos(prefix, arr, i) == result0 + Combos(prefix, arr, 0)
    {
      ghost var rest := Combos(prefix, arr, i + 1);
      ghost var inner := Combos(prefix + arr[i], arr[i + 1..], 0);
      assert result + Combos(prefix, arr, i) == result + [prefix + arr[i]] + inner + rest;
      result := result + [prefix + arr[i]];
      result := Recur(result, prefix + arr[i], arr[i + 1..]);
      assert result + rest == result0 + Combos(prefix, arr, 0);
    }
  }

  /** `dashToSpace`: every '-' becomes a space. */
  function DashSpaced(s: string): string {
    seq(|s|, i requires 0 <= i < |s| => if s[i] == '-' then ' ' else s[i])
  }

  /** `dashToSpace(str)`, as its loop builds `norm`. */
  method DashToSpace(str: string) returns (norm: string)
    ensures norm == DashSpaced(str)
    ensures |norm| == |str| && '-' !in norm
  {
    norm := "";
    for i := 0 to |str|
      invariant |norm| == i
      invariant forall k :: 0 <= k < i ==> norm[k] == if str[k] == '-' then ' ' else str[k]
    {
      if str[i] != '-' {
        norm := norm + [str[i]];
      } else {
        norm := norm + " ";
      }
    }
  }

  /** The characters of the `disallow` pattern of `withoutSymbols`, with the
      string-literal escapes resolved. */
  const Symbols: set<char> :=
    {'[', '&', '/', '\\', '#', ',', '+', '(', ')', '$', '~', '%', '.', '!', '^',
     '\'', '"', ';', ':', '*', '?', ']', '<', '>', '{', '}', '@'}

  /** `withoutSymbols`: the input with every symbol deleted; nothing else is
      deleted and nothing is reordered. */
  function WithoutSymbols(input: string): string {
    Drop(input, Symbols)
  }

  /** `withoutSymbols` deletes every symbol and keeps every other character
      as often as it occurs. */
  lemma WithoutSymbolsKeeps(input: string)
    ensures forall c :: c in WithoutSymbols(input) ==> c !in Symbols
    ensures forall c :: c !in Symbols ==> multiset(WithoutSymbols(input))[c] == multiset(input)[c]
  {
    SelectCounts(input, Symbols, false);
  }

  /** `withoutSymbols` only deletes: pieces are filtered independently. */
  lemma WithoutSymbolsConcat(a: string, b: string)
    ensures WithoutSymbols(a + b) == WithoutSymbols(a) + WithoutSymbols(b)
  {
    SelectConcat(a, b, Symbols, false);
  }

  // ===========================================================================
  // isEmailAddress
  // ===========================================================================

  predicate HasDoubleDot(s: string) {
    exists i :: 0 <= i < |s| - 1 && s[i] == '.' && s[i + 1] == '.'
  }

  /** `isEmailAddress`, with `input[at + 1]` read as `undefined` (which is not
      '.') past the end. */
  predicate IsEmailAddress(input: string) {
    if IndexOf(input, '@') == -1 || IndexOf(input, '.') == -1 then false
    else
      var at := IndexOf(input, '@');
      var dot := LastIndexOf(input, '.');
      && |input| > 0
      && at > 0
      && dot > at
      && (at + 1 >= |input| || input[at + 1] != '.')
      && IndexOf(input, ' ') == -1
      && !HasDoubleDot(input)
  }

  /** The address shape in words: the first '@' is not the first character,
      some '.' follows it, the character right after it is not '.', and there
      is no space and no "..". Later '@' characters are allowed. */
  ghost predicate EmailShape(s: string) {
    exists at, dot ::
      && 0 < at < dot < |s|
      && s[at] == '@' && '@' !in s[..at]
      && s[dot] == '.'
      && s[at + 1] != '.'
      && ' ' !in s
      && !HasDoubleDot(s)
  }

  lemma EmailAddressShape(s: string)
    ensures IsEmailAddress(s) <==> EmailShape(s)
  {
    if IsEmailAddress(s) {
      EmailShapeOfAddress(s);
    }
    if EmailShape(s) {
      var at, dot :| && 0 < at < dot < |s|
                     && s[at] == '@' && '@' !in s[..at]
                     && s[dot] == '.'
                     && s[at + 1] != '.'
                     && ' ' !in s
                     && !HasDoubleDot(s);
      AddressOfEmailShape(s, at, dot);
    }
  }

  lemma EmailShapeOfAddress(s: string)
    requires IsEmailAddress(s)
    ensures EmailShape(s)
  {
    var at, dot := IndexOf(s, '@'), LastIndexOf(s, '.');
    assert 0 < at < dot < |s| && s[at] == '@' && '@' !in s[..at] && s[dot] == '.';
  }

  lemma AddressOfEmailShape(s: string, at: int, dot: int)
    requires 0 < at < dot < |s|
    requires s[at] == '@' && '@' !in s[..at]
    requires s[dot] == '.' && s[at + 1] != '.'
    requires ' ' !in s && !HasDoubleDot(s)
    ensures IsEmailAddress(s)
  {
    assert IndexOf(s, '@') == at;
    assert LastIndexOf(s, '.') >= dot;
  }

  /** Several '@' are not rejected. */
  lemma EmailAllowsSeveralAts()
    ensures IsEmailAddress("a@b@c.de")
  {
    var s := "a@b@c.de";
    assert '@' !in s[..1];
    assert !HasDoubleDot(s);
    assert 0 < 1 < 5 < |s| && s[1] == '@' && s[5] == '.' && s[2] != '.' && ' ' !in s;
    EmailAddressShape(s);
  }

  // ===========================================================================
  // isPhoneNumber
  // ===========================================================================

  /** The `disallow` characters of `isPhoneNumber`. */
  const PhoneSeparators: set<char> := {'+', '(', ')', '-', ' '}

  /** The carrier prefixes `isPhoneNumber` accepts on ten characters: "1800"
      and "1300", or '0' followed by '3' or '1'. */
  predicate PhonePrefix(arr: string)
    requires |arr| == 10
  {
    if arr[0] == '1' then arr[1..4] == "800" || arr[1..4] == "300"
    else if arr[0] == '0' then arr[1] == '3' || arr[1] == '1'
    else false
  }

  /** `isPhoneNumber`, with `isNumber` as the source computes it on each
      remaining character. */
  predicate IsPhoneNumber(input: string) {
    var arr := Drop(input, PhoneSeparators);
    && (forall i :: 0 <= i < |arr| ==> IsNumberChar(arr[i]))
    && |arr| == 10
    && PhonePrefix(arr)
  }

  /** `isPhoneNumber(input)` with its loop over the remaining characters,
      which rejects at the first one `isNumber` refuses. */
  method CheckPhoneNumber(input: string) returns (ok: bool)
    ensures ok == IsPhoneNumber(input)
  {
    var arr := Drop(input, PhoneSeparators);
    for i := 0 to |arr|
      invariant forall j :: 0 <= j < i ==> IsNumberChar(arr[j])
    {
      if !IsNumberChar(arr[i]) {
        return false;
      }
    }
    ok := |arr| == 10 && PhonePrefix(arr);
  }

  /** Separators may stand anywhere: adding or removing one never changes the
      verdict. */
  lemma PhoneIgnoresSeparators(a: string, b: string, c: char)
    requires c in PhoneSeparators
    ensures IsPhoneNumber(a + [c] + b) == IsPhoneNumber(a + b)
  {
    DropSkips(a, b, c, PhoneSeparators);
  }

  lemma DropSkips(a: string, b: string, c: char, cs: set<char>)
    requires c in cs
    ensures Drop(a + [c] + b, cs) == Drop(a + b, cs)
  {
    SelectConcat(a + [c], b, cs, false);
    SelectConcat(a, [c], cs, false);
    SelectConcat(a, b, cs, false);
    SelectChar(c, cs, false);
  }

  /** An accepted number is ten number characters, once separators are
      removed, with one of the accepted prefixes. */
  lemma PhoneNumberShape(input: string)
    requires IsPhoneNumber(input)
    ensures var arr := Drop(input, PhoneSeparators);
      && |arr| == 10
      && (forall i :: 0 <= i < 10 ==> IsNumberChar(arr[i]))
      && (arr[..4] == "1800" || arr[..4] == "1300" || arr[..2] == "03" || arr[..2] == "01")
  {
    var arr := Drop(input, PhoneSeparators);
    if arr[0] == '1' {
      assert arr[..4] == [arr[0]] + arr[1..4];
    } else {
      assert arr[..2] == [arr[0], arr[1]];
    }
  }

  /** `isPhoneNumber` as evidently intended: only decimal digits besides the
      separators. */
  predicate IsDigitPhoneNumber(input: string) {
    var arr := Drop(input, PhoneSeparators);
    && (forall i :: 0 <= i < |arr| ==> IsDigit(arr[i]))
    && |arr| == 10
    && PhonePrefix(arr)
  }

  /** As written, `isNumber` accepts a tab (unary `+` reads it as 0), so a
      "1800" followed by six tabs passes as a phone number. */
  lemma PhoneAcceptsTabs(s: string)
    requires s == "1800" + seq(6, _ => '\t')
    ensures IsPhoneNumber(s)
    ensures !IsDigitPhoneNumber(s)
  {
    assert forall i :: 0 <= i < |s| ==> s[i] == '\t' || IsDigit(s[i]);
    DropNone(s, PhoneSeparators);
    assert s[1..4] == [s[1], s[2], s[3]];
    assert PhonePrefix(s);
    assert !IsDigit(s[4]);
  }

  /** A string without separators is left as it is by the phone check. */
  lemma DropNone(s: string, cs: set<char>)
    requires forall i :: 0 <= i < |s| ==> s[i] !in cs
    ensures Drop(s, cs) == s
  {
    SelectAll(s, cs, false);
  }

  /** The corrected check accepts exactly the ten-digit numbers the source
      accepts: it only rejects numbers padded with whitespace. */
  lemma DigitPhoneNumberIsStrict(input: string)
    ensures IsDigitPhoneNumber(input) ==> IsPhoneNumber(input)
    ensures IsDigitPhoneNumber(input) ==>
      forall c :: c in Drop(input, PhoneSeparators) ==> IsDigit(c)
    ensures IsPhoneNumber(input) && (forall i :: 0 <= i < |input| ==> !IsWhitespace(input[i]))
        ==> IsDigitPhoneNumber(input)
  {
    var arr := Drop(input, PhoneSeparators);
    SelectCounts(input, PhoneSeparators, false);
    if IsPhoneNumber(input) && (forall i :: 0 <= i < |input| ==> !IsWhitespace(input[i])) {
      forall i | 0 <= i < |arr| ensures IsDigit(arr[i]) {
        assert arr[i] in arr;
        assert arr[i] in input;
      }
    }
  }

  // ===========================================================================
  // Dates
  // ===========================================================================

  /** What `new Date(v)` yields: a time value, or an invalid date (one whose
      `getMonth()` is NaN). */
  datatype Date = Invalid | Valid(time: int)

  /** `isDate`, once the argument is parsed. */
  predicate IsDate(d: Date) {
    d.Valid?
  }

  /** `isBeforeDate`: `None` stands for the `TypeError` thrown when either
      argument is not a date. */
  function IsBeforeDate(input: Date, reference: Date): Option<bool> {
    if !IsDate(input) || !IsDate(reference) then None
    else Some(reference.time > input.time)
  }

  /** `isAfterDate`: the negation of `isBeforeDate`, which propagates its
      error. */
  function IsAfterDate(input: Date, reference: Date): Option<bool> {
    match IsBeforeDate(input, reference)
    case None => None
    case Some(before) => Some(!before)
  }

  /** Both comparisons fail on an invalid date; on valid ones "before" is
      strict and "after" is not: equal dates are "after". */
  lemma DateComparisons(input: Date, reference: Date)
    ensures IsBeforeDate(input, reference).None? <==> !IsDate(input) || !IsDate(reference)
    ensures IsAfterDate(input, reference).None? <==> !IsDate(input) || !IsDate(reference)
    ensures IsDate(input) && IsDate(reference) ==>
      && IsBeforeDate(input, reference) == Some(input.time < reference.time)
      && IsAfterDate(input, reference) == Some(input.time >= reference.time)
  {
  }

  // ===========================================================================
  // isEmpty
  // ===========================================================================

  /** `isEmpty`: `None` is `undefined` or `null`, which are not empty. */
  predicate IsEmpty(input: Option<string>) {
    match input
    case None => false
    case Some(s) => Trim(s) == [] || s == " "
  }

  /** A string is empty exactly when it is all whitespace. */
  lemma EmptyMeansBlank(s: string)
    ensures IsEmpty(Some(s)) <==> forall i :: 0 <= i < |s| ==> IsWhitespace(s[i])
    ensures !IsEmpty(None)
  {
  }

  // ===========================================================================
  // contains, lacks
  // ===========================================================================

  /** Each piece of the split input, without its symbols and lowered. */
  function Normalised(parts: seq<string>): (tokens: seq<string>)
    ensures |tokens| == |parts|
    ensures forall i :: 0 <= i < |parts| ==> tokens[i] == Lower(WithoutSymbols(parts[i]))
  {
    seq(|parts|, i requires 0 <= i < |parts| => Lower(WithoutSymbols(parts[i])))
  }

  /** The tokens `contains` compares against: dashes become spaces, the
      result is split on spaces, and each piece loses its symbols and is
      lowered. */
  function Tokens(input: string): (tokens: seq<string>)
    ensures |tokens| >= 1
  {
    Normalised(Split(DashSpaced(input), ' '))
  }

  /** What `contains(input, words)` decides: some word, lowered, is a
      token. */
  predicate ContainsWord(input: string, words: seq<string>) {
    exists i :: 0 <= i < |words| && Lower(words[i]) in Tokens(input)
  }

  /** `contains(input, words)`, as its loop over `words` returns early. */
  method Contains(input: string, words: seq<string>) returns (found: bool)
    ensures found == ContainsWord(input, words)
  {
    var norm := DashToSpace(input);
    var arr := Normalised(Split(norm, ' '));
    assert arr == Tokens(input);
    for i := 0 to |words|
      invariant forall j :: 0 <= j < i ==> Lower(words[j]) !in arr
    {
      if Lower(words[i]) in arr {
        assert Lower(words[i]) in Tokens(input);
        return true;
      }
    }
    assert forall j :: 0 <= j < |words| ==> Lower(words[j]) !in Tokens(input);
    return false;
  }

  /** `lacks`: the negation of `contains`. */
  predicate Lacks(input: string, words: seq<string>) {
    !ContainsWord(input, words)
  }

  /** A lower-case word without symbols, spaces or dashes that stands between
      spaces in the input is found. */
  lemma ContainsStandaloneWord(a: string, w: string, b: string, words: seq<string>)
    requires w in words
    requires forall i :: 0 <= i < |w| ==>
      w[i] !in Symbols && w[i] != ' ' && w[i] != '-' && !('A' <= w[i] <= 'Z')
    ensures ContainsWord(a + " " + w + " " + b, words)
    ensures !Lacks(a + " " + w + " " + b, words)
  {
    var s := a + " " + w + " " + b;
    var A, B := DashSpaced(a), DashSpaced(b);
    assert DashSpaced(w) == w;
    assert DashSpaced(s) == A + [' '] + (w + [' '] + B);
    SplitAt(A, w + [' '] + B, ' ');
    SplitAt(w, B, ' ');
    SplitNoSeparator(w, ' ');
    var parts := Split(DashSpaced(s), ' ');
    var k := |Split(A, ' ')|;
    assert parts == Split(A, ' ') + ([w] + Split(B, ' '));
    assert parts[k] == w;
    SelectAll(w, Symbols, false);
    LowerUnchanged(w);
    assert Tokens(s)[k] == w;
    var i :| 0 <= i < |words| && words[i] == w;
    assert Lower(words[i]) in Tokens(s);
  }

  /** A dash separates words exactly as a space does. */
  lemma ContainsDashIsSpace(a: string, b: string, words: seq<string>)
    ensures ContainsWord(a + "-" + b, words) == ContainsWord(a + " " + b, words)
  {
    assert DashSpaced(a + "-" + b) == DashSpaced(a + " " + b);
  }

  /** Looking for two lists of words is looking for either; `lacks` needs
      both to be absent. */
  lemma ContainsEither(input: string, words1: seq<string>, words2: seq<string>)
    ensures ContainsWord(input, words1 + words2) <==> ContainsWord(input, words1) || ContainsWord(input, words2)
    ensures Lacks(input, words1 + words2) <==> Lacks(input, words1) && Lacks(input, words2)
  {
    var ws := words1 + words2;
    if ContainsWord(input, words1) {
      var i :| 0 <= i < |words1| && Lower(words1[i]) in Tokens(input);
      assert ws[i] == words1[i];
    }
    if ContainsWord(input, ws) {
      var i :| 0 <= i < |ws| && Lower(ws[i]) in Tokens(input);
      if i >= |words1| {
        assert words2[i - |words1|] == ws[i];
      }
    }
    if ContainsWord(input, words2) {
      var i :| 0 <= i < |words2| && Lower(words2[i]) in Tokens(input);
      assert ws[|words1| + i] == words2[i];
    }
  }

  // ===========================================================================
  // isComposedOf
  // ===========================================================================

  /** What `isComposedOf(input, strings)` returns; `None` is the `undefined`
      it falls off the end with when the normalised input is empty and "" is
      not a combination. Several space-separated tokens must all be among
      `strings`. A single token passes when it is a combination of `strings`
      or when its FIRST character is one of `strings`: the character loop
      returns in its first iteration. */
  function ComposedOf(input: string, strings: seq<string>): Option<bool> {
    var norm := DashSpaced(WithoutSymbols(input));
    var arr := Split(norm, ' ');
    if |arr| == 1 then
      if norm in Combos("", strings, 0) then Some(true)
      else if norm != [] then Some([norm[0]] in strings)
      else None
    else Some(forall i :: 0 <= i < |arr| ==> arr[i] in strings)
  }

  /** `isComposedOf`, calling `combination` and `dashToSpace` as the source
      does. */
  method IsComposedOf(input: string, strings: seq<string>) returns (r: Option<bool>)
    ensures r == ComposedOf(input, strings)
  {
    var norm := DashToSpace(WithoutSymbols(input));
    var arr := Split(norm, ' ');
    if |arr| == 1 {
      var combi := Combination(strings);
      if norm in combi {
        return Some(true);
      }
      // The loop over the characters of `norm` returns in its first
      // iteration, on the first character alone.
      if |norm| > 0 {
        return Some([norm[0]] in strings);
      }
    }
    if |arr| > 1 {
      for k := 0 to |arr|
        invariant forall j :: 0 <= j < k ==> arr[j] in strings
      {
        if arr[k] !in strings {
          return Some(false);
        }
      }
      return Some(true);
    }
    return None;
  }

  /** A word that normalisation leaves alone: no symbol, space or dash. */
  predicate Plain(w: string) {
    forall i :: 0 <= i < |w| ==> w[i] !in Symbols && w[i] != ' ' && w[i] != '-'
  }

  lemma PlainNormalised(w: string)
    requires Plain(w)
    ensures WithoutSymbols(w) == w
    ensures DashSpaced(WithoutSymbols(w)) == w
    ensures Split(w, ' ') == [w]
  {
    SelectAll(w, Symbols, false);
    assert DashSpaced(w) == w;
    SplitNoSeparator(w, ' ');
  }

  /** A string without dashes is its own `dashToSpace`. */
  lemma DashSpacedNone(s: string)
    requires '-' !in s
    ensures DashSpaced(s) == s
  {
  }

  lemma SpaceKept()
    ensures WithoutSymbols(" ") == " "
  {
    SelectChar(' ', Symbols, false);
  }

  /** Normalisation leaves two plain words and the space between them
      alone. */
  lemma NormalisedSpaced(a: string, b: string)
    requires Plain(a) && Plain(b)
    ensures DashSpaced(WithoutSymbols(a + " " + b)) == a + " " + b
  {
    PlainNormalised(a);
    PlainNormalised(b);
    WithoutSymbolsSpaced(a, b);
    PlainSpacedNoDash(a, b);
    DashSpacedNone(a + " " + b);
  }

  lemma PlainSpacedNoDash(a: string, b: string)
    requires Plain(a) && Plain(b)
    ensures '-' !in a + " " + b
  {
    var s := a + " " + b;
    forall i | 0 <= i < |s| ensures s[i] != '-' {
      if i < |a| {
        assert s[i] == a[i];
      } else if i > |a| {
        assert s[i] == b[i - |a| - 1];
      }
    }
  }

  lemma WithoutSymbolsSpaced(a: string, b: string)
    requires WithoutSymbols(a) == a && WithoutSymbols(b) == b
    ensures WithoutSymbols(a + " " + b) == a + " " + b
  {
    WithoutSymbolsConcat(a + " ", b);
    WithoutSymbolsConcat(a, " ");
    SpaceKept();
  }

  /** An input that is one of the allowed strings is composed of them. */
  lemma ComposedOfOneString(s: string, strings: seq<string>)
    requires s in strings
    requires Plain(s)
    ensures ComposedOf(s, strings) == Some(true)
  {
    PlainNormalised(s);
    var j :| 0 <= j < |strings| && strings[j] == s;
    CombosHasSingles("", strings, 0, j);
    assert "" + strings[j] == s;
  }

  /** Two words separated by a space: each must be one of the allowed
      strings. */
  lemma ComposedOfTokens(a: string, b: string, strings: seq<string>)
    requires Plain(a) && Plain(b)
    ensures ComposedOf(a + " " + b, strings) == Some(a in strings && b in strings)
  {
    NormalisedSpaced(a, b);
    PlainNormalised(a);
    PlainNormalised(b);
    SplitAt(a, b, ' ');
    assert Split(a + " " + b, ' ') == [a] + [b] == [a, b];
    BothIn(a, b, strings);
  }

  lemma BothIn(a: string, b: string, strings: seq<string>)
    ensures (forall i :: 0 <= i < |[a, b]| ==> [a, b][i] in strings) <==> a in strings && b in strings
  {
    var arr := [a, b];
    if a in strings && b in strings {
      forall i | 0 <= i < |arr| ensures arr[i] in strings {
        if i == 1 { assert arr[1] == b; }
      }
    }
    assert arr[0] == a && arr[1] == b;
  }

  /** As written, a single word passes when it is a combination or on its
      first character alone: the character loop returns in its first
      iteration whatever it finds. */
  lemma ComposedOfFirstCharacterOnly(w: string, strings: seq<string>)
    requires Plain(w) && w != []
    ensures ComposedOf(w, strings) == Some(w in Combos("", strings, 0) || [w[0]] in strings)
  {
    PlainNormalised(w);
  }

  /** `isComposedOf` as evidently intended: a single word that is not a
      combination of `strings` passes when every one of its characters is
      one of `strings`. */
  function ComposedOfEveryChar(input: string, strings: seq<string>): Option<bool> {
    var norm := DashSpaced(WithoutSymbols(input));
    var arr := Split(norm, ' ');
    if |arr| == 1 then
      if norm in Combos("", strings, 0) then Some(true)
      else if norm != [] then Some(forall i :: 0 <= i < |norm| ==> [norm[i]] in strings)
      else None
    else Some(forall i :: 0 <= i < |arr| ==> arr[i] in strings)
  }

  /** The corrected check accepts a single word only when it is a
      combination or spelled from `strings` character by character; it
      agrees with the code as written on everything else. */
  lemma ComposedOfEveryCharSound(w: string, strings: seq<string>)
    requires Plain(w)
    requires w != []
    ensures ComposedOfEveryChar(w, strings) ==
      Some(w in Combos("", strings, 0) || forall i :: 0 <= i < |w| ==> [w[i]] in strings)
    ensures ComposedOfEveryChar(w, strings) == Some(true) ==> ComposedOf(w, strings) == Some(true)
  {
    PlainNormalised(w);
    ComposedOfFirstCharacterOnly(w, strings);
  }

  /** The two differ on any two different plain characters, "ab" against
      ["a"] say: the code accepts the word, the corrected check does not. */
  lemma ComposedOfDiffers(x: char, y: char)
    requires x != y && Plain([x, y])
    ensures ComposedOf([x, y], [[x]]) == Some(true)
    ensures ComposedOfEveryChar([x, y], [[x]]) == Some(false)
  {
    var w := [x, y];
    ComposedOfFirstCharacterOnly(w, [[x]]);
    ComposedOfEveryCharSound(w, [[x]]);
    CombosOfOne([x]);
    assert w !in [[x]];
    assert [w[1]] !in [[x]];
  }

  lemma CombosOfOne(s: string)
    ensures Combos("", [s], 0) == [s]
  {
    var strings := [s];
    assert "" + strings[0] == s;
    assert Combos(s, strings[1..], 0) == [];
  }

  // ===========================================================================
  // Lengths and word counts
  // ===========================================================================

  /** `isLength`: at most `n` characters. */
  predicate IsLength(input: string, n: int) {
    |input| <= n
  }

  /** `isOfLength`: at least `n` characters. */
  predicate IsOfLength(input: string, n: int) {
    |input| >= n
  }

  /** The characters `countWords` turns into spaces: its `puncs` list less
      the apostrophe, which sits at index 0 and so fails the `> 0` test,
      and less `undefined`, which is no character. */
  const WordSeparators: set<char> :=
    {'(', ')', ':', ',', '!', '.', '-', '?', ';', '"', ' '}

  /** The `norm` string `countWords` builds. */
  function SeparatorsToSpace(s: string): (r: string)
    ensures |r| == |s|
  {
    seq(|s|, i requires 0 <= i < |s| => if s[i] in WordSeparators then ' ' else s[i])
  }

  /** How many of the pieces are non-empty (`filter` on truthiness). */
  function CountNonEmpty(parts: seq<string>): (n: nat)
    ensures n <= |parts|
  {
    if parts == [] then 0
    else CountNonEmpty(parts[..|parts| - 1]) + (if parts[|parts| - 1] != [] then 1 else 0)
  }

  lemma {:induction false} CountNonEmptyConcat(a: seq<string>, b: seq<string>)
    ensures CountNonEmpty(a + b) == CountNonEmpty(a) + CountNonEmpty(b)
    decreases |b|
  {
    if b != [] {
      assert (a + b)[..|a + b| - 1] == a + b[..|b| - 1];
      CountNonEmptyConcat(a, b[..|b| - 1]);
    } else {
      assert a + b == a;
    }
  }

  lemma {:induction false} CountNonEmptyAll(parts: seq<string>)
    requires forall i :: 0 <= i < |parts| ==> parts[i] != []
    ensures CountNonEmpty(parts) == |parts|
    decreases |parts|
  {
    if parts != [] {
      CountNonEmptyAll(parts[..|parts| - 1]);
    }
  }

  /** The number `countWords` returns. */
  function WordCount(input: string): nat {
    CountNonEmpty(Split(SeparatorsToSpace(input), ' '))
  }

  /** `countWords(input)`, with its loop building `norm`. */
  method CountWords(input: string) returns (n: nat)
    ensures n == WordCount(input)
  {
    var norm := "";
    for i := 0 to |input|
      invariant norm == SeparatorsToSpace(input[..i])
    {
      if input[i] in WordSeparators {
        norm := norm + " ";
      } else {
        norm := norm + [input[i]];
      }
    }
    assert input[..|input|] == input;
    n := CountNonEmpty(Split(norm, ' '));
  }

  /** Words joined by single spaces count one each. */
  lemma WordCountJoin(words: seq<string>)
    requires |words| >= 1
    requires forall i :: 0 <= i < |words| ==> words[i] != []
    requires forall i, j :: 0 <= i < |words| && 0 <= j < |words[i]| ==> words[i][j] !in WordSeparators
    ensures WordCount(Join(words, ' ')) == |words|
  {
    var s := Join(words, ' ');
    SeparatorsFreeJoin(words);
    SplitJoin(words, ' ');
    CountNonEmptyAll(words);
  }

  lemma {:induction false} SeparatorsFreeJoin(words: seq<string>)
    requires forall i, j :: 0 <= i < |words| && 0 <= j < |words[i]| ==> words[i][j] !in WordSeparators
    ensures SeparatorsToSpace(Join(words, ' ')) == Join(words, ' ')
    ensures forall i :: 0 <= i < |words| ==> ' ' !in words[i]
    decreases |words|
  {
    if |words| > 1 {
      SeparatorsFreeJoin(words[1..]);
      var rest := Join(words[1..], ' ');
      assert forall j :: 0 <= j < |words[0]| ==> words[0][j] !in WordSeparators;
      assert SeparatorsToSpace(words[0] + [' '] + rest) == words[0] + [' '] + rest;
    }
    forall i | 0 <= i < |words| ensures ' ' !in words[i] {
      assert forall j :: 0 <= j < |words[i]| ==> words[i][j] != ' ';
    }
  }

  /** Separated by a space, the words of two texts add up. */
  lemma WordCountConcat(a: string, b: string)
    ensures WordCount(a + " " + b) == WordCount(a) + WordCount(b)
  {
    var A, B := SeparatorsToSpace(a), SeparatorsToSpace(b);
    assert SeparatorsToSpace(a + " " + b) == A + [' '] + B;
    SplitAt(A, B, ' ');
    CountNonEmptyConcat(Split(A, ' '), Split(B, ' '));
  }

  /** A contraction is one word: the apostrophe does not separate. */
  lemma ContractionIsOneWord(a: string, b: string)
    requires a != [] && b != []
    requires forall i :: 0 <= i < |a| ==> a[i] !in WordSeparators
    requires forall i :: 0 <= i < |b| ==> b[i] !in WordSeparators
    ensures WordCount(a + ['\''] + b) == 1
  {
    var w := a + ['\''] + b;
    assert forall j :: 0 <= j < |w| ==> w[j] !in WordSeparators by {
      forall j | 0 <= j < |w| ensures w[j] !in WordSeparators {
        if j < |a| { assert w[j] == a[j]; }
        else if j > |a| { assert w[j] == b[j - |a| - 1]; }
      }
    }
    WordCountJoin([w]);
  }

  /** `countWords` as evidently intended: every character of `puncs`,
      the apostrophe included, separates words. */
  const IntendedSeparators: set<char> := WordSeparators + {'\''}

  function IntendedWordCount(input: string): nat {
    var norm := seq(|input|, i requires 0 <= i < |input| =>
      if input[i] in IntendedSeparators then ' ' else input[i]);
    CountNonEmpty(Split(norm, ' '))
  }

  /** With the apostrophe a separator, a contraction is two words, where the
      code as written counts one. */
  lemma ApostropheSeparates(a: string, b: string)
    requires a != [] && b != []
    requires forall i :: 0 <= i < |a| ==> a[i] !in IntendedSeparators
    requires forall i :: 0 <= i < |b| ==> b[i] !in IntendedSeparators
    ensures IntendedWordCount(a + ['\''] + b) == 2
    ensures WordCount(a + ['\''] + b) == 1
  {
    var w := a + ['\''] + b;
    var norm := seq(|w|, i requires 0 <= i < |w| => if w[i] in IntendedSeparators then ' ' else w[i]);
    assert norm == a + [' '] + b by {
      forall j | 0 <= j < |w| ensures norm[j] == (a + [' '] + b)[j] {
        if j < |a| { assert w[j] == a[j]; }
        else if j > |a| { assert w[j] == b[j - |a| - 1]; }
      }
    }
    assert ' ' !in a && ' ' !in b by {
      assert forall i :: 0 <= i < |a| ==> a[i] != ' ';
      assert forall i :: 0 <= i < |b| ==> b[i] != ' ';
    }
    SplitAt(a, b, ' ');
    SplitNoSeparator(a, ' ');
    SplitNoSeparator(b, ' ');
    assert Split(norm, ' ') == [a, b];
    CountNonEmptyAll([a, b]);
    assert IntendedWordCount(w) == CountNonEmpty([a, b]);
    ContractionIsOneWord(a, b);
  }

  /** On a text without an apostrophe the two counts agree. */
  lemma IntendedAgrees(input: string)
    requires '\'' !in input
    ensures IntendedWordCount(input) == WordCount(input)
  {
    var norm := seq(|input|, i requires 0 <= i < |input| =>
      if input[i] in IntendedSeparators then ' ' else input[i]);
    assert norm == SeparatorsToSpace(input) by {
      forall j | 0 <= j < |input| ensures norm[j] == SeparatorsToSpace(input)[j] {
        assert input[j] != '\'';
      }
    }
  }

  /** A text made only of separators has no words. */
  lemma NoWordsInSeparators(s: string)
    requires forall i :: 0 <= i < |s| ==> s[i] in WordSeparators
    ensures WordCount(s) == 0
  {
    var t := SeparatorsToSpace(s);
    assert t == seq(|s|, _ => ' ');
    BlankSplit(|s|);
  }

  lemma {:induction false} BlankSplit(n: nat)
    ensures CountNonEmpty(Split(seq(n, _ => ' '), ' ')) == 0
  {
    if n > 0 {
      var t := seq(n - 1, _ => ' ');
      assert seq(n, _ => ' ') == [] + [' '] + t;
      SplitAt([], t, ' ');
      BlankSplit(n - 1);
      assert Split([], ' ') == [""];
      CountNonEmptyConcat([""], Split(t, ' '));
    }
  }

  /** `lessWordsThan`: at most `n` words. */
  predicate LessWordsThan(input: string, n: int) {
    WordCount(input) <= n
  }

  /** `moreWordsThan`: at least `n` words. */
  predicate MoreWordsThan(input: string, n: int) {
    WordCount(input) >= n
  }

  /** Words without separators, joined by single spaces, pass
      `lessWordsThan(input, n)` exactly when there are at most `n` of them
      and `moreWordsThan(input, n)` exactly when there are at least `n`. */
  lemma WordChecks(words: seq<string>, n: int)
    requires |words| >= 1
    requires forall i :: 0 <= i < |words| ==> words[i] != []
    requires forall i, j :: 0 <= i < |words| && 0 <= j < |words[i]| ==> words[i][j] !in WordSeparators
    ensures LessWordsThan(Join(words, ' '), n) <==> |words| <= n
    ensures MoreWordsThan(Join(words, ' '), n) <==> |words| >= n
  {
    WordCountJoin(words);
  }

  // ===========================================================================
  // isBetween
  // ===========================================================================

  /** `isBetween` on numbers other than NaN: inclusive at both ends. */
  predicate IsBetween(input: real, floor: real, ceil: real) {
    input >= floor && input <= ceil
  }

  // ===========================================================================
  // isAlphanumeric, isCreditCard
  // ===========================================================================

  predicate AllAlphanumeric(s: string) {
    forall i :: 0 <= i < |s| ==> IsAlphanumericChar(s[i])
  }

  /** `isAlphanumeric(input)`: its loop returns at the first character
      outside `[A-Za-z0-9]`. */
  method IsAlphanumeric(input: string) returns (ok: bool)
    ensures ok == AllAlphanumeric(input)
  {
    for i := 0 to |input|
      invariant forall k :: 0 <= k < i ==> IsAlphanumericChar(input[k])
    {
      if !IsAlphanumericChar(input[i]) {
        return false;
      }
    }
    return true;
  }

  lemma AlphanumericConcat(a: string, b: string)
    ensures AllAlphanumeric(a + b) <==> AllAlphanumeric(a) && AllAlphanumeric(b)
  {
    if AllAlphanumeric(a + b) {
      assert forall i :: 0 <= i < |a| ==> a[i] == (a + b)[i];
      assert forall i :: 0 <= i < |b| ==> b[i] == (a + b)[|a| + i];
    }
  }

  /** What `isCreditCard` decides: at most 19 characters, and 16
      alphanumeric characters once the dashes are removed. */
  predicate CreditCardNumber(input: string) {
    |input| <= 19 &&
    var norm := Drop(input, {'-'});
    |norm| == 16 && AllAlphanumeric(norm)
  }

  /** `isCreditCard(input)`, with its loop building `norm`. */
  method IsCreditCard(input: string) returns (ok: bool)
    ensures ok == CreditCardNumber(input)
  {
    if |input| > 19 {
      return false;
    }
    var norm := "";
    for i := 0 to |input|
      invariant norm == Drop(input[..i], {'-'})
    {
      SelectPrefix(input, i, {'-'}, false);
      if input[i] != '-' {
        norm := norm + [input[i]];
      }
    }
    assert input[..|input|] == input;
    if |norm| != 16 {
      return false;
    }
    ok := IsAlphanumeric(norm);
  }

  /** An accepted number has 16 to 19 characters, of which all but at most
      three dashes are alphanumeric. */
  lemma CreditCardShape(input: string)
    requires CreditCardNumber(input)
    ensures 16 <= |input| <= 19
    ensures multiset(input)['-'] == |input| - 16 <= 3
    ensures forall c :: c in input && c != '-' ==> IsAlphanumericChar(c)
  {
    var norm := Drop(input, {'-'});
    DropCount(input, '-');
    SelectCounts(input, {'-'}, false);
    forall c | c in input && c != '-' ensures IsAlphanumericChar(c) {
      assert multiset(norm)[c] == multiset(input)[c] > 0;
      assert c in norm;
    }
  }

  /** Removing one character removes exactly its occurrences. */
  lemma {:induction false} DropCount(s: string, c: char)
    ensures |Drop(s, {c})| + multiset(s)[c] == |s|
    decreases |s|
  {
    if s != [] {
      var s' := s[..|s| - 1];
      assert s == s' + [s[|s| - 1]];
      DropCount(s', c);
    }
  }

  /** Four groups of four alphanumeric characters, with or without dashes
      between them, are accepted. */
  lemma CreditCardGroups(a: string, b: string, c: string, d: string)
    requires |a| == |b| == |c| == |d| == 4
    requires AllAlphanumeric(a) && AllAlphanumeric(b) && AllAlphanumeric(c) && AllAlphanumeric(d)
    ensures CreditCardNumber(a + b + c + d)
    ensures CreditCardNumber(a + "-" + b + "-" + c + "-" + d)
  {
    AlphanumericConcat(a, b);
    AlphanumericConcat(a + b, c);
    AlphanumericConcat(a + b + c, d);
    var w := a + b + c + d;
    AlphanumericNoDash(w);
    DropDash(a, b);
    DropDash(a + "-" + b, c);
    DropDash(a + "-" + b + "-" + c, d);
    AlphanumericNoDash(a);
    AlphanumericNoDash(b);
    AlphanumericNoDash(c);
    AlphanumericNoDash(d);
    DropJoined(a, b);
    DropJoined(a + b, c);
    DropJoined(a + b + c, d);
  }

  lemma AlphanumericNoDash(w: string)
    requires AllAlphanumeric(w)
    ensures Drop(w, {'-'}) == w
  {
    SelectAll(w, {'-'}, false);
  }

  lemma DropDash(x: string, y: string)
    ensures Drop(x + "-" + y, {'-'}) == Drop(x, {'-'}) + Drop(y, {'-'})
  {
    SelectConcat(x + "-", y, {'-'}, false);
    SelectConcat(x, "-", {'-'}, false);
    SelectChar('-', {'-'}, false);
  }

  lemma DropJoined(x: string, y: string)
    ensures Drop(x + y, {'-'}) == Drop(x, {'-'}) + Drop(y, {'-'})
  {
    SelectConcat(x, y, {'-'}, false);
  }

  // ===========================================================================
  // isHex
  // ===========================================================================

  /** A character of `0123456789abcdef`. */
  predicate IsHexDigit(c: char) {
    IsDigit(c) || 'a' <= c <= 'f'
  }

  /** What `isHex` decides: a leading '#', and 3 or 6 characters once every
      '#' is removed, each a hexadecimal digit in either case. */
  predicate HexColor(input: string) {
    |input| > 0 && input[0] == '#' &&
    var norm := Drop(input, {'#'});
    (|norm| == 6 || |norm| == 3) && forall i :: 0 <= i < |norm| ==> IsHexDigit(LowerChar(norm[i]))
  }

  /** `isHex(input)`, with its loop building `norm` and its loop over the
      characters of `norm`. */
  method IsHex(input: string) returns (ok: bool)
    ensures ok == HexColor(input)
  {
    if |input| == 0 || input[0] != '#' {
      return false;
    }
    var norm := "";
    for i := 0 to |input|
      invariant norm == Drop(input[..i], {'#'})
    {
      SelectPrefix(input, i, {'#'}, false);
      if input[i] != '#' {
        norm := norm + [input[i]];
      }
    }
    assert input[..|input|] == input;
    if |norm| != 6 && |norm| != 3 {
      return false;
    }
    for i := 0 to |norm|
      invariant forall k :: 0 <= k < i ==> IsHexDigit(LowerChar(norm[k]))
    {
      if !IsHexDigit(LowerChar(norm[i])) {
        return false;
      }
    }
    return true;
  }

  /** Both cases of the letters a to f are hexadecimal digits. */
  lemma HexDigitCases(c: char)
    ensures IsHexDigit(LowerChar(c)) <==> IsDigit(c) || 'a' <= c <= 'f' || 'A' <= c <= 'F'
  {
  }

  /** A '#' followed by a body without '#': accepted exactly when the body
      is 3 or 6 hexadecimal digits. */
  lemma HexOfBody(body: string)
    requires '#' !in body
    ensures HexColor(['#'] + body) <==>
      (|body| == 3 || |body| == 6) &&
      forall i :: 0 <= i < |body| ==> IsDigit(body[i]) || 'a' <= body[i] <= 'f' || 'A' <= body[i] <= 'F'
  {
    HashBody(body);
    forall i | 0 <= i < |body| {
      HexDigitCases(body[i]);
    }
  }

  lemma HashBody(body: string)
    requires '#' !in body
    ensures Drop(['#'] + body, {'#'}) == body
  {
    SelectConcat(['#'], body, {'#'}, false);
    SelectChar('#', {'#'}, false);
    assert forall i :: 0 <= i < |body| ==> body[i] != '#';
    SelectAll(body, {'#'}, false);
  }

  /** Every '#' is removed, not just the leading one: a second '#' anywhere
      after the first changes nothing. */
  lemma HexIgnoresExtraHash(a: string, b: string)
    ensures HexColor(['#'] + a + ['#'] + b) == HexColor(['#'] + a + b)
  {
    DropSkips(['#'] + a, b, '#', {'#'});
  }

  // ===========================================================================
  // isRGB, isHSL, isColor
  // ===========================================================================

  /** A number read by `parseInt` passes a range check written as `n > hi ||
      n < lo`: NaN (`None`) fails both comparisons and so passes. */
  predicate InBounds(v: Option<int>, bounds: (int, int)) {
    v.None? || bounds.0 <= v.value <= bounds.1
  }

  /** What `isRGB` and `isHSL` decide, for the function name `name` ("rgb()"
      or "hsl()"), the set `chars` of its characters and the range of each
      component: the lowered input's characters from `chars`, in order, spell
      `name`; the other characters, split on ',', give as many components as
      there are ranges; and each trimmed component is in its range or is not
      a number at all. */
  predicate ColorFunction(input: string, name: string, chars: set<char>, bounds: seq<(int, int)>) {
    var lower := Lower(input);
    Keep(lower, chars) == name && ComponentsInRange(Split(Drop(lower, chars), ','), bounds)
  }

  /** One component per range, each trimmed component in its range or not a
      number. */
  predicate ComponentsInRange(parts: seq<string>, bounds: seq<(int, int)>) {
    |parts| == |bounds| &&
    forall i :: 0 <= i < |parts| ==> ComponentInRange(parts[i], bounds[i])
  }

  /** A trimmed component that parses to a number lies within its bounds. */
  predicate ComponentInRange(part: string, bound: (int, int)) {
    InBounds(ParseInt(Trim(part)), bound)
  }

  const RgbChars: set<char> := {'r', 'g', 'b', '(', ')'}
  const RgbBounds: seq<(int, int)> := [(0, 255), (0, 255), (0, 255)]
  const HslChars: set<char> := {'h', 's', 'l', '(', ')'}
  const HslBounds: seq<(int, int)> := [(0, 360), (0, 1), (0, 1)]

  predicate RgbColor(input: string) {
    ColorFunction(input, "rgb()", RgbChars, RgbBounds)
  }

  predicate HslColor(input: string) {
    ColorFunction(input, "hsl()", HslChars, HslBounds)
  }

  /** The body `isRGB` and `isHSL` share: the loop sorting the lowered
      input's characters into `norm` and `syntaxCheck`, then the loop over
      the trimmed components that returns at the first one out of range. */
  method MatchColorFunction(input: string, name: string, chars: set<char>, bounds: seq<(int, int)>)
    returns (ok: bool)
    ensures ok == ColorFunction(input, name, chars, bounds)
  {
    var lower := Lower(input);
    var norm, syntaxCheck := "", "";
    for i := 0 to |lower|
      invariant norm == Drop(lower[..i], chars)
      invariant syntaxCheck == Keep(lower[..i], chars)
    {
      SelectPrefix(lower, i, chars, false);
      SelectPrefix(lower, i, chars, true);
      if lower[i] !in chars {
        norm := norm + [lower[i]];
      } else {
        syntaxCheck := syntaxCheck + [lower[i]];
      }
    }
    assert lower[..|lower|] == lower;
    assert norm == Drop(lower, chars) && syntaxCheck == Keep(lower, chars);
    if syntaxCheck != name {
      return false;
    }
    var parts := Split(norm, ',');
    assert parts == Split(Drop(Lower(input), chars), ',');
    ok := CheckComponents(parts, bounds);
  }

  /** The loop over the trimmed components of a colour function. */
  method CheckComponents(parts: seq<string>, bounds: seq<(int, int)>) returns (ok: bool)
    ensures ok == ComponentsInRange(parts, bounds)
  {
    if |parts| != |bounds| {
      return false;
    }
    for k := 0 to |parts|
      invariant forall j :: 0 <= j < k ==> ComponentInRange(parts[j], bounds[j])
    {
      if !ComponentInRange(parts[k], bounds[k]) {
        return false;
      }
    }
    return true;
  }

  /** `isRGB(input)`. */
  method IsRGB(input: string) returns (ok: bool)
    ensures ok == RgbColor(input)
  {
    ok := MatchColorFunction(input, "rgb()", RgbChars, RgbBounds);
  }

  /** `isHSL(input)`. */
  method IsHSL(input: string) returns (ok: bool)
    ensures ok == HslColor(input)
  {
    ok := MatchColorFunction(input, "hsl()", HslChars, HslBounds);
  }

  /** `isColor(input)`: the three checks, tried in order. */
  method IsColor(input: string) returns (ok: bool)
    ensures ok == (HexColor(input) || RgbColor(input) || HslColor(input))
  {
    ok := IsHex(input);
    if !ok {
      ok := IsRGB(input);
    }
    if !ok {
      ok := IsHSL(input);
    }
  }

  /** Once the name's characters are accounted for, a colour function with
      three components is judged on the components alone. */
  lemma ColorOfComponents(input: string, name: string, chars: set<char>, bounds: seq<(int, int)>,
                          x: string, y: string, z: string)
    requires Keep(Lower(input), chars) == name
    requires Drop(Lower(input), chars) == x + [','] + y + [','] + z
    requires ',' !in x && ',' !in y && ',' !in z
    requires |bounds| == 3
    ensures ColorFunction(input, name, chars, bounds) <==>
      && ComponentInRange(x, bounds[0])
      && ComponentInRange(y, bounds[1])
      && ComponentInRange(z, bounds[2])
  {
    SplitThree(x, y, z);
    var parts := [x, y, z];
    assert ComponentsInRange(parts, bounds) <==>
      ComponentInRange(x, bounds[0]) && ComponentInRange(y, bounds[1]) && ComponentInRange(z, bounds[2])
    by {
      assert parts[0] == x && parts[1] == y && parts[2] == z;
    }
  }

  lemma SplitThree(x: string, y: string, z: string)
    requires ',' !in x && ',' !in y && ',' !in z
    ensures Split(x + [','] + y + [','] + z, ',') == [x, y, z]
  {
    SplitAt(x, y + [','] + z, ',');
    SplitAt(y, z, ',');
    SplitNoSeparator(x, ',');
    SplitNoSeparator(y, ',');
    SplitNoSeparator(z, ',');
    assert x + [','] + y + [','] + z == x + [','] + (y + [','] + z);
  }

  /** The three numerals and the commas between them. */
  function Numerals(a: nat, b: nat, c: nat): string {
    Decimal(a) + [','] + Decimal(b) + [','] + Decimal(c)
  }

  lemma NumeralsChars(a: nat, b: nat, c: nat)
    ensures forall i :: 0 <= i < |Numerals(a, b, c)| ==>
      IsDigit(Numerals(a, b, c)[i]) || Numerals(a, b, c)[i] == ','
  {
    var A, B, C := Decimal(a), Decimal(b), Decimal(c);
    var m := Numerals(a, b, c);
    forall i | 0 <= i < |m| ensures IsDigit(m[i]) || m[i] == ',' {
      if i < |A| { assert m[i] == A[i]; }
      else if i == |A| { }
      else if i < |A| + 1 + |B| { assert m[i] == B[i - |A| - 1]; }
      else if i == |A| + 1 + |B| { }
      else { assert m[i] == C[i - |A| - |B| - 2]; }
    }
  }

  /** `name[..4] + numerals + name[4..]`, as lowered and sorted by the colour
      check: the name's characters spell the name and the numerals are left. */
  lemma NumeralsSorted(name: string, chars: set<char>, m: string)
    requires |name| == 5
    requires forall i :: 0 <= i < 5 ==> name[i] in chars && !('A' <= name[i] <= 'Z')
    requires forall i :: 0 <= i < |m| ==> (IsDigit(m[i]) || m[i] == ',') && m[i] !in chars
    ensures Keep(Lower(name[..4] + m + name[4..]), chars) == name
    ensures Drop(Lower(name[..4] + m + name[4..]), chars) == m
  {
    var P, Q := name[..4], name[4..];
    LowerThree(P, m, Q);
    assert P + Q == name;
    NameKept(P, m, Q, chars);
    NumeralsKept(P, m, Q, chars);
  }

  lemma NameKept(p: string, m: string, q: string, chars: set<char>)
    requires forall i :: 0 <= i < |p| ==> p[i] in chars
    requires forall i :: 0 <= i < |q| ==> q[i] in chars
    requires forall i :: 0 <= i < |m| ==> m[i] !in chars
    ensures Keep(p + m + q, chars) == p + q
  {
    SelectThree(p, m, q, chars, true);
    SelectAll(p, chars, true);
    SelectAll(q, chars, true);
    SelectNone(m, chars, true);
  }

  lemma NumeralsKept(p: string, m: string, q: string, chars: set<char>)
    requires forall i :: 0 <= i < |p| ==> p[i] in chars
    requires forall i :: 0 <= i < |q| ==> q[i] in chars
    requires forall i :: 0 <= i < |m| ==> m[i] !in chars
    ensures Drop(p + m + q, chars) == m
  {
    SelectThree(p, m, q, chars, false);
    SelectNone(p, chars, false);
    SelectNone(q, chars, false);
    SelectAll(m, chars, false);
  }

  lemma LowerThree(p: string, m: string, q: string)
    requires forall i :: 0 <= i < |p| ==> !('A' <= p[i] <= 'Z')
    requires forall i :: 0 <= i < |m| ==> !('A' <= m[i] <= 'Z')
    requires forall i :: 0 <= i < |q| ==> !('A' <= q[i] <= 'Z')
    ensures Lower(p + m + q) == p + m + q
  {
  }

  lemma SelectThree(p: string, m: string, q: string, cs: set<char>, inside: bool)
    ensures Select(p + m + q, cs, inside) == Select(p, cs, inside) + Select(m, cs, inside) + Select(q, cs, inside)
  {
    SelectConcat(p + m, q, cs, inside);
    SelectConcat(p, m, cs, inside);
  }

  /** A colour function of three decimal numerals is accepted exactly when
      each numeral is in its range. */
  lemma ColorOfNumbers(name: string, chars: set<char>, bounds: seq<(int, int)>, a: nat, b: nat, c: nat)
    requires |name| == 5
    requires forall i :: 0 <= i < 5 ==> name[i] in chars && !('A' <= name[i] <= 'Z')
    requires ',' !in chars && forall d :: IsDigit(d) ==> d !in chars
    requires |bounds| == 3
    ensures ColorFunction(name[..4] + Numerals(a, b, c) + name[4..], name, chars, bounds) <==>
      && bounds[0].0 <= a <= bounds[0].1
      && bounds[1].0 <= b <= bounds[1].1
      && bounds[2].0 <= c <= bounds[2].1
  {
    var input := name[..4] + Numerals(a, b, c) + name[4..];
    NumeralsInput(name, chars, a, b, c);
    NoComma(a);
    NoComma(b);
    NoComma(c);
    ColorOfComponents(input, name, chars, bounds, Decimal(a), Decimal(b), Decimal(c));
    NumeralInRange(a, bounds[0]);
    NumeralInRange(b, bounds[1]);
    NumeralInRange(c, bounds[2]);
  }

  lemma NumeralsInput(name: string, chars: set<char>, a: nat, b: nat, c: nat)
    requires |name| == 5
    requires forall i :: 0 <= i < 5 ==> name[i] in chars && !('A' <= name[i] <= 'Z')
    requires ',' !in chars && forall d :: IsDigit(d) ==> d !in chars
    ensures Keep(Lower(name[..4] + Numerals(a, b, c) + name[4..]), chars) == name
    ensures Drop(Lower(name[..4] + Numerals(a, b, c) + name[4..]), chars) == Numerals(a, b, c)
  {
    var m := Numerals(a, b, c);
    NumeralsChars(a, b, c);
    assert forall i :: 0 <= i < |m| ==> (IsDigit(m[i]) || m[i] == ',') && m[i] !in chars;
    NumeralsSorted(name, chars, m);
  }

  lemma NoComma(n: nat)
    ensures ',' !in Decimal(n)
  {
    var d := Decimal(n);
    assert forall i :: 0 <= i < |d| ==> d[i] != ',';
  }

  /** A numeral trims to itself and parses back to its value. */
  lemma NumeralValue(n: nat)
    ensures ParseInt(Trim(Decimal(n))) == Some(n)
  {
    var d := Decimal(n);
    TrimUnchanged(d);
    ParseDecimal(n, []);
    assert d + [] == d;
  }

  lemma NumeralInRange(n: nat, bound: (int, int))
    ensures ComponentInRange(Decimal(n), bound) <==> bound.0 <= n <= bound.1
  {
    NumeralValue(n);
  }

  /** `rgb(r,g,b)` with decimal components is accepted exactly when every
      component is at most 255. */
  lemma RgbOfNumbers(r: nat, g: nat, b: nat)
    ensures RgbColor("rgb(" + Numerals(r, g, b) + ")") <==> r <= 255 && g <= 255 && b <= 255
  {
    var name := "rgb()";
    assert name[..4] == "rgb(" && name[4..] == ")";
    ColorOfNumbers(name, RgbChars, RgbBounds, r, g, b);
  }

  /** `hsl(h,s,l)` with decimal components is accepted exactly when the hue
      is at most 360 and saturation and lightness are 0 or 1. */
  lemma HslOfNumbers(h: nat, s: nat, l: nat)
    ensures HslColor("hsl(" + Numerals(h, s, l) + ")") <==> h <= 360 && s <= 1 && l <= 1
  {
    var name := "hsl()";
    assert name[..4] == "hsl(" && name[4..] == ")";
    ColorOfNumbers(name, HslChars, HslBounds, h, s, l);
  }

  /** A component that is not a number is never out of range: components
      with no digits at all, or ones that start with a letter, pass. */
  lemma ColorAcceptsNonNumbers(input: string, name: string, chars: set<char>, bounds: seq<(int, int)>,
                               x: string, y: string, z: string)
    requires Keep(Lower(input), chars) == name
    requires Drop(Lower(input), chars) == x + [','] + y + [','] + z
    requires ',' !in x && ',' !in y && ',' !in z
    requires |bounds| == 3
    requires ParseInt(Trim(x)) == None && ParseInt(Trim(y)) == None && ParseInt(Trim(z)) == None
    ensures ColorFunction(input, name, chars, bounds)
  {
    ColorOfComponents(input, name, chars, bounds, x, y, z);
  }

  /** With no components at all between the commas, `rgb(,,)` passes:
      `parseInt('')` is NaN. */
  lemma RgbAcceptsEmptyComponents(m: string)
    requires m == [',', ',']
    ensures RgbColor("rgb(" + m + ")")
  {
    var name := "rgb()";
    var p, q := name[..4], name[4..];
    assert p == "rgb(" && q == ")";
    LowerThree(p, m, q);
    NameKept(p, m, q, RgbChars);
    NumeralsKept(p, m, q, RgbChars);
    assert p + q == name;
    assert m == [] + [','] + [] + [','] + [];
    ColorAcceptsNonNumbers(p + m + q, name, RgbChars, RgbBounds, [], [], []);
  }

  /** The lowered input is sorted before anything is checked: the upper-case
      spelling of a colour is the same colour. */
  lemma ColorIgnoresCase(input: string, name: string, chars: set<char>, bounds: seq<(int, int)>)
    ensures ColorFunction(Lower(input), name, chars, bounds) == ColorFunction(input, name, chars, bounds)
  {
    assert Lower(Lower(input)) == Lower(input);
  }

  // ===========================================================================
  // isTrimmed
  // ===========================================================================

  predicate HasDoubleSpace(s: string) {
    exists i :: 0 <= i < |s| - 1 && s[i] == ' ' && s[i + 1] == ' '
  }

  /** `isTrimmed(input)`: its loop stops before the last character and
      returns at the first pair of adjacent spaces. */
  method IsTrimmed(input: string) returns (ok: bool)
    ensures ok == !HasDoubleSpace(input)
  {
    for i := 0 to |input|
      invariant forall k :: 0 <= k < i && k < |input| - 1 ==> !(input[k] == ' ' && input[k + 1] == ' ')
    {
      if i == |input| - 1 {
        break;
      }
      if input[i] == ' ' && input[i + 1] == ' ' {
        return false;
      }
    }
    return true;
  }

  /** `isTrimmed` as its description intends: no leading or trailing
      whitespace as well as no two adjacent spaces. */
  predicate TrimmedIntended(s: string) {
    !HasDoubleSpace(s) && Trim(s) == s
  }

  /** The corrected check: no two adjacent spaces, and the first and last
      characters are not whitespace. */
  lemma TrimmedIntendedShape(s: string)
    ensures TrimmedIntended(s) <==>
      !HasDoubleSpace(s) && (s == [] || (!IsWhitespace(s[0]) && !IsWhitespace(s[|s| - 1])))
  {
    if s == [] || (!IsWhitespace(s[0]) && !IsWhitespace(s[|s| - 1])) {
      TrimUnchanged(s);
    }
  }

  /** As written, a leading space goes unnoticed: " " followed by a word
      without spaces passes the check though it is not trimmed. */
  lemma TrimmedMissesLeadingSpace(w: string)
    requires ' ' !in w
    ensures !HasDoubleSpace([' '] + w)
    ensures !TrimmedIntended([' '] + w)
  {
    TrimmedIntendedShape([' '] + w);
  }
}
