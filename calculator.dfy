/** The calculator of project-assignment-5: a reducer over the display state
    `{last, current}` and the glyph substitution `prettifyDisplay` applied
    when the state is rendered. The expression evaluator used by EQUAL
    (`eval` followed by the float clean-up `fixFloat` and conversion to a
    string) is a parameter: it yields the display string, or `None` when
    evaluation throws. */
module Calculator {
  import opened Wrappers
  import opened Store

  /** `last` is the expression evaluated by the latest EQUAL, `current` the
      expression being typed. */
  datatype State = State(last: string, current: string)

  /** The `type` of a dispatched action; `Other` is any other type, such as
      the seed action `{}` that has none. */
  datatype Action =
    | Clear
    | Back
    | Add
    | Minus
    | Multi
    | Divide
    | Equal
    | Number(number: string)
    | Dot
    | Other

  const Initial: State := State("", "0")

  const ErrorMessage: string := "Error :("

  predicate IsOperator(c: char) {
    c == '+' || c == '-' || c == '*' || c == '/'
  }

  /** The operator character an operator action types. */
  function OperatorChar(a: Action): char
    requires a.Add? || a.Minus? || a.Multi? || a.Divide?
  {
    match a
    case Add => '+'
    case Minus => '-'
    case Multi => '*'
    case Divide => '/'
  }

  /** `current.slice(0, -1)`. */
  function DropLast(s: string): string {
    if s == [] then [] else s[..|s| - 1]
  }

  /** Typing operator `op`: it replaces a trailing operator and is appended
      otherwise. */
  function TypeOperator(current: string, op: char): string {
    if current != [] && IsOperator(current[|current| - 1]) then DropLast(current) + [op]
    else current + [op]
  }

  /** The calculator `reducer`. */
  function Reduce(eval: string -> Option<string>, s: State, a: Action): State {
    match a
    case Clear => Initial
    case Back =>
      s.(current := if s.current == "0" then s.current
                    else if DropLast(s.current) == [] then "0"
                    else DropLast(s.current))
    case Add => s.(current := TypeOperator(s.current, '+'))
    case Minus => s.(current := TypeOperator(s.current, '-'))
    case Multi => s.(current := TypeOperator(s.current, '*'))
    case Divide => s.(current := TypeOperator(s.current, '/'))
    case Equal =>
      var result := eval(s.current);
      State(s.current, if result.Some? then result.value else ErrorMessage)
    case Number(number) =>
      s.(current := if s.current == "0" then number else s.current + number)
    case Dot =>
      if s.current == [] || s.current[|s.current| - 1] != '.' then s.(current := s.current + ".")
      else s
    case Other => s
  }

  /** `createStore(reducer)` for the calculator: the seed dispatch leaves
      the reducer's default state in place. */
  method CreateStore<L(==)>(eval: string -> Option<string>) returns (store: Store<State, Action, L>)
    ensures fresh(store)
    ensures store.state == Initial
    ensures store.listeners == [] && store.notified == []
    ensures forall s, a :: store.reducer(s, a) == Reduce(eval, s, a)
  {
    store := new Store((s, a) => Reduce(eval, s, a), Initial, Other);
  }

  // ---------------------------------------------------------------------------
  // Properties of the reducer
  // ---------------------------------------------------------------------------

  /** The seed action and any unknown action leave the state alone; CLEAR
      always returns the initial state. */
  lemma IdentityAndClear(eval: string -> Option<string>, s: State)
    ensures Reduce(eval, Initial, Other) == Initial
    ensures Reduce(eval, s, Other) == s
    ensures Reduce(eval, s, Clear) == State("", "0")
  {
  }

  /** BACK keeps "0", never leaves the display empty, and otherwise removes
      exactly the last character. */
  lemma BackRemovesLast(eval: string -> Option<string>, s: State)
    ensures Reduce(eval, s, Back).last == s.last
    ensures Reduce(eval, s, Back).current != []
    ensures s.current == "0" ==> Reduce(eval, s, Back) == s
    ensures |s.current| >= 2 ==>
      Reduce(eval, s, Back).current + [s.current[|s.current| - 1]] == s.current
    ensures |s.current| <= 1 ==> Reduce(eval, s, Back).current == "0"
  {
  }

  /** BACK undoes typing one character: a digit, the dot or an operator
      appended to a non-empty display. */
  lemma BackUndoesTyping(eval: string -> Option<string>, s: State, a: Action)
    requires s.current != []
    requires
      || (a.Number? && |a.number| == 1)
      || (a.Dot? && s.current[|s.current| - 1] != '.')
      || ((a.Add? || a.Minus? || a.Multi? || a.Divide?) && !IsOperator(s.current[|s.current| - 1]))
    ensures Reduce(eval, Reduce(eval, s, a), Back) == s
  {
    var t := Reduce(eval, s, a);
    if s.current != "0" || !a.Number? {
      assert DropLast(t.current) == s.current;
    }
  }

  /** An operator key replaces a trailing operator and is appended
      otherwise: the display ends with its operator, grows by at most one
      character, and never gains two operators in a row. */
  lemma OperatorTyping(eval: string -> Option<string>, s: State, a: Action)
    requires a.Add? || a.Minus? || a.Multi? || a.Divide?
    ensures var c := Reduce(eval, s, a).current;
      && Reduce(eval, s, a).last == s.last
      && c != [] && c[|c| - 1] == OperatorChar(a)
      && |s.current| <= |c| <= |s.current| + 1
      && c[..|c| - 1] == (if |c| == |s.current| then DropLast(s.current) else s.current)
      && (|c| >= 2 && IsOperator(c[|c| - 2]) ==> |s.current| >= 2 && IsOperator(s.current[|s.current| - 2]))
    ensures s.current != [] && IsOperator(s.current[|s.current| - 1]) ==>
      Reduce(eval, s, a) == State(s.last, DropLast(s.current) + [OperatorChar(a)])
    ensures !(s.current != [] && IsOperator(s.current[|s.current| - 1])) ==>
      Reduce(eval, s, a) == State(s.last, s.current + [OperatorChar(a)])
  {
    var c := Reduce(eval, s, a).current;
    assert c == TypeOperator(s.current, OperatorChar(a));
    if s.current != [] && IsOperator(s.current[|s.current| - 1]) {
      assert c[..|c| - 1] == DropLast(s.current);
      if |c| >= 2 {
        assert c[|c| - 2] == s.current[|s.current| - 2];
      }
    } else {
      assert c[..|c| - 1] == s.current;
    }
  }

  /** Operator keys pressed in a row: the last one wins. */
  lemma LastOperatorWins(eval: string -> Option<string>, s: State, a: Action, b: Action)
    requires a.Add? || a.Minus? || a.Multi? || a.Divide?
    requires b.Add? || b.Minus? || b.Multi? || b.Divide?
    ensures Reduce(eval, Reduce(eval, s, a), b) == Reduce(eval, s, b)
  {
    var t := Reduce(eval, s, a);
    assert t == s.(current := TypeOperator(s.current, OperatorChar(a)));
    assert Reduce(eval, t, b) == t.(current := TypeOperator(t.current, OperatorChar(b)));
    TypeOperatorTwice(s.current, OperatorChar(a), OperatorChar(b));
  }

  /** Typing two operators leaves only the second. */
  lemma TypeOperatorTwice(current: string, x: char, y: char)
    requires IsOperator(x)
    ensures TypeOperator(TypeOperator(current, x), y) == TypeOperator(current, y)
  {
    var c := TypeOperator(current, x);
    assert c[|c| - 1] == x;
    if current != [] && IsOperator(current[|current| - 1]) {
      assert DropLast(c) == DropLast(current);
    } else {
      assert DropLast(c) == current;
    }
  }

  /** A number key replaces the lone "0" and is appended otherwise. */
  lemma NumberTyping(eval: string -> Option<string>, s: State, number: string)
    ensures Reduce(eval, s, Number(number)).last == s.last
    ensures s.current == "0" ==> Reduce(eval, s, Number(number)).current == number
    ensures s.current != "0" ==> Reduce(eval, s, Number(number)).current == s.current + number
  {
  }

  /** DOT appends '.' unless the display already ends with one; pressing it
      twice is pressing it once. */
  lemma DotTyping(eval: string -> Option<string>, s: State)
    ensures var c := Reduce(eval, s, Dot).current;
      c != [] && c[|c| - 1] == '.'
    ensures !(s.current != [] && s.current[|s.current| - 1] == '.') ==>
      Reduce(eval, s, Dot) == State(s.last, s.current + ".")
    ensures s.current != [] && s.current[|s.current| - 1] == '.' ==> Reduce(eval, s, Dot) == s
    ensures Reduce(eval, Reduce(eval, s, Dot), Dot) == Reduce(eval, s, Dot)
  {
  }

  /** EQUAL moves the expression to `last` and shows its value, or the error
      message when evaluation throws. */
  lemma EqualEvaluates(eval: string -> Option<string>, s: State)
    ensures Reduce(eval, s, Equal).last == s.current
    ensures eval(s.current).None? ==> Reduce(eval, s, Equal).current == "Error :("
    ensures eval(s.current).Some? ==> Reduce(eval, s, Equal).current == eval(s.current).value
  {
  }

  /** No action empties the display, as long as number keys carry a digit
      and the evaluator never yields an empty string. */
  lemma CurrentNeverEmpty(eval: string -> Option<string>, s: State, a: Action)
    requires s.current != []
    requires a.Number? ==> a.number != []
    requires eval(s.current) != Some([])
    ensures Reduce(eval, s, a).current != []
  {
  }

  /** Starting from the initial state, a run of key presses never empties
      the display. */
  lemma {:induction false} RunNeverEmpty(eval: string -> Option<string>, s: State, actions: seq<Action>)
    requires s.current != []
    requires forall i :: 0 <= i < |actions| ==> actions[i].Number? ==> actions[i].number != []
    requires forall e :: eval(e) != Some([])
    ensures Run(eval, s, actions).current != []
    decreases |actions|
  {
    if actions != [] {
      CurrentNeverEmpty(eval, s, actions[0]);
      RunNeverEmpty(eval, Reduce(eval, s, actions[0]), actions[1..]);
    }
  }

  /** The state after dispatching `actions` in order. */
  function Run(eval: string -> Option<string>, s: State, actions: seq<Action>): State
    decreases |actions|
  {
    if actions == [] then s else Run(eval, Reduce(eval, s, actions[0]), actions[1..])
  }

  // ---------------------------------------------------------------------------
  // prettifyDisplay
  // ---------------------------------------------------------------------------

  /** Each character of `s` replaced by the string `f` gives for it. */
  function Expand(s: string, f: char -> string): string
    decreases |s|
  {
    if s == [] then [] else f(s[0]) + Expand(s[1..], f)
  }

  lemma {:induction false} ExpandConcat(a: string, b: string, f: char -> string)
    ensures Expand(a + b, f) == Expand(a, f) + Expand(b, f)
    decreases |a|
  {
    if a != [] {
      assert (a + b)[1..] == a[1..] + b;
      ExpandConcat(a[1..], b, f);
    } else {
      assert a + b == b;
    }
  }

  /** Two substitutions in a row are one substitution. */
  lemma {:induction false} ExpandCompose(s: string, f: char -> string, g: char -> string)
    ensures Expand(Expand(s, f), g) == Expand(s, x => Expand(f(x), g))
    decreases |s|
  {
    if s != [] {
      ExpandConcat(f(s[0]), Expand(s[1..], f), g);
      ExpandCompose(s[1..], f, g);
    }
  }

  /** Substitutions that agree on every character agree. */
  lemma {:induction false} ExpandAgree(s: string, f: char -> string, g: char -> string)
    requires forall x :: f(x) == g(x)
    ensures Expand(s, f) == Expand(s, g)
    decreases |s|
  {
    if s != [] {
      ExpandAgree(s[1..], f, g);
    }
  }

  /** `input.replace(/c/g, dest)`. */
  function ReplaceAll(s: string, c: char, dest: string): string {
    Expand(s, x => if x == c then dest else [x])
  }

  /** The `symbols` table: the ASCII operator and the glyph shown for it. */
  const Symbols: seq<(char, char)> :=
    [('*', '\U{D7}'), ('/', '\U{F7}'), ('-', '\U{2212}'), ('+', '+')]

  /** What a glyph is replaced with: padded with a space on either side when
      `spaces` is set. */
  function Padded(glyph: char, spaces: bool): string {
    if spaces then [' ', glyph, ' '] else [glyph]
  }

  /** The `forEach` over the table, one global replacement per entry. */
  function Replacements(input: string, spaces: bool, symbols: seq<(char, char)>): string
    decreases |symbols|
  {
    if symbols == [] then input
    else Replacements(ReplaceAll(input, symbols[0].0, Padded(symbols[0].1, spaces)), spaces, symbols[1..])
  }

  /** `prettifyDisplay(input, spaces)`. */
  function Prettify(input: string, spaces: bool): string {
    Replacements(input, spaces, Symbols)
  }

  /** `prettifyDisplay(input, spaces)` with its `forEach` loop reassigning
      `input`: the result shows every operator as its glyph and every other
      character as itself. */
  method PrettifyDisplay(input: string, spaces: bool) returns (output: string)
    ensures output == Expand(input, c => Glyph(c, spaces))
  {
    output := input;
    assert Symbols[0..] == Symbols;
    for k := 0 to |Symbols|
      invariant Replacements(output, spaces, Symbols[k..]) == Prettify(input, spaces)
    {
      assert Symbols[k..][1..] == Symbols[k + 1..];
      output := ReplaceAll(output, Symbols[k].0, Padded(Symbols[k].1, spaces));
    }
    assert Symbols[|Symbols|..] == [];
    PrettifyPerCharacter(input, spaces);
  }

  /** What one character becomes on the display. */
  function Glyph(c: char, spaces: bool): string {
    if c == '*' then Padded('\U{D7}', spaces)
    else if c == '/' then Padded('\U{F7}', spaces)
    else if c == '-' then Padded('\U{2212}', spaces)
    else if c == '+' then Padded('+', spaces)
    else [c]
  }

  /** The four replacements in a row act character by character: each
      operator becomes its glyph, and no replacement touches what an earlier
      one wrote. */
  lemma PrettifyPerCharacter(input: string, spaces: bool)
    ensures Prettify(input, spaces) == Expand(input, c => Glyph(c, spaces))
  {
    var f1 := x => if x == '*' then Padded('\U{D7}', spaces) else [x];
    var f2 := x => if x == '/' then Padded('\U{F7}', spaces) else [x];
    var f3 := x => if x == '-' then Padded('\U{2212}', spaces) else [x];
    var f4 := x => if x == '+' then Padded('+', spaces) else [x];
    var s1 := Expand(input, f1);
    var s2 := Expand(s1, f2);
    var s3 := Expand(s2, f3);
    assert Prettify(input, spaces) == Expand(s3, f4);
    var g2 := x => Expand(f1(x), f2);
    ExpandCompose(input, f1, f2);
    var g3 := x => Expand(g2(x), f3);
    ExpandCompose(input, g2, f3);
    var g4 := x => Expand(g3(x), f4);
    ExpandCompose(input, g3, f4);
    forall x ensures g4(x) == Glyph(x, spaces) {
      GlyphSteps(x, spaces, f1, f2, f3, f4);
    }
    ExpandAgree(input, g4, c => Glyph(c, spaces));
  }

  lemma GlyphSteps(x: char, spaces: bool, f1: char -> string, f2: char -> string,
                   f3: char -> string, f4: char -> string)
    requires forall y :: f1(y) == if y == '*' then Padded('\U{D7}', spaces) else [y]
    requires forall y :: f2(y) == if y == '/' then Padded('\U{F7}', spaces) else [y]
    requires forall y :: f3(y) == if y == '-' then Padded('\U{2212}', spaces) else [y]
    requires forall y :: f4(y) == if y == '+' then Padded('+', spaces) else [y]
    ensures Expand(Expand(Expand(f1(x), f2), f3), f4) == Glyph(x, spaces)
  {
    var g := Glyph(x, spaces);
    if x == '*' || x == '/' || x == '-' {
      ExpandFixed(g, f4);
    }
    if x == '*' || x == '/' {
      ExpandFixed(g, f3);
    }
    if x == '*' {
      ExpandFixed(g, f2);
    }
    if x != '*' {
      ExpandOne(x, f2);
      if x != '/' {
        ExpandOne(x, f3);
        if x != '-' {
          ExpandOne(x, f4);
        }
      }
    }
  }

  lemma ExpandOne(x: char, f: char -> string)
    ensures Expand([x], f) == f(x)
  {
    assert [x][1..] == [];
  }

  /** A substitution that leaves every character of `w` alone leaves `w`
      alone. */
  lemma {:induction false} ExpandFixed(w: string, f: char -> string)
    requires forall i :: 0 <= i < |w| ==> f(w[i]) == [w[i]]
    ensures Expand(w, f) == w
    decreases |w|
  {
    if w != [] {
      ExpandFixed(w[1..], f);
    }
  }

  /** The glyph table read backwards. */
  function Ascii(c: char): string {
    if c == '\U{D7}' then "*"
    else if c == '\U{F7}' then "/"
    else if c == '\U{2212}' then "-"
    else [c]
  }

  /** Without padding the display can be read back: mapping every glyph to
      its operator restores the input, provided the input has no glyph of
      its own. */
  lemma PrettifyRoundTrip(input: string)
    requires forall i :: 0 <= i < |input| ==>
      input[i] != '\U{D7}' && input[i] != '\U{F7}' && input[i] != '\U{2212}'
    ensures Expand(Prettify(input, false), Ascii) == input
  {
    var g := c => Glyph(c, false);
    PrettifyPerCharacter(input, false);
    ExpandCompose(input, g, Ascii);
    forall i | 0 <= i < |input| ensures Expand(g(input[i]), Ascii) == [input[i]] {
      ExpandOne(Glyph(input[i], false)[0], Ascii);
      assert Glyph(input[i], false) == [Glyph(input[i], false)[0]];
    }
    ExpandFixed(input, x => Expand(g(x), Ascii));
  }

  /** Without padding every character stays one character. */
  lemma PrettifyLength(input: string)
    ensures |Prettify(input, false)| == |input|
  {
    PrettifyPerCharacter(input, false);
    ExpandSingles(input, c => Glyph(c, false));
  }

  lemma {:induction false} ExpandSingles(s: string, f: char -> string)
    requires forall c :: |f(c)| == 1
    ensures |Expand(s, f)| == |s|
    decreases |s|
  {
    if s != [] {
      ExpandSingles(s[1..], f);
    }
  }

  /** No '*', '/' or '-' is left on the display. */
  lemma PrettifyRemovesOperators(input: string, spaces: bool)
    ensures forall i :: 0 <= i < |Prettify(input, spaces)| ==>
      Prettify(input, spaces)[i] !in {'*', '/', '-'}
  {
    PrettifyPerCharacter(input, spaces);
    forall c, j | 0 <= j < |Glyph(c, spaces)| ensures Glyph(c, spaces)[j] !in {'*', '/', '-'} {
    }
    ExpandAvoids(input, c => Glyph(c, spaces), {'*', '/', '-'});
  }

  lemma {:induction false} ExpandAvoids(s: string, f: char -> string, bad: set<char>)
    requires forall c, j :: 0 <= j < |f(c)| ==> f(c)[j] !in bad
    ensures forall i :: 0 <= i < |Expand(s, f)| ==> Expand(s, f)[i] !in bad
    decreases |s|
  {
    if s != [] {
      ExpandAvoids(s[1..], f, bad);
      var h, t := f(s[0]), Expand(s[1..], f);
      assert forall i :: 0 <= i < |h| ==> h[i] !in bad;
      assert forall i :: 0 <= i < |h + t| ==> (h + t)[i] !in bad by {
        forall i | 0 <= i < |h + t| ensures (h + t)[i] !in bad {
          if i >= |h| { assert (h + t)[i] == t[i - |h|]; }
        }
      }
    }
  }

  /** The display of a concatenation is the concatenation of the
      displays. */
  lemma PrettifyConcat(a: string, b: string, spaces: bool)
    ensures Prettify(a + b, spaces) == Prettify(a, spaces) + Prettify(b, spaces)
  {
    PrettifyPerCharacter(a + b, spaces);
    PrettifyPerCharacter(a, spaces);
    PrettifyPerCharacter(b, spaces);
    ExpandConcat(a, b, c => Glyph(c, spaces));
  }
}
