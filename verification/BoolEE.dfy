/** The evaluator of verifier strings (src/LibBoolEE.cpp): propositional formulas over `!`, `&` and `|` are
    evaluated by cutting the text at its top-level operators.

    Exceptions are results. Character classes are those of the C locale. */
module BoolEE {

  datatype Error = UnknownOperator | ParenthesisParity | EmptySubExpression | NotAFormula | VariableNotFound

  datatype Result<T> = Ok(value: T) | Err(error: Error)

  type Vals = map<string, bool>

  predicate BelongsToName(c: char) {
    || '0' <= c <= '9' || 'A' <= c <= 'Z' || 'a' <= c <= 'z'
    || c == '_' || c == '#' || c == '.'
  }

  predicate IsSpace(c: char) {
    c in " \t\n\r" || c as int == 11 || c as int == 12
  }

  /** The text without its white space. */
  function Strip(s: string): (r: string)
    ensures |r| <= |s|
  {
    if s == [] then []
    else
      var n := |s| - 1;
      if IsSpace(s[n]) then Strip(s[..n]) else Strip(s[..n]) + [s[n]]
  }

  method RemoveWhitespaces(source: string) returns (result: string)
    ensures result == Strip(source)
  {
    result := "";
    for i := 0 to |source|
      invariant result == Strip(source[..i])
    {
      assert source[..i + 1][..i] == source[..i];
      if !IsSpace(source[i]) {
        result := result + [source[i]];
      }
    }
    assert source[..|source|] == source;
  }

  //////////////////////////////////////////////////////////////////////////////
  // Cutting at one operator
  //////////////////////////////////////////////////////////////////////////////

  /** The state of the scan: the parts cut off so far, whether the next part has begun, its text so far, and
      the number of open parentheses. */
  datatype Scan = Scan(parts: seq<string>, started: bool, current: string, parity: int)

  function More(s: Scan, c: char): Scan {
    if s.started then s.(current := s.current + [c]) else s
  }

  function Begin(s: Scan, c: char): Scan {
    s.(started := true, current := (if s.started then s.current else "") + [c])
  }

  function Step(s: Scan, op: char, c: char): Result<Scan> {
    if c == ')' then Ok(More(s, c).(parity := s.parity - 1))
    else if c == '(' then Ok(Begin(s, c).(parity := s.parity + 1))
    else if s.parity != 0 then Ok(More(s, c))
    else if BelongsToName(c) || c == '!' then Ok(Begin(s, c))
    else if !s.started then Ok(s)
    else if c == op then Ok(s.(parts := s.parts + [s.current], current := ""))
    else if c == '&' || c == '|' then Ok(More(s, c))
    else Err(UnknownOperator)
  }

  function Scanned(s: Scan, op: char, text: string): Result<Scan> {
    if text == [] then Ok(s)
    else
      var n := |text| - 1;
      match Scanned(s, op, text[..n])
      case Err(e) => Err(e)
      case Ok(t) => Step(t, op, text[n])
  }

  const START := Scan([], false, "", 0)

  function Finish(s: Scan): Result<seq<string>> {
    if s.parity != 0 then Err(ParenthesisParity)
    else Ok(if s.started then s.parts + [s.current] else s.parts)
  }

  function Parsed(formula: string, op: char): Result<seq<string>> {
    match Scanned(START, op, formula)
    case Err(e) => Err(e)
    case Ok(s) => Finish(s)
  }

  method SingleParse(formula: string, op: char) returns (r: Result<seq<string>>)
    ensures r == Parsed(formula, op)
  {
    hide Scanned, BelongsToName;
    ScannedNone(START, op);
    assert formula[..0] == [];
    var start := -1;
    var parity := 0;
    var parts: seq<string> := [];
    for i := 0 to |formula|
      invariant -1 <= start <= i
      invariant Scanned(START, op, formula[..i])
             == Ok(Scan(parts, start != -1, if start == -1 then "" else formula[start..i], parity))
    {
      ScannedNext(START, op, formula, i);
      assert start != -1 ==> formula[start..i + 1] == formula[start..i] + [formula[i]];
      assert formula[i..i + 1] == "" + [formula[i]] && formula[i + 1..i + 1] == [];
      if formula[i] == ')' {
        parity := parity - 1;
      } else if formula[i] == '(' {
        parity := parity + 1;
        if start == -1 {
          start := i;
        }
      } else if parity == 0 {
        if start == -1 {
          if BelongsToName(formula[i]) || formula[i] == '!' {
            start := i;
          }
        } else if !(BelongsToName(formula[i]) || formula[i] == '!') {
          if op == formula[i] {
            parts := parts + [formula[start..i]];
            start := i + 1;
          } else if formula[i] != '&' && formula[i] != '|' {
            ErrorStays(START, op, formula, i + 1);
            return Err(UnknownOperator);
          }
        }
      }
    }
    assert formula[..|formula|] == formula;
    if start != -1 {
      parts := parts + [formula[start..]];
    }
    if parity != 0 {
      return Err(ParenthesisParity);
    }
    return Ok(parts);
  }

  lemma ScannedNone(s: Scan, op: char)
    ensures Scanned(s, op, []) == Ok(s)
  {
  }

  lemma ScannedNext(s: Scan, op: char, text: string, i: nat)
    requires i < |text|
    ensures Scanned(s, op, text[..i + 1]) ==
            match Scanned(s, op, text[..i])
            case Err(e) => Err(e)
            case Ok(t) => Step(t, op, text[i])
  {
    assert text[..i + 1][..i] == text[..i];
  }

  lemma {:induction false} ErrorStays(s: Scan, op: char, text: string, n: nat)
    requires n <= |text| && Scanned(s, op, text[..n]).Err?
    ensures Scanned(s, op, text) == Scanned(s, op, text[..n])
  {
    if n == |text| {
      assert text[..n] == text;
    } else {
      assert text[..|text| - 1][..n] == text[..n];
      ErrorStays(s, op, text[..|text| - 1], n);
    }
  }

  /** The characters taken up: every part cut off has its operator behind it. */
  function Taken(parts: seq<string>): nat {
    if parts == [] then 0 else Taken(parts[..|parts| - 1]) + |parts[|parts| - 1]| + 1
  }

  lemma {:induction false} TakenBound(op: char, text: string)
    requires Scanned(START, op, text).Ok?
    ensures var s := Scanned(START, op, text).value; Taken(s.parts) + |s.current| <= |text|
  {
    if text != [] {
      var n := |text| - 1;
      TakenBound(op, text[..n]);
      var s, t := Scanned(START, op, text[..n]).value, Scanned(START, op, text).value;
      if t.parts != s.parts {
        assert t.parts[..|t.parts| - 1] == s.parts;
      }
    }
  }

  lemma {:induction false} TakenPart(parts: seq<string>, i: nat)
    requires i < |parts|
    ensures |parts[i]| + 1 <= Taken(parts)
  {
    if i < |parts| - 1 {
      TakenPart(parts[..|parts| - 1], i);
    }
  }

  /** A text that is cut gives shorter texts. */
  lemma PartsShorter(formula: string, op: char)
    requires Parsed(formula, op).Ok? && |Parsed(formula, op).value| >= 2
    ensures forall i | 0 <= i < |Parsed(formula, op).value| :: |Parsed(formula, op).value[i]| < |formula|
  {
    TakenBound(op, formula);
    var s := Scanned(START, op, formula).value;
    var parts := Parsed(formula, op).value;
    forall i | 0 <= i < |parts| ensures |parts[i]| < |formula| {
      if i < |s.parts| {
        TakenPart(s.parts, i);
      } else {
        assert |s.parts| >= 1;
        TakenPart(s.parts, 0);
      }
    }
  }

  //////////////////////////////////////////////////////////////////////////////
  // Evaluation
  //////////////////////////////////////////////////////////////////////////////

  /** The texts after the top-level cut, and whether they are joined by `|`. */
  function Cut(source: string): Result<(seq<string>, bool)> {
    match Parsed(source, '|')
    case Err(e) => Err(e)
    case Ok(terms) =>
      if |terms| != 1 then Ok((terms, true))
      else
        match Parsed(source, '&')
        case Err(e) => Err(e)
        case Ok(factors) => Ok((factors, false))
  }

  lemma CutShorter(source: string)
    requires Cut(source).Ok? && |Cut(source).value.0| >= 2
    ensures forall i | 0 <= i < |Cut(source).value.0| :: |Cut(source).value.0[i]| < |source|
  {
    if Cut(source).value.1 {
      PartsShorter(source, '|');
    } else {
      PartsShorter(source, '&');
    }
  }

  /** A text in parentheses that passed the parity test has both of them. */
  lemma ParityPair(source: string, op: char)
    requires source != [] && source[0] == '(' && Parsed(source, op).Ok?
    ensures |source| >= 2
  {
    ScannedNext(START, op, source, 0);
    assert source[..0] == [];
    assert source[..1] + source[1..] == source;
  }

  function Resolve(source: string, vals: Vals): Result<bool>
    decreases |source|, 1
  {
    ResolveRec(Strip(source), vals)
  }

  function ResolveRec(source: string, vals: Vals): Result<bool>
    decreases |source|, 0
  {
    if source == [] then Err(EmptySubExpression)
    else
      match Cut(source)
      case Err(e) => Err(e)
      case Ok((parts, disjunction)) =>
        if |parts| == 0 then Err(NotAFormula)
        else if |parts| == 1 then ResolveOne(source, vals)
        else
          CutShorter(source);
          ResolveAll(source, parts, |parts|, disjunction, vals)
  }

  /** All parts are evaluated, also when the result is clear. */
  function ResolveAll(source: string, parts: seq<string>, n: nat, disjunction: bool, vals: Vals): Result<bool>
    requires n <= |parts| && forall i | 0 <= i < |parts| :: |parts[i]| < |source|
    decreases |source|, 0, n
  {
    if n == 0 then Ok(!disjunction)
    else
      match ResolveAll(source, parts, n - 1, disjunction, vals)
      case Err(e) => Err(e)
      case Ok(before) =>
        match Resolve(parts[n - 1], vals)
        case Err(e) => Err(e)
        case Ok(v) => Ok(if disjunction then before || v else before && v)
  }

  function ResolveOne(source: string, vals: Vals): Result<bool>
    requires source != [] && Cut(source).Ok?
    decreases |source|, 0, 0
  {
    if source[0] == '!' then
      match Resolve(source[1..], vals)
      case Err(e) => Err(e)
      case Ok(v) => Ok(!v)
    else if source[0] == '(' then
      ParityPair(source, '|');
      Resolve(source[1..|source| - 1], vals)
    else if source == "1" then Ok(true)
    else if source == "0" then Ok(false)
    else if source in vals then Ok(vals[source])
    else Err(VariableNotFound)
  }

  /** The recursion of the source, on the loops above. */
  method ResolveText(source: string, vals: Vals) returns (r: Result<bool>)
    ensures r == Resolve(source, vals)
    decreases |source|, 1
  {
    var stripped := RemoveWhitespaces(source);
    r := ResolveStripped(stripped, vals);
  }

  method ResolveStripped(source: string, vals: Vals) returns (r: Result<bool>)
    ensures r == ResolveRec(source, vals)
    decreases |source|, 0
  {
    hide Strip, Parsed;
    if |source| == 0 {
      return Err(EmptySubExpression);
    }
    var disjunction := true;
    var parsed := SingleParse(source, '|');
    if parsed.Err? {
      return Err(parsed.error);
    }
    if |parsed.value| == 1 {
      disjunction := false;
      parsed := SingleParse(source, '&');
      if parsed.Err? {
        return Err(parsed.error);
      }
    }
    var parts := parsed.value;
    if |parts| == 0 {
      return Err(NotAFormula);
    }
    if |parts| == 1 {
      if source[0] == '!' {
        r := ResolveText(source[1..], vals);
        return if r.Ok? then Ok(!r.value) else r;
      } else if source[0] == '(' {
        ParityPair(source, '|');
        r := ResolveText(source[1..|source| - 1], vals);
        return;
      } else if source == "1" {
        return Ok(true);
      } else if source == "0" {
        return Ok(false);
      } else if source !in vals {
        return Err(VariableNotFound);
      }
      return Ok(vals[source]);
    }
    CutShorter(source);
    var result := !disjunction;
    for i := 0 to |parts|
      invariant ResolveAll(source, parts, i, disjunction, vals) == Ok(result)
    {
      var v := ResolveText(parts[i], vals);
      if v.Err? {
        FirstError(source, parts, i + 1, disjunction, vals);
        return Err(v.error);
      }
      result := if disjunction then result || v.value else result && v.value;
    }
    return Ok(result);
  }

  lemma {:induction false} FirstError(source: string, parts: seq<string>, n: nat, disjunction: bool, vals: Vals)
    requires n <= |parts| && forall i | 0 <= i < |parts| :: |parts[i]| < |source|
    requires ResolveAll(source, parts, n, disjunction, vals).Err?
    ensures ResolveAll(source, parts, |parts|, disjunction, vals) == ResolveAll(source, parts, n, disjunction, vals)
    decreases |parts| - n
  {
    if n < |parts| {
      FirstError(source, parts, n + 1, disjunction, vals);
    }
  }

  //////////////////////////////////////////////////////////////////////////////
  // Formulas
  //////////////////////////////////////////////////////////////////////////////

  /** A formula as it is written, with its parentheses. */
  datatype Formula =
    | Constant(value: bool)
    | Variable(name: string)
    | Not(f: Formula)
    | Paren(f: Formula)
    | And(l: Formula, r: Formula)
    | Or(l: Formula, r: Formula)

  /** `!` binds tighter than `&` and `&` tighter than `|`; what is written otherwise is in parentheses. Names
      have at least one character and are not the constants. */
  predicate Correct(f: Formula) {
    match f
    case Constant(_) => true
    case Variable(n) => n != "" && n != "0" && n != "1" && forall i | 0 <= i < |n| :: BelongsToName(n[i])
    case Not(g) => Correct(g) && !g.And? && !g.Or?
    case Paren(g) => Correct(g)
    case And(l, r) => Correct(l) && Correct(r) && !l.Or? && !r.Or?
    case Or(l, r) => Correct(l) && Correct(r)
  }

  function Printed(f: Formula): string {
    match f
    case Constant(v) => if v then "1" else "0"
    case Variable(n) => n
    case Not(g) => "!" + Printed(g)
    case Paren(g) => "(" + Printed(g) + ")"
    case And(l, r) => Printed(l) + "&" + Printed(r)
    case Or(l, r) => Printed(l) + "|" + Printed(r)
  }

  predicate Covered(f: Formula, vals: Vals) {
    match f
    case Constant(_) => true
    case Variable(n) => n in vals
    case Not(g) => Covered(g, vals)
    case Paren(g) => Covered(g, vals)
    case And(l, r) => Covered(l, vals) && Covered(r, vals)
    case Or(l, r) => Covered(l, vals) && Covered(r, vals)
  }

  predicate Truth(f: Formula, vals: Vals)
    requires Covered(f, vals)
  {
    match f
    case Constant(v) => v
    case Variable(n) => vals[n]
    case Not(g) => !Truth(g, vals)
    case Paren(g) => Truth(g, vals)
    case And(l, r) => Truth(l, vals) && Truth(r, vals)
    case Or(l, r) => Truth(l, vals) || Truth(r, vals)
  }

  /** The formulas that a top-level operator joins. */
  function Operands(f: Formula, op: char): (r: seq<Formula>)
    ensures r != []
  {
    if (op == '|' && f.Or?) || (op == '&' && f.And?) then Operands(f.l, op) + Operands(f.r, op) else [f]
  }

  //////////////////////////////////////////////////////////////////////////////
  // Scanning a printed formula
  //////////////////////////////////////////////////////////////////////////////

  lemma {:induction false} ScannedSplit(s: Scan, op: char, a: string, b: string)
    ensures Scanned(s, op, a + b) ==
            match Scanned(s, op, a)
            case Err(e) => Err(e)
            case Ok(t) => Scanned(t, op, b)
  {
    if b == [] {
      assert a + b == a;
    } else {
      var n := |b| - 1;
      ScannedSplit(s, op, a, b[..n]);
      assert (a + b)[..|a| + n] == a + b[..n] && (a + b)[|a| + n] == b[n];
    }
  }

  lemma ScannedOne(s: Scan, op: char, c: char)
    ensures Scanned(s, op, [c]) == Step(s, op, c)
  {
    assert [c][..0] == [];
  }

  /** A name is added to the current part. */
  lemma {:induction false} ScannedName(s: Scan, op: char, n: string)
    requires forall i | 0 <= i < |n| :: BelongsToName(n[i])
    requires s.started
    ensures Scanned(s, op, n) == Ok(s.(current := s.current + n))
  {
    if n == [] {
      assert s.current + n == s.current;
    } else {
      var k := |n| - 1;
      ScannedName(s, op, n[..k]);
      assert s.current + n[..k] + [n[k]] == s.current + n;
    }
  }

  /** Inside parentheses a whole formula is added to the current part. */
  lemma {:induction false} ScannedInside(s: Scan, op: char, f: Formula)
    requires Correct(f) && s.started && s.parity > 0
    ensures Scanned(s, op, Printed(f)) == Ok(s.(current := s.current + Printed(f)))
    decreases f, 1
  {
    hide Scanned, BelongsToName;
    match f
    case Constant(v) => ScannedDigit(s, op, v);
    case Variable(n) => ScannedName(s, op, n);
    case Not(g) =>
      var t := s.(current := s.current + "!");
      ScannedInside(t, op, g);
      InsideNot(s, op, Printed(g));
    case Paren(g) =>
      var t := s.(current := s.current + "(", parity := s.parity + 1);
      ScannedInside(t, op, g);
      InsideParen(s, op, Printed(g));
    case And(l, r) => InsideTwo(s, op, f, '&');
    case Or(l, r) => InsideTwo(s, op, f, '|');
  }

  lemma InsideNot(s: Scan, op: char, g: string)
    requires s.started && s.parity > 0
    requires var t := s.(current := s.current + "!"); Scanned(t, op, g) == Ok(t.(current := t.current + g))
    ensures Scanned(s, op, "!" + g) == Ok(s.(current := s.current + ("!" + g)))
  {
    hide Scanned;
    ScannedOne(s, op, '!');
    ScannedSplit(s, op, "!", g);
    assert s.current + "!" + g == s.current + ("!" + g);
  }

  lemma InsideParen(s: Scan, op: char, g: string)
    requires s.started
    requires var t := s.(current := s.current + "(", parity := s.parity + 1);
             Scanned(t, op, g) == Ok(t.(current := t.current + g))
    ensures Scanned(s, op, "(" + g + ")") == Ok(s.(current := s.current + ("(" + g + ")")))
  {
    hide Scanned;
    ScannedOne(s, op, '(');
    ScannedSplit(s, op, "(", g);
    var t := s.(current := s.current + "(", parity := s.parity + 1);
    ScannedSplit(s, op, "(" + g, ")");
    ScannedOne(t.(current := t.current + g), op, ')');
    assert s.current + "(" + g + ")" == s.current + ("(" + g + ")");
  }

  lemma ScannedDigit(s: Scan, op: char, v: bool)
    requires s.started
    ensures Scanned(s, op, Printed(Constant(v))) == Ok(s.(current := s.current + Printed(Constant(v))))
  {
    ScannedName(s, op, Printed(Constant(v)));
  }

  lemma {:induction false} InsideTwo(s: Scan, op: char, f: Formula, c: char)
    requires Correct(f) && s.started && s.parity > 0
    requires (f.And? && c == '&') || (f.Or? && c == '|')
    ensures Scanned(s, op, Printed(f)) == Ok(s.(current := s.current + Printed(f)))
    decreases f, 0
  {
    hide Scanned, BelongsToName;
    var l, r := Printed(f.l), Printed(f.r);
    ScannedInside(s, op, f.l);
    ScannedSplit(s, op, l, [c]);
    var t := s.(current := s.current + l);
    ScannedOne(t, op, c);
    var u := t.(current := t.current + [c]);
    ScannedSplit(s, op, l + [c], r);
    ScannedInside(u, op, f.r);
    assert s.current + l + [c] + r == s.current + (l + [c] + r);
  }

  /** The current part is cut off. */
  function CutOff(s: Scan): Scan {
    s.(parts := s.parts + [s.current], current := "")
  }

  /** The scan after the texts `ts` with operators between them. */
  function Appended(s: Scan, ts: seq<string>): Scan
    requires ts != []
    decreases |ts|
  {
    var t := s.(current := s.current + ts[0]);
    if |ts| == 1 then t else Appended(CutOff(t), ts[1..])
  }

  lemma {:induction false} AppendedSplit(s: Scan, a: seq<string>, b: seq<string>)
    requires a != [] && b != []
    ensures Appended(s, a + b) == Appended(CutOff(Appended(s, a)), b)
    decreases |a|
  {
    var t := s.(current := s.current + a[0]);
    if |a| == 1 {
      assert (a + b)[1..] == b;
    } else {
      assert (a + b)[1..] == a[1..] + b;
      AppendedSplit(CutOff(t), a[1..], b);
    }
  }

  lemma {:induction false} AppendedState(s: Scan, ts: seq<string>)
    requires ts != []
    ensures Appended(s, ts).started == s.started && Appended(s, ts).parity == s.parity
    ensures Appended(s, ts).parts + [Appended(s, ts).current] == s.parts + [s.current + ts[0]] + ts[1..]
    decreases |ts|
  {
    if |ts| > 1 {
      var t := CutOff(s.(current := s.current + ts[0]));
      AppendedState(t, ts[1..]);
      assert t.current + ts[1] == ts[1];
      assert [ts[1]] + ts[1..][1..] == ts[1..];
    }
  }

  function Texts(fs: seq<Formula>): (r: seq<string>)
    ensures |r| == |fs|
  {
    seq(|fs|, i requires 0 <= i < |fs| => Printed(fs[i]))
  }

  lemma TextsJoined(a: seq<Formula>, b: seq<Formula>)
    ensures Texts(a + b) == Texts(a) + Texts(b)
  {
  }

  /** Outside parentheses a formula is cut at its top-level operators. */
  lemma {:induction false} ScannedTop(s: Scan, op: char, f: Formula)
    requires Correct(f) && s.started && s.parity == 0
    requires op == '|' || (op == '&' && !f.Or?)
    ensures Scanned(s, op, Printed(f)) == Ok(Appended(s, Texts(Operands(f, op))))
    decreases f, 1
  {
    hide Scanned, BelongsToName, Texts, Appended;
    match f
    case Constant(v) =>
      ScannedDigit(s, op, v);
      AppendedOne(s, f);
    case Variable(n) =>
      ScannedName(s, op, n);
      AppendedOne(s, f);
    case Not(g) =>
      TopNot(s, op, g);
      ScannedTop(s.(current := s.current + "!"), op, g);
      AppendedOne(s.(current := s.current + "!"), g);
      AppendedOne(s, f);
      assert s.current + "!" + Printed(g) == s.current + Printed(f);
    case Paren(g) =>
      TopParen(s, op, g);
      AppendedOne(s, f);
    case And(l, r) =>
      TopPair(s, op, f, l, r);
    case Or(l, r) =>
      TopPair(s, op, f, l, r);
  }

  lemma {:induction false} TopPair(s: Scan, op: char, f: Formula, l: Formula, r: Formula)
    requires Correct(f) && s.started && s.parity == 0
    requires f == And(l, r) || f == Or(l, r)
    requires op == '|' || (op == '&' && !f.Or?)
    ensures Scanned(s, op, Printed(f)) == Ok(Appended(s, Texts(Operands(f, op))))
    decreases f, 0
  {
    hide Scanned, BelongsToName, Texts, Appended;
    ScannedTop(s, op, l);
    var t := Appended(s, Texts(Operands(l, op)));
    AppendedState(s, Texts(Operands(l, op)));
    if f.And? && op == '|' {
      ScannedTop(t.(current := t.current + "&"), op, r);
      TopAdded(s, l, r);
    } else {
      ScannedTop(CutOff(t), op, r);
      TopCut(s, op, l, r, f);
    }
  }

  /** Two formulas joined by the operator at which the text is cut. */
  lemma TopCut(s: Scan, op: char, l: Formula, r: Formula, f: Formula)
    requires (op == '&' && f == And(l, r)) || (op == '|' && f == Or(l, r))
    requires s.started && s.parity == 0
    requires Scanned(s, op, Printed(l)) == Ok(Appended(s, Texts(Operands(l, op))))
    requires var t := CutOff(Appended(s, Texts(Operands(l, op))));
             Scanned(t, op, Printed(r)) == Ok(Appended(t, Texts(Operands(r, op))))
    ensures Scanned(s, op, Printed(f)) == Ok(Appended(s, Texts(Operands(f, op))))
  {
    hide Scanned, Texts, Appended;
    var t := Appended(s, Texts(Operands(l, op)));
    AppendedState(s, Texts(Operands(l, op)));
    TopTwo(s, t, op, Printed(l), op, Printed(r));
    TextsJoined(Operands(l, op), Operands(r, op));
    AppendedSplit(s, Texts(Operands(l, op)), Texts(Operands(r, op)));
  }

  /** Two formulas joined by `&` where the text is cut at `|`. */
  lemma TopAdded(s: Scan, l: Formula, r: Formula)
    requires s.started && s.parity == 0 && !l.Or? && !r.Or?
    requires Scanned(s, '|', Printed(l)) == Ok(Appended(s, Texts([l])))
    requires var t := Appended(s, Texts([l]));
             var u := t.(current := t.current + "&");
             Scanned(u, '|', Printed(r)) == Ok(Appended(u, Texts([r])))
    ensures Scanned(s, '|', Printed(And(l, r))) == Ok(Appended(s, Texts([And(l, r)])))
  {
    hide Scanned, Texts;
    TextsOne(l);
    TextsOne(r);
    TextsOne(And(l, r));
    TopTwo(s, Appended(s, Texts([l])), '|', Printed(l), '&', Printed(r));
    assert s.current + Printed(l) + "&" + Printed(r) == s.current + Printed(And(l, r));
  }

  lemma TextsOne(f: Formula)
    ensures Texts([f]) == [Printed(f)]
  {
  }

  lemma AppendedOne(s: Scan, f: Formula)
    ensures Appended(s, Texts([f])) == s.(current := s.current + Printed(f))
  {
  }

  lemma TopNot(s: Scan, op: char, g: Formula)
    requires s.started && s.parity == 0
    ensures Scanned(s, op, "!" + Printed(g)) == Scanned(s.(current := s.current + "!"), op, Printed(g))
  {
    hide Scanned;
    ScannedOne(s, op, '!');
    ScannedSplit(s, op, "!", Printed(g));
  }

  lemma TopParen(s: Scan, op: char, g: Formula)
    requires Correct(g) && s.started && s.parity == 0
    ensures Scanned(s, op, Printed(Paren(g))) == Ok(s.(current := s.current + Printed(Paren(g))))
  {
    hide Scanned, BelongsToName;
    ScannedInside(s.(current := s.current + "(", parity := 1), op, g);
    InsideParen(s, op, Printed(g));
  }

  /** An operator between two texts. */
  lemma TopTwo(s: Scan, t: Scan, op: char, l: string, c: char, r: string)
    requires Scanned(s, op, l) == Ok(t) && t.started && t.parity == 0 && (c == '&' || c == '|')
    ensures Scanned(s, op, l + [c] + r) == Scanned(if c == op then CutOff(t) else t.(current := t.current + [c]), op, r)
  {
    hide Scanned;
    ScannedSplit(s, op, l, [c]);
    ScannedOne(t, op, c);
    ScannedSplit(s, op, l + [c], r);
  }

  lemma {:induction false} FirstCharacter(f: Formula)
    requires Correct(f)
    ensures Printed(f) != [] && (BelongsToName(Printed(f)[0]) || Printed(f)[0] == '!' || Printed(f)[0] == '(')
  {
    match f
    case And(l, r) => FirstCharacter(l);
    case Or(l, r) => FirstCharacter(l);
    case _ =>
  }

  lemma ScannedStart(op: char, text: string)
    requires text != [] && (BelongsToName(text[0]) || text[0] == '!' || text[0] == '(')
    ensures Scanned(START, op, text) == Scanned(START.(started := true), op, text)
  {
    hide Scanned;
    assert text == [text[0]] + text[1..];
    ScannedSplit(START, op, [text[0]], text[1..]);
    ScannedSplit(START.(started := true), op, [text[0]], text[1..]);
    ScannedOne(START, op, text[0]);
    ScannedOne(START.(started := true), op, text[0]);
  }

  /** Cutting a printed formula gives the printed operands. */
  lemma ParsedPrinted(f: Formula, op: char)
    requires Correct(f) && (op == '|' || (op == '&' && !f.Or?))
    ensures Parsed(Printed(f), op) == Ok(Texts(Operands(f, op)))
  {
    hide Scanned, BelongsToName, Appended, Texts;
    var s, ts := START.(started := true), Texts(Operands(f, op));
    FirstCharacter(f);
    ScannedStart(op, Printed(f));
    ScannedTop(s, op, f);
    AppendedState(s, ts);
    assert s.current + ts[0] == ts[0];
    assert [] + [ts[0]] + ts[1..] == ts;
  }

  //////////////////////////////////////////////////////////////////////////////
  // The value of a printed formula
  //////////////////////////////////////////////////////////////////////////////

  function Size(f: Formula): nat {
    match f
    case Not(g) => Size(g) + 1
    case Paren(g) => Size(g) + 1
    case And(l, r) => Size(l) + Size(r) + 1
    case Or(l, r) => Size(l) + Size(r) + 1
    case _ => 0
  }

  ghost predicate AllGood(fs: seq<Formula>, vals: Vals, limit: nat) {
    forall i | 0 <= i < |fs| :: Correct(fs[i]) && Covered(fs[i], vals) && Size(fs[i]) <= limit
  }

  lemma {:induction false} OperandsGood(f: Formula, op: char, vals: Vals)
    requires Correct(f) && Covered(f, vals) && (op == '|' || op == '&')
    ensures AllGood(Operands(f, op), vals, Size(f))
    ensures |Operands(f, op)| > 1 ==> AllGood(Operands(f, op), vals, Size(f) - 1)
  {
    if (op == '|' && f.Or?) || (op == '&' && f.And?) {
      OperandsGood(f.l, op, vals);
      OperandsGood(f.r, op, vals);
    }
  }

  /** The first `n` formulas joined by an operator. */
  ghost predicate Combined(fs: seq<Formula>, n: nat, disjunction: bool, vals: Vals)
    requires n <= |fs| && forall i | 0 <= i < |fs| :: Covered(fs[i], vals)
  {
    if disjunction then exists i :: 0 <= i < n && Truth(fs[i], vals)
    else forall i | 0 <= i < n :: Truth(fs[i], vals)
  }

  lemma {:induction false} OperandsTruth(f: Formula, op: char, vals: Vals)
    requires Correct(f) && Covered(f, vals) && (op == '|' || op == '&')
    requires AllGood(Operands(f, op), vals, Size(f))
    ensures Truth(f, vals) == Combined(Operands(f, op), |Operands(f, op)|, op == '|', vals)
  {
    if (op == '|' && f.Or?) || (op == '&' && f.And?) {
      OperandsGood(f.l, op, vals);
      OperandsGood(f.r, op, vals);
      OperandsTruth(f.l, op, vals);
      OperandsTruth(f.r, op, vals);
      var a, b := Operands(f.l, op), Operands(f.r, op);
      CombinedJoined(a, b, op == '|', vals);
    } else {
      assert Operands(f, op)[0] == f;
    }
  }

  lemma CombinedJoined(a: seq<Formula>, b: seq<Formula>, disjunction: bool, vals: Vals)
    requires forall i | 0 <= i < |a| :: Covered(a[i], vals)
    requires forall i | 0 <= i < |b| :: Covered(b[i], vals)
    ensures forall i | 0 <= i < |a + b| :: Covered((a + b)[i], vals)
    ensures var p, q := Combined(a, |a|, disjunction, vals), Combined(b, |b|, disjunction, vals);
            Combined(a + b, |a + b|, disjunction, vals) == if disjunction then p || q else p && q
  {
    var c := a + b;
    assert forall i | 0 <= i < |a| :: c[i] == a[i];
    assert forall i | 0 <= i < |b| :: c[|a| + i] == b[i];
  }

  lemma {:induction false} StripNone(s: string)
    requires forall i | 0 <= i < |s| :: !IsSpace(s[i])
    ensures Strip(s) == s
  {
    if s != [] {
      StripNone(s[..|s| - 1]);
    }
  }

  lemma {:induction false} PrintedNoSpace(f: Formula)
    requires Correct(f)
    ensures forall i | 0 <= i < |Printed(f)| :: !IsSpace(Printed(f)[i])
  {
    match f
    case Not(g) => PrintedNoSpace(g);
    case Paren(g) => PrintedNoSpace(g);
    case And(l, r) =>
      PrintedNoSpace(l);
      PrintedNoSpace(r);
    case Or(l, r) =>
      PrintedNoSpace(l);
      PrintedNoSpace(r);
    case _ =>
  }

  lemma {:induction false} ResolveOperands(source: string, fs: seq<Formula>, n: nat, disjunction: bool, vals: Vals, limit: nat)
    requires n <= |fs| && AllGood(fs, vals, limit)
    requires forall i | 0 <= i < |fs| :: |Texts(fs)[i]| < |source|
    ensures ResolveAll(source, Texts(fs), n, disjunction, vals) == Ok(Combined(fs, n, disjunction, vals))
    decreases limit, 3, n
  {
    hide Resolve, Truth, Texts, Printed, Strip, Covered, Correct;
    if n > 0 {
      ResolveOperands(source, fs, n - 1, disjunction, vals, limit);
      ResolvePrinted(fs[n - 1], vals);
      TextsAt(fs, n - 1);
    }
  }

  lemma TextsAt(fs: seq<Formula>, i: nat)
    requires i < |fs|
    ensures Texts(fs)[i] == Printed(fs[i])
  {
  }

  lemma {:induction false} ResolvePrinted(f: Formula, vals: Vals)
    requires Correct(f) && Covered(f, vals)
    ensures Resolve(Printed(f), vals) == Ok(Truth(f, vals))
    decreases Size(f), 2, 0
  {
    hide Scanned, Parsed, BelongsToName, Texts, Strip;
    var source := Printed(f);
    PrintedNoSpace(f);
    StripNone(source);
    FirstCharacter(f);
    ParsedPrinted(f, '|');
    if f.Or? {
      ResolveJoined(f, '|', vals);
    } else {
      ParsedPrinted(f, '&');
      if f.And? {
        ResolveJoined(f, '&', vals);
      } else {
        ResolveSingle(f, vals);
      }
    }
  }

  lemma {:induction false} ResolveJoined(f: Formula, op: char, vals: Vals)
    requires Correct(f) && Covered(f, vals) && Printed(f) != []
    requires (f.Or? && op == '|') || (f.And? && op == '&')
    requires Parsed(Printed(f), '|') == Ok(Texts(Operands(f, '|')))
    requires op == '&' ==> Parsed(Printed(f), '&') == Ok(Texts(Operands(f, '&')))
    ensures ResolveRec(Printed(f), vals) == Ok(Truth(f, vals))
    decreases Size(f), 1, 0
  {
    hide Scanned, Parsed, BelongsToName, Texts;
    var fs := Operands(f, op);
    OperandsGood(f, op, vals);
    OperandsTruth(f, op, vals);
    CutShorter(Printed(f));
    assert Cut(Printed(f)) == Ok((Texts(fs), op == '|'));
    ResolveOperands(Printed(f), fs, |fs|, op == '|', vals, Size(f) - 1);
  }

  lemma {:induction false} ResolveSingle(f: Formula, vals: Vals)
    requires Correct(f) && Covered(f, vals) && !f.Or? && !f.And? && Printed(f) != []
    requires Parsed(Printed(f), '|') == Ok(Texts(Operands(f, '|')))
    requires Parsed(Printed(f), '&') == Ok(Texts(Operands(f, '&')))
    ensures ResolveRec(Printed(f), vals) == Ok(Truth(f, vals))
    decreases Size(f), 1, 0
  {
    hide Scanned, Parsed, Texts, Strip, Resolve;
    var source := Printed(f);
    match f
    case Not(g) =>
      ResolvePrinted(g, vals);
      assert source[1..] == Printed(g);
    case Paren(g) =>
      ResolvePrinted(g, vals);
      assert source[1..|source| - 1] == Printed(g);
    case _ => ResolveAtom(f, vals);
  }

  lemma ResolveAtom(f: Formula, vals: Vals)
    requires Correct(f) && Covered(f, vals) && (f.Constant? || f.Variable?) && Printed(f) != []
    requires Parsed(Printed(f), '|') == Ok(Texts(Operands(f, '|')))
    requires Parsed(Printed(f), '&') == Ok(Texts(Operands(f, '&')))
    ensures ResolveRec(Printed(f), vals) == Ok(Truth(f, vals))
  {
    hide Scanned, Parsed, Texts, Strip, Resolve;
    assert Cut(Printed(f)) == Ok((Texts([f]), false));
  }

  /** A formula with white space anywhere has its truth value if the valuation has all its names, and otherwise
      fails for want of one. */
  lemma ResolveAnyText(text: string, f: Formula, vals: Vals)
    requires Correct(f) && Strip(text) == Printed(f)
    ensures Resolve(text, vals) == if Covered(f, vals) then Ok(Truth(f, vals)) else Err(VariableNotFound)
  {
    hide ResolveRec, Strip;
    ResolveExact(f, vals);
    PrintedNoSpace(f);
    StripNone(Printed(f));
  }

  //////////////////////////////////////////////////////////////////////////////
  // Errors
  //////////////////////////////////////////////////////////////////////////////

  /** White space is the characters with the codes 9 to 13 and 32. Stripping drops these and keeps the rest in order. */
  lemma StripExact(a: string, c: char)
    ensures IsSpace(c) <==> c as int in {9, 10, 11, 12, 13, 32}
    ensures Strip(a + [c]) == Strip(a) + if IsSpace(c) then [] else [c]
    ensures Strip([]) == []
  {
    assert (a + [c])[..|a|] == a;
    assert Strip(a) + [] == Strip(a);
  }

  /** Names are made of digits, letters, `_`, `#` and `.`. */
  lemma NameExact(c: char)
    ensures var n := c as int;
            BelongsToName(c) <==> 48 <= n <= 57 || 65 <= n <= 90 || 97 <= n <= 122 || n in {35, 46, 95}
  {
  }

  /** Each part has a value or fails for want of a variable; then so do all together, and they have one exactly if
      each does. */
  lemma {:induction false} MissingPart(source: string, parts: seq<string>, n: nat, disjunction: bool, vals: Vals)
    requires n <= |parts| && forall i | 0 <= i < |parts| :: |parts[i]| < |source|
    requires forall i | 0 <= i < n :: Resolve(parts[i], vals).Ok? || Resolve(parts[i], vals) == Err(VariableNotFound)
    ensures var r := ResolveAll(source, parts, n, disjunction, vals);
            && (r.Ok? || r == Err(VariableNotFound))
            && (r.Ok? <==> forall i | 0 <= i < n :: Resolve(parts[i], vals).Ok?)
    decreases n
  {
    hide Resolve;
    if n > 0 {
      MissingPart(source, parts, n - 1, disjunction, vals);
    }
  }

  ghost predicate AllCorrect(fs: seq<Formula>, limit: nat) {
    forall i | 0 <= i < |fs| :: Correct(fs[i]) && Size(fs[i]) <= limit
  }

  lemma {:induction false} OperandsCorrect(f: Formula, op: char)
    requires Correct(f) && (op == '|' || op == '&')
    ensures AllCorrect(Operands(f, op), Size(f))
    ensures |Operands(f, op)| > 1 ==> AllCorrect(Operands(f, op), Size(f) - 1)
  {
    if (op == '|' && f.Or?) || (op == '&' && f.And?) {
      OperandsCorrect(f.l, op);
      OperandsCorrect(f.r, op);
    }
  }

  ghost predicate AllCovered(fs: seq<Formula>, vals: Vals) {
    forall i | 0 <= i < |fs| :: Covered(fs[i], vals)
  }

  lemma AllCoveredJoined(a: seq<Formula>, b: seq<Formula>, vals: Vals)
    ensures AllCovered(a + b, vals) <==> AllCovered(a, vals) && AllCovered(b, vals)
  {
    hide Covered;
    if AllCovered(a + b, vals) {
      forall i | 0 <= i < |a| ensures Covered(a[i], vals) {
        assert (a + b)[i] == a[i];
      }
      forall i | 0 <= i < |b| ensures Covered(b[i], vals) {
        assert (a + b)[|a| + i] == b[i];
      }
    }
  }

  lemma {:induction false} OperandsCovered(f: Formula, op: char, vals: Vals)
    ensures Covered(f, vals) <==> AllCovered(Operands(f, op), vals)
  {
    if (op == '|' && f.Or?) || (op == '&' && f.And?) {
      OperandsCovered(f.l, op, vals);
      OperandsCovered(f.r, op, vals);
      AllCoveredJoined(Operands(f.l, op), Operands(f.r, op), vals);
    } else {
      assert Operands(f, op)[0] == f;
    }
  }

  /** A correct formula has its truth value exactly if the valuation has all its names; otherwise a name that is
      missing is reported, also where the value would be clear without it. */
  lemma {:induction false} ResolveExact(f: Formula, vals: Vals)
    requires Correct(f)
    ensures Resolve(Printed(f), vals) == if Covered(f, vals) then Ok(Truth(f, vals)) else Err(VariableNotFound)
    decreases Size(f), 2
  {
    hide Scanned, Parsed, BelongsToName, Texts, Strip, Cut;
    if Covered(f, vals) {
      ResolvePrinted(f, vals);
    } else {
      PrintedNoSpace(f);
      StripNone(Printed(f));
      FirstCharacter(f);
      CutPrinted(f);
      if f.Or? || f.And? {
        MissingJoined(f, if f.Or? then '|' else '&', vals);
      } else {
        MissingSingle(f, vals);
      }
    }
  }

  lemma CutPrinted(f: Formula)
    requires Correct(f)
    ensures Cut(Printed(f)) == Ok(if f.Or? then (Texts(Operands(f, '|')), true) else (Texts(Operands(f, '&')), false))
    ensures f.Or? ==> |Operands(f, '|')| > 1
    ensures f.And? ==> |Operands(f, '&')| > 1
    ensures !f.Or? && !f.And? ==> Operands(f, '&') == [f]
  {
    hide Scanned, Parsed, BelongsToName;
    ParsedPrinted(f, '|');
    if !f.Or? {
      ParsedPrinted(f, '&');
    }
  }

  lemma {:induction false} MissingJoined(f: Formula, op: char, vals: Vals)
    requires Correct(f) && !Covered(f, vals) && Printed(f) != [] && ((f.Or? && op == '|') || (f.And? && op == '&'))
    requires Cut(Printed(f)) == Ok((Texts(Operands(f, op)), op == '|')) && |Operands(f, op)| > 1
    ensures ResolveRec(Printed(f), vals) == Err(VariableNotFound)
    decreases Size(f), 1
  {
    hide Scanned, Parsed, BelongsToName, Texts, Cut, Resolve, Operands;
    var fs := Operands(f, op);
    OperandsCorrect(f, op);
    OperandsCovered(f, op, vals);
    CutShorter(Printed(f));
    forall i | 0 <= i < |fs|
      ensures Resolve(Texts(fs)[i], vals).Ok? || Resolve(Texts(fs)[i], vals) == Err(VariableNotFound)
      ensures Resolve(Texts(fs)[i], vals).Ok? <==> Covered(fs[i], vals)
    {
      TextsAt(fs, i);
      ResolveExact(fs[i], vals);
    }
    MissingPart(Printed(f), Texts(fs), |fs|, op == '|', vals);
  }

  lemma {:induction false} MissingSingle(f: Formula, vals: Vals)
    requires Correct(f) && !Covered(f, vals) && !f.Or? && !f.And? && Printed(f) != []
    requires Cut(Printed(f)) == Ok((Texts([f]), false))
    ensures ResolveRec(Printed(f), vals) == Err(VariableNotFound)
    decreases Size(f), 1
  {
    hide Scanned, Parsed, Strip, Resolve, Cut;
    var source := Printed(f);
    match f
    case Not(g) =>
      ResolveExact(g, vals);
      assert source[1..] == Printed(g);
    case Paren(g) =>
      ResolveExact(g, vals);
      assert source[1..|source| - 1] == Printed(g);
    case _ =>
  }

  function Count(text: string, c: char): nat {
    if text == [] then 0 else Count(text[..|text| - 1], c) + if text[|text| - 1] == c then 1 else 0
  }

  lemma {:induction false} ScannedParity(op: char, text: string)
    requires Scanned(START, op, text).Ok?
    ensures Scanned(START, op, text).value.parity == Count(text, '(') - Count(text, ')')
  {
    if text != [] {
      ScannedParity(op, text[..|text| - 1]);
    }
  }

  lemma {:induction false} CountStrip(text: string, c: char)
    requires !IsSpace(c)
    ensures Count(Strip(text), c) == Count(text, c)
  {
    if text != [] {
      var n := |text| - 1;
      CountStrip(text[..n], c);
      if !IsSpace(text[n]) {
        assert Strip(text)[..|Strip(text)| - 1] == Strip(text[..n]);
      }
    }
  }

  /** A text with more opening than closing parentheses, or more closing than opening ones, is refused, and so is
      one of white space only. */
  lemma Unbalanced(text: string, vals: Vals)
    ensures Count(text, '(') != Count(text, ')') ==> Resolve(text, vals).Err?
    ensures Strip(text) == [] ==> Resolve(text, vals) == Err(EmptySubExpression)
  {
    hide Strip, Scanned, ResolveAll, ResolveOne;
    CountStrip(text, '(');
    CountStrip(text, ')');
    var source := Strip(text);
    if Scanned(START, '|', source).Ok? {
      ScannedParity('|', source);
    }
  }

  /** A character that is none of the syntax, outside parentheses and after the start of an operand, is refused. */
  lemma UnknownRefused(a: string, c: char, b: string, vals: Vals)
    requires Strip(a + [c] + b) == a + [c] + b
    requires var s := Scanned(START, '|', a); s.Ok? && s.value.parity == 0 && s.value.started
    requires !BelongsToName(c) && c !in "!&|()"
    ensures Resolve(a + [c] + b, vals) == Err(UnknownOperator)
  {
    hide Strip, Scanned, ResolveAll, ResolveOne, BelongsToName;
    var text := a + [c] + b;
    ScannedNext(START, '|', text, |a|);
    assert text[..|a|] == a && text[..|a| + 1] == a + [c];
    ErrorStays(START, '|', text, |a| + 1);
  }
}
