/** The SI dimension vector: one exponent per base dimension, combined by products
    and quotients, written as `(sym^exp)` tokens and read back from them. */
module SiUnits {
  import opened Text

  /** The ways reading a unit or a quantity from text can fail. `InvalidUnit` is
      reserved: no reading produces it. */
  datatype SiParseError = InvalidValueLayout | InvalidUnit | InvalidCast

  datatype Result<+T> = Ok(value: T) | Err(error: SiParseError) {
    predicate IsFailure() {
      Err?
    }

    function PropagateFailure<U>(): Result<U>
      requires Err?
    {
      Err(error)
    }

    function Extract(): T
      requires Ok?
    {
      value
    }
  }

  /** Exponents of length, mass, time, temperature, current, amount of substance
      and luminous intensity. `SiUnit::new` is this constructor. */
  datatype SiUnit<E> = SiUnit(length: E, mass: E, time: E, temperature: E,
                              current: E, amount: E, luminousIntensity: E)

  /** The seven exponents in the fixed order m, kg, s, k, A, mol, cd. */
  function Exponents<E>(u: SiUnit<E>): (es: seq<E>)
    ensures |es| == 7
  {
    [u.length, u.mass, u.time, u.temperature, u.current, u.amount, u.luminousIntensity]
  }

  lemma ExponentsDetermineUnit<E>(a: SiUnit<E>, b: SiUnit<E>)
    requires forall i :: 0 <= i < 7 ==> Exponents(a)[i] == Exponents(b)[i]
    ensures a == b
  {
    assert Exponents(a)[0] == Exponents(b)[0] && Exponents(a)[1] == Exponents(b)[1];
    assert Exponents(a)[2] == Exponents(b)[2] && Exponents(a)[3] == Exponents(b)[3];
    assert Exponents(a)[4] == Exponents(b)[4] && Exponents(a)[5] == Exponents(b)[5];
    assert Exponents(a)[6] == Exponents(b)[6];
  }

  // ---------------------------------------------------------------------------
  // Equality and algebra

  /** Field-by-field comparison, as the source's `PartialEq` writes it. */
  function Equal<E(==)>(a: SiUnit<E>, b: SiUnit<E>): (r: bool)
    ensures r <==> a == b
  {
    && a.length == b.length
    && a.mass == b.mass
    && a.time == b.time
    && a.temperature == b.temperature
    && a.current == b.current
    && a.amount == b.amount
    && a.luminousIntensity == b.luminousIntensity
  }

  /** The dimension of a product: exponents add. */
  function Mul(a: SiUnit<int>, b: SiUnit<int>): (r: SiUnit<int>)
    ensures forall i :: 0 <= i < 7 ==> Exponents(r)[i] == Exponents(a)[i] + Exponents(b)[i]
  {
    SiUnit(b.length + a.length, b.mass + a.mass, b.time + a.time,
           b.temperature + a.temperature, b.current + a.current,
           b.amount + a.amount, b.luminousIntensity + a.luminousIntensity)
  }

  /** The dimension of a quotient: the divisor's exponents are subtracted. */
  function Div(a: SiUnit<int>, b: SiUnit<int>): (r: SiUnit<int>)
    ensures forall i :: 0 <= i < 7 ==> Exponents(r)[i] == Exponents(a)[i] - Exponents(b)[i]
  {
    SiUnit(a.length - b.length, a.mass - b.mass, a.time - b.time,
           a.temperature - b.temperature, a.current - b.current,
           a.amount - b.amount, a.luminousIntensity - b.luminousIntensity)
  }

  /** The dimensionless unit: every exponent zero. */
  function Default(): (r: SiUnit<int>)
    ensures forall i :: 0 <= i < 7 ==> Exponents(r)[i] == 0
  {
    SiUnit(0, 0, 0, 0, 0, 0, 0)
  }

  lemma MulCommutative(a: SiUnit<int>, b: SiUnit<int>)
    ensures Mul(a, b) == Mul(b, a)
  {
  }

  lemma MulAssociative(a: SiUnit<int>, b: SiUnit<int>, c: SiUnit<int>)
    ensures Mul(Mul(a, b), c) == Mul(a, Mul(b, c))
  {
  }

  /** The dimensionless unit is neutral for products and quotients. */
  lemma DefaultIsNeutral(a: SiUnit<int>)
    ensures Mul(a, Default()) == a && Mul(Default(), a) == a && Div(a, Default()) == a
  {
  }

  /** Dividing a product by one factor gives the other factor back. */
  lemma DivCancelsMul(a: SiUnit<int>, b: SiUnit<int>)
    ensures Div(Mul(a, b), b) == a && Div(Mul(a, b), a) == b
  {
  }

  lemma DivSelf(a: SiUnit<int>)
    ensures Div(a, a) == Default()
  {
  }

  // ---------------------------------------------------------------------------
  // Display

  /** The symbols written for the seven dimensions, in display order. */
  const Symbols: seq<string> := ["m", "kg", "s", "k", "A", "mol", "cd"]

  /** One written `(symbol^exponent)` token. */
  datatype Term = Term(symbol: string, exponent: int)

  /** The terms of the first `n` dimensions whose exponent is not zero, in order. */
  function NonZeroTermsUpTo(u: SiUnit<int>, n: nat): (ts: seq<Term>)
    requires n <= 7
    ensures |ts| <= n
    ensures forall i :: 0 <= i < |ts| ==> ts[i].exponent != 0
  {
    if n == 0 then []
    else
      NonZeroTermsUpTo(u, n - 1) +
      (if Exponents(u)[n - 1] != 0 then [Term(Symbols[n - 1], Exponents(u)[n - 1])] else [])
  }

  function NonZeroTerms(u: SiUnit<int>): seq<Term>
  {
    NonZeroTermsUpTo(u, 7)
  }

  /** The text between a token's parentheses. */
  function TokenBody(t: Term): string
  {
    t.symbol + "^" + IntToString(t.exponent)
  }

  function Bodies(ts: seq<Term>): (bs: seq<string>)
    ensures |bs| == |ts| && forall i :: 0 <= i < |ts| ==> bs[i] == TokenBody(ts[i])
  {
    seq(|ts|, i requires 0 <= i < |ts| => TokenBody(ts[i]))
  }

  function Token(t: Term): string
  {
    "(" + TokenBody(t) + ")"
  }

  /** The terms written one after another, each as `(symbol^exponent)`. */
  function Render(ts: seq<Term>): string
  {
    if |ts| == 0 then "" else Render(ts[..|ts| - 1]) + Token(ts[|ts| - 1])
  }

  /** The text of a unit: one token per non-zero exponent, in the order m, kg, s,
      k, A, mol, cd. */
  function UnitText(u: SiUnit<int>): string
  {
    Render(NonZeroTerms(u))
  }

  /** The token dimension `n` contributes: empty when its exponent is zero. */
  function Piece(u: SiUnit<int>, n: nat): string
    requires n < 7
  {
    if Exponents(u)[n] != 0 then Token(Term(Symbols[n], Exponents(u)[n])) else ""
  }

  /** Rendering the terms of one more dimension appends its token, if any. */
  lemma RenderStep(u: SiUnit<int>, n: nat)
    requires n < 7
    ensures Render(NonZeroTermsUpTo(u, n + 1)) == Render(NonZeroTermsUpTo(u, n)) + Piece(u, n)
  {
    var ts := NonZeroTermsUpTo(u, n);
    if Exponents(u)[n] != 0 {
      var t := Term(Symbols[n], Exponents(u)[n]);
      assert NonZeroTermsUpTo(u, n + 1) == ts + [t];
      assert (ts + [t])[..|ts|] == ts;
    } else {
      assert NonZeroTermsUpTo(u, n + 1) == ts;
    }
  }

  /** The text of a unit is the seven pieces one after another. */
  lemma UnitTextPieces(u: SiUnit<int>)
    ensures UnitText(u) == Piece(u, 0) + Piece(u, 1) + Piece(u, 2) + Piece(u, 3) + Piece(u, 4) + Piece(u, 5) + Piece(u, 6)
  {
    RenderStep(u, 0);
    assert Render(NonZeroTermsUpTo(u, 0)) == "";
    assert Render(NonZeroTermsUpTo(u, 1)) == Piece(u, 0);
    RenderStep(u, 1);
    RenderStep(u, 2);
    RenderStep(u, 3);
    RenderStep(u, 4);
    RenderStep(u, 5);
    RenderStep(u, 6);
  }

  /** Appends `(symbol^exponent)` unless the exponent is zero: one of the seven
      steps of the source's `Display`. */
  method PushToken(s: string, symbol: string, exponent: int) returns (r: string)
    ensures r == s + (if exponent != 0 then Token(Term(symbol, exponent)) else "")
  {
    r := s;
    if exponent != 0 {
      var x := IntToString(exponent);
      r := r + ("(" + symbol + "^" + x + ")");
      calc {
        Token(Term(symbol, exponent));
        "(" + ((symbol + "^") + x) + ")";
        { assert "(" + ((symbol + "^") + x) == ("(" + (symbol + "^")) + x; }
        ("(" + (symbol + "^")) + x + ")";
        { assert "(" + (symbol + "^") == "(" + symbol + "^"; }
        "(" + symbol + "^" + x + ")";
      }
    }
  }

  /** Builds the text token by token, as the source's `Display` does. */
  method Display(u: SiUnit<int>) returns (s: string)
    ensures s == UnitText(u)
  {
    s := "";
    s := PushToken(s, "m", u.length);
    s := PushToken(s, "kg", u.mass);
    s := PushToken(s, "s", u.time);
    s := PushToken(s, "k", u.temperature);
    s := PushToken(s, "A", u.current);
    s := PushToken(s, "mol", u.amount);
    s := PushToken(s, "cd", u.luminousIntensity);
    UnitTextPieces(u);
    assert "" + Piece(u, 0) == Piece(u, 0);
  }

  // ---------------------------------------------------------------------------
  // Parsing

  /** The lower-cased symbols the parser recognises, in field order. */
  const Keys: seq<string> := ["m", "kg", "s", "k", "a", "mol", "cd"]

  /** The field a symbol names, matched without regard to case. */
  function Slot(name: string): (k: Option<nat>)
    ensures k.Some? ==> k.value < 7 && Keys[k.value] == ToLower(name)
    ensures k.None? ==> forall i :: 0 <= i < 7 ==> Keys[i] != ToLower(name)
  {
    var key := ToLower(name);
    if key == "m" then Some(0)
    else if key == "kg" then Some(1)
    else if key == "s" then Some(2)
    else if key == "k" then Some(3)
    else if key == "a" then Some(4)
    else if key == "mol" then Some(5)
    else if key == "cd" then Some(6)
    else None
  }

  /** Reads one `sym^exp` token: the symbol before the first '^', the exponent
      after it as a float literal. */
  function ReadToken(token: string): (r: Read)
    ensures r.Ok? <==> SplitOnce(token, "^").Some? && ParseFloatLiteral(SplitOnce(token, "^").value.1).Some?
    ensures r.Err? ==> r.error == InvalidValueLayout
    ensures r.Ok? ==>
      && |r.value.0| < |token| && token[..|r.value.0| + 1] == r.value.0 + "^"
      && Lacks(r.value.0, '^')
      && ParseFloatLiteral(token[|r.value.0| + 1..]) == Some(r.value.1)
  {
    match SplitOnce(token, "^")
    case None => Err(InvalidValueLayout)
    case Some((name, exponent)) =>
      assert token[..|name| + 1] == name + "^" && token[|name| + 1..] == exponent;
      assert Lacks(name, '^') by {
        assert Find(token, "^") == Some(|name|);
        forall j | 0 <= j < |name| ensures name[j] != '^' {
          assert !OccursAt(token, "^", j);
          assert token[j..j + 1] == [name[j]];
        }
      }
      match ParseFloatLiteral(exponent)
      case None => Err(InvalidValueLayout)
      case Some(n) => Ok((name, n))
  }

  /** Integral exponents fit the exponent type; the others fail the cast. */
  function Cast(n: Number): (r: Result<int>)
    ensures r.Ok? <==> n.Integral?
    ensures r.Ok? ==> r.value == n.value
    ensures r.Err? ==> r.error == InvalidCast
  {
    match n
    case Integral(v) => Ok(v)
    case Fractional => Err(InvalidCast)
  }

  /** A token as read: its symbol and exponent, or the layout error. */
  type Read = Result<(string, Number)>

  /** The error one read token raises: a layout error when it could not be read,
      a cast error when it names a field but its exponent is not integral. */
  function ReadError(read: Read): Option<SiParseError>
  {
    match read
    case Err(e) => Some(e)
    case Ok((name, n)) => if Slot(name).Some? && n.Fractional? then Some(InvalidCast) else None
  }

  /** The exponent a read token assigns to field `k`, if it names that field. */
  function Gives(read: Read, k: nat): Option<int>
  {
    match read
    case Ok((name, Integral(e))) => if Slot(name) == Some(k) then Some(e) else None
    case _ => None
  }

  /** Every token read on its own. */
  function ReadAll(tokens: seq<string>): (rs: seq<Read>)
    ensures |rs| == |tokens|
  {
    if |tokens| == 0 then []
    else ReadAll(tokens[..|tokens| - 1]) + [ReadToken(tokens[|tokens| - 1])]
  }

  /** The error of the first token that raises one. */
  function FirstError(rs: seq<Read>): Option<SiParseError>
  {
    if |rs| == 0 then None
    else
      var earlier := FirstError(rs[..|rs| - 1]);
      if earlier.Some? then earlier else ReadError(rs[|rs| - 1])
  }

  /** The exponent the last token naming field `k` gives it; 0 when none does. */
  function LastExponent(rs: seq<Read>, k: nat): int
  {
    if |rs| == 0 then 0
    else
      match Gives(rs[|rs| - 1], k)
      case Some(e) => e
      case None => LastExponent(rs[..|rs| - 1], k)
  }

  /** The unit read tokens give: the first error, or each field from the last
      token naming it. */
  function ReadsToUnit(rs: seq<Read>): (r: Result<SiUnit<int>>)
    ensures r.Ok? <==> FirstError(rs).None?
    ensures r.Err? ==> Some(r.error) == FirstError(rs)
    ensures r.Ok? ==> forall k :: 0 <= k < 7 ==> Exponents(r.value)[k] == LastExponent(rs, k)
  {
    match FirstError(rs)
    case Some(e) => Err(e)
    case None =>
      Ok(SiUnit(LastExponent(rs, 0), LastExponent(rs, 1), LastExponent(rs, 2),
                LastExponent(rs, 3), LastExponent(rs, 4), LastExponent(rs, 5),
                LastExponent(rs, 6)))
  }

  /** The tokens of the text after an opening parenthesis: trimmed, its last
      character (the closing parenthesis) dropped, split at each ")(". */
  function Segments(inner: string): (tokens: seq<string>)
    ensures |tokens| > 0
    ensures Join(tokens, ")(") == DropLast(Trim(inner))
    ensures forall k :: 0 <= k < |tokens| ==> Find(tokens[k], ")(").None?
  {
    Split(DropLast(Trim(inner)), ")(")
  }

  /** What reading `(sym^exp)(sym^exp)...` into a unit gives. */
  function ParseUnit(s: string): Result<SiUnit<int>>
  {
    if |s| > 0 && s[0] == '(' then ReadsToUnit(ReadAll(Segments(s[1..]))) else Err(InvalidValueLayout)
  }

  /** Reading a unit: without the leading '(' the layout is wrong; otherwise the
      first token raising an error decides the error, and with none each field
      comes from the last token naming it, 0 when none does. */
  lemma ParseUnitReads(s: string)
    ensures (|s| == 0 || s[0] != '(') ==> ParseUnit(s) == Err(InvalidValueLayout)
    ensures |s| > 0 && s[0] == '(' ==>
      (ParseUnit(s).Ok? <==> FirstError(ReadAll(Segments(s[1..]))).None?)
    ensures |s| > 0 && s[0] == '(' && ParseUnit(s).Err? ==>
      Some(ParseUnit(s).error) == FirstError(ReadAll(Segments(s[1..])))
    ensures ParseUnit(s).Ok? ==>
      forall k :: 0 <= k < 7 ==> Exponents(ParseUnit(s).value)[k] == LastExponent(ReadAll(Segments(s[1..])), k)
  {
  }

  lemma {:induction false} FirstErrorPersists(rs: seq<Read>, n: nat)
    requires n <= |rs|
    ensures FirstError(rs[..n]).Some? ==> FirstError(rs) == FirstError(rs[..n])
    decreases |rs| - n
  {
    if n == |rs| {
      assert rs[..n] == rs;
    } else if FirstError(rs[..n]).Some? {
      var init := rs[..|rs| - 1];
      assert init[..n] == rs[..n];
      FirstErrorPersists(init, n);
    }
  }

  lemma FirstErrorSnoc(rs: seq<Read>, r: Read)
    ensures FirstError(rs + [r]) == if FirstError(rs).Some? then FirstError(rs) else ReadError(r)
  {
    assert (rs + [r])[..|rs|] == rs;
  }

  lemma LastExponentSnoc(rs: seq<Read>, r: Read, k: nat)
    ensures LastExponent(rs + [r], k) == if Gives(r, k).Some? then Gives(r, k).value else LastExponent(rs, k)
  {
    assert (rs + [r])[..|rs|] == rs;
  }

  lemma ReadAllSnoc(tokens: seq<string>, t: string)
    ensures ReadAll(tokens + [t]) == ReadAll(tokens) + [ReadToken(t)]
  {
    assert (tokens + [t])[..|tokens|] == tokens;
  }

  lemma {:induction false} ReadAllIndex(tokens: seq<string>, i: nat)
    requires i < |tokens|
    ensures ReadAll(tokens)[i] == ReadToken(tokens[i])
    decreases |tokens|
  {
    if i < |tokens| - 1 {
      ReadAllIndex(tokens[..|tokens| - 1], i);
    }
  }

  /** One arm of the source's `match` on the lower-cased symbol: a recognised
      symbol sets its field, after the cast of the exponent; any other symbol is
      ignored. */
  method Assign(retVal: SiUnit<int>, unitName: string, unitValue: Number) returns (r: Result<SiUnit<int>>)
    ensures r.Err? <==> Slot(unitName).Some? && unitValue.Fractional?
    ensures r.Err? ==> r.error == InvalidCast
    ensures r.Ok? ==> forall k :: 0 <= k < 7 ==>
      Exponents(r.value)[k] ==
        if Slot(unitName) == Some(k) && unitValue.Integral? then unitValue.value else Exponents(retVal)[k]
  {
    var key := ToLower(unitName);
    var u := retVal;
    if key == "m" {
      var e :- Cast(unitValue);
      u := u.(length := e);
    } else if key == "kg" {
      var e :- Cast(unitValue);
      u := u.(mass := e);
    } else if key == "s" {
      var e :- Cast(unitValue);
      u := u.(time := e);
    } else if key == "k" {
      var e :- Cast(unitValue);
      u := u.(temperature := e);
    } else if key == "a" {
      var e :- Cast(unitValue);
      u := u.(current := e);
    } else if key == "mol" {
      var e :- Cast(unitValue);
      u := u.(amount := e);
    } else if key == "cd" {
      var e :- Cast(unitValue);
      u := u.(luminousIntensity := e);
    }
    return Ok(u);
  }

  /** The body of the source's loop over the tokens: read one `sym^exp` token
      and assign the field it names. */
  method ApplyToken(retVal: SiUnit<int>, unit: string) returns (r: Result<SiUnit<int>>)
    ensures r.Err? <==> ReadError(ReadToken(unit)).Some?
    ensures r.Err? ==> ReadError(ReadToken(unit)) == Some(r.error)
    ensures r.Ok? ==> forall k :: 0 <= k < 7 ==>
      Exponents(r.value)[k] ==
        if Gives(ReadToken(unit), k).Some? then Gives(ReadToken(unit), k).value else Exponents(retVal)[k]
  {
    var token :- ReadToken(unit);
    var (unitName, unitValue) := token;
    r := Assign(retVal, unitName, unitValue);
  }

  /** The source's loop over the tokens, into a unit that starts dimensionless. */
  method ApplyTokens(splitUnits: seq<string>) returns (r: Result<SiUnit<int>>)
    ensures r == ReadsToUnit(ReadAll(splitUnits))
  {
    ghost var rs := ReadAll(splitUnits);
    var retVal := Default();
    var i := 0;
    while i < |splitUnits|
      invariant 0 <= i <= |splitUnits|
      invariant FirstError(rs[..i]).None?
      invariant forall k :: 0 <= k < 7 ==> Exponents(retVal)[k] == LastExponent(rs[..i], k)
    {
      var unit := splitUnits[i];
      assert rs[..i + 1] == rs[..i] + [rs[i]];
      ReadAllIndex(splitUnits, i);
      FirstErrorSnoc(rs[..i], rs[i]);
      FirstErrorPersists(rs, i + 1);
      retVal :- ApplyToken(retVal, unit);
      forall k | 0 <= k < 7 ensures Exponents(retVal)[k] == LastExponent(rs[..i + 1], k) {
        LastExponentSnoc(rs[..i], rs[i], k);
      }
      i := i + 1;
    }
    assert rs[..i] == rs;
    ExponentsDetermineUnit(retVal, ReadsToUnit(rs).value);
    return Ok(retVal);
  }

  /** Reads `(sym^exp)(sym^exp)...` into a unit, as the source's
      `TryFrom<String>` does; `TryFrom<&str>` is the same reading. */
  method TryFrom(value: string) returns (r: Result<SiUnit<int>>)
    ensures r == ParseUnit(value)
  {
    if !(|value| > 0 && value[0] == '(') {
      return Err(InvalidValueLayout);
    }
    var text := Trim(value[1..]);
    text := DropLast(text);
    var splitUnits := Split(text, ")(");
    r := ApplyTokens(splitUnits);
  }
}

/** What the display and the parser of units promise, and how they fit together. */
module SiUnitLaws {
  import opened Text
  import opened SiUnits

  // ---------------------------------------------------------------------------
  // The tokens a unit is written with

  lemma SymbolsAreWords()
    ensures forall k :: 0 <= k < 7 ==> IsWord(Symbols[k])
  {
  }

  lemma SlotOfSymbol(k: nat)
    requires k < 7
    ensures Slot(Symbols[k]) == Some(k)
  {
    assert ToLower(Symbols[k]) == Keys[k];
  }

  /** The dimensions among the first `n` whose exponent is not zero. */
  function NonZeroSlotsUpTo(u: SiUnit<int>, n: nat): seq<nat>
    requires n <= 7
  {
    if n == 0 then []
    else NonZeroSlotsUpTo(u, n - 1) + (if Exponents(u)[n - 1] != 0 then [n - 1] else [])
  }

  /** `ts` holds the non-zero exponents among the first `n` dimensions of `u`, each
      with its symbol, and `ks` the dimensions they come from, in increasing order. */
  predicate TermsOfSlots(u: SiUnit<int>, n: nat, ts: seq<Term>, ks: seq<nat>)
    requires n <= 7
  {
    && |ts| == |ks|
    && (forall i :: 0 <= i < |ks| ==>
          ks[i] < n && Exponents(u)[ks[i]] != 0 && ts[i] == Term(Symbols[ks[i]], Exponents(u)[ks[i]]))
    && (forall i, j :: 0 <= i < j < |ks| ==> ks[i] < ks[j])
    && (forall k :: 0 <= k < n && Exponents(u)[k] != 0 ==> k in ks)
  }

  lemma TermsOfSlotsStep(u: SiUnit<int>, n: nat, ts: seq<Term>, ks: seq<nat>)
    requires 0 < n <= 7 && TermsOfSlots(u, n - 1, ts, ks)
    ensures Exponents(u)[n - 1] != 0 ==>
      TermsOfSlots(u, n, ts + [Term(Symbols[n - 1], Exponents(u)[n - 1])], ks + [n - 1])
    ensures Exponents(u)[n - 1] == 0 ==> TermsOfSlots(u, n, ts, ks)
  {
    if Exponents(u)[n - 1] != 0 {
      var ts', ks' := ts + [Term(Symbols[n - 1], Exponents(u)[n - 1])], ks + [n - 1];
      forall i | 0 <= i < |ks'|
        ensures ks'[i] < n && Exponents(u)[ks'[i]] != 0 && ts'[i] == Term(Symbols[ks'[i]], Exponents(u)[ks'[i]])
      {
        if i < |ks| {
          assert ks'[i] == ks[i] && ts'[i] == ts[i];
        }
      }
      assert ks'[|ks|] == n - 1;
    }
  }

  /** The terms of a unit are exactly its non-zero exponents, each with the symbol
      of its dimension, in the order of the dimensions. */
  lemma {:induction false} NonZeroTermsUpToFacts(u: SiUnit<int>, n: nat)
    requires n <= 7
    ensures TermsOfSlots(u, n, NonZeroTermsUpTo(u, n), NonZeroSlotsUpTo(u, n))
  {
    if n > 0 {
      NonZeroTermsUpToFacts(u, n - 1);
      TermsOfSlotsStep(u, n, NonZeroTermsUpTo(u, n - 1), NonZeroSlotsUpTo(u, n - 1));
    }
  }

  lemma NonZeroTermsFacts(u: SiUnit<int>)
    ensures var ts, ks := NonZeroTerms(u), NonZeroSlotsUpTo(u, 7);
      && |ts| == |ks|
      && (forall i :: 0 <= i < |ks| ==>
            ks[i] < 7 && Exponents(u)[ks[i]] != 0 && ts[i] == Term(Symbols[ks[i]], Exponents(u)[ks[i]]))
      && (forall i, j :: 0 <= i < j < |ks| ==> ks[i] < ks[j])
      && (forall k :: 0 <= k < 7 && Exponents(u)[k] != 0 ==> k in ks)
  {
    NonZeroTermsUpToFacts(u, 7);
  }

  /** A unit has no terms exactly when it is dimensionless. */
  lemma NoTermsIffDefault(u: SiUnit<int>)
    ensures NonZeroTerms(u) == [] <==> u == Default()
  {
    if NonZeroTerms(u) == [] {
      NoTermsDefault(u);
    } else {
      SomeTermNotDefault(u);
    }
  }

  lemma NoTermsDefault(u: SiUnit<int>)
    requires NonZeroTerms(u) == []
    ensures u == Default()
  {
    NonZeroTermsFacts(u);
    assert NonZeroSlotsUpTo(u, 7) == [];
    ExponentsDetermineUnit(u, Default());
  }

  lemma SomeTermNotDefault(u: SiUnit<int>)
    requires NonZeroTerms(u) != []
    ensures u != Default()
  {
    NonZeroTermsFacts(u);
    var ks := NonZeroSlotsUpTo(u, 7);
    assert Exponents(u)[ks[0]] != 0;
  }

  lemma {:induction false} RenderEmpty(ts: seq<Term>)
    ensures Render(ts) == "" <==> ts == []
  {
    if ts != [] {
      assert |Token(ts[|ts| - 1])| > 0;
    }
  }

  /** The display of a unit is empty exactly when the unit is dimensionless. */
  lemma UnitTextEmptyIffDefault(u: SiUnit<int>)
    ensures UnitText(u) == "" <==> u == Default()
  {
    RenderEmpty(NonZeroTerms(u));
    NoTermsIffDefault(u);
  }

  lemma ExamplePiecesFront(u: SiUnit<int>)
    requires u == SiUnit(2, 3, 4, 5, 6, 7, 8)
    ensures Piece(u, 0) == "(m^2)" && Piece(u, 1) == "(kg^3)" && Piece(u, 2) == "(s^4)"
  {
    assert IntToString(2) == "2" && IntToString(3) == "3" && IntToString(4) == "4";
  }

  lemma ExamplePiecesBack(u: SiUnit<int>)
    requires u == SiUnit(2, 3, 4, 5, 6, 7, 8)
    ensures Piece(u, 3) == "(k^5)" && Piece(u, 4) == "(A^6)" && Piece(u, 5) == "(mol^7)" && Piece(u, 6) == "(cd^8)"
  {
    assert IntToString(5) == "5" && IntToString(6) == "6" && IntToString(7) == "7" && IntToString(8) == "8";
  }

  /** The source's display test: every exponent present, in the fixed order. */
  lemma UnitTextExample()
    ensures UnitText(SiUnit(2, 3, 4, 5, 6, 7, 8)) == "(m^2)(kg^3)(s^4)(k^5)(A^6)(mol^7)(cd^8)"
  {
    assert "(m^2)" + "(kg^3)" + "(s^4)" == "(m^2)(kg^3)(s^4)";
    assert "(m^2)(kg^3)(s^4)" + "(k^5)" + "(A^6)" == "(m^2)(kg^3)(s^4)(k^5)(A^6)";
    assert "(m^2)(kg^3)(s^4)(k^5)(A^6)" + "(mol^7)" + "(cd^8)" == "(m^2)(kg^3)(s^4)(k^5)(A^6)(mol^7)(cd^8)";
    var u := SiUnit(2, 3, 4, 5, 6, 7, 8);
    UnitTextPieces(u);
    ExamplePiecesFront(u);
    ExamplePiecesBack(u);
  }

  // ---------------------------------------------------------------------------
  // Rendered terms split back into their bodies

  /** Two written tokens regrouped around their shared ")(", stated over any
      strings so that the proof does not see the terms they come from. */
  lemma Regroup(j: string, b: string)
    ensures "(" + j + ")" + ("(" + b + ")") == "(" + (j + ")(" + b) + ")"
  {
  }

  lemma BodiesSnoc(ts: seq<Term>)
    requires |ts| > 0
    ensures Bodies(ts) == Bodies(ts[..|ts| - 1]) + [TokenBody(ts[|ts| - 1])]
  {
  }

  lemma {:induction false} RenderAsJoin(ts: seq<Term>)
    requires |ts| > 0
    ensures Render(ts) == "(" + Join(Bodies(ts), ")(") + ")"
    decreases |ts|
  {
    var init, last := ts[..|ts| - 1], ts[|ts| - 1];
    if |ts| > 1 {
      RenderAsJoin(init);
      BodiesSnoc(ts);
      JoinSnoc(Bodies(init), TokenBody(last), ")(");
      Regroup(Join(Bodies(init), ")("), TokenBody(last));
    } else {
      assert Bodies(ts) == [TokenBody(last)];
      assert init == [];
    }
  }

  lemma BodyLacksParen(t: Term)
    requires IsWord(t.symbol)
    ensures Lacks(TokenBody(t), ')') && Lacks(t.symbol, '^')
    ensures |TokenBody(t)| > 0 && IsAsciiLetter(TokenBody(t)[0])
  {
    var x := IntToString(t.exponent);
    var b := TokenBody(t);
    forall i | 0 <= i < |b| ensures b[i] != ')' {
      if i > |t.symbol| {
        assert b[i] == x[i - |t.symbol| - 1];
      }
    }
  }

  predicate WordTerms(ts: seq<Term>) {
    forall i :: 0 <= i < |ts| ==> IsWord(ts[i].symbol)
  }

  /** Bodies joined by ")(" and closed by ')' split back into the bodies. */
  lemma SegmentsOfJoin(bs: seq<string>)
    requires |bs| > 0 && |bs[0]| > 0 && IsAsciiLetter(bs[0][0])
    requires forall k :: 0 <= k < |bs| ==> Lacks(bs[k], ')')
    ensures Segments(Join(bs, ")(") + ")") == bs
  {
    var j := Join(bs, ")(");
    var inner := j + ")";
    JoinStartsWith(bs, ")(");
    assert inner[0] == bs[0][0];
    TrimUnchanged(inner);
    assert DropLast(inner) == j;
    JoinSplit(bs, ")(");
  }

  /** The bodies of terms with word symbols hold no ')' and start with a letter. */
  lemma WordBodies(ts: seq<Term>)
    requires |ts| > 0 && WordTerms(ts)
    ensures forall k :: 0 <= k < |ts| ==> Lacks(Bodies(ts)[k], ')')
    ensures |Bodies(ts)[0]| > 0 && IsAsciiLetter(Bodies(ts)[0][0])
  {
    forall k | 0 <= k < |ts| ensures Lacks(Bodies(ts)[k], ')') {
      BodyLacksParen(ts[k]);
    }
    BodyLacksParen(ts[0]);
  }

  /** Dropping the opening parenthesis of a written token list, stated over any
      string for the same reason as `Regroup`. */
  lemma DropOpening(j: string)
    ensures ("(" + j + ")")[1..] == j + ")"
  {
  }

  /** Written terms with word symbols, read back as far as the token list: the
      text starts with '(' and its tokens are the terms' bodies. */
  lemma RenderedSegments(ts: seq<Term>)
    requires |ts| > 0 && WordTerms(ts)
    ensures |Render(ts)| > 0 && Render(ts)[0] == '('
    ensures Segments(Render(ts)[1..]) == Bodies(ts)
  {
    RenderAsJoin(ts);
    DropOpening(Join(Bodies(ts), ")("));
    WordBodies(ts);
    SegmentsOfJoin(Bodies(ts));
  }

  lemma {:induction false} JoinStartsWith(parts: seq<string>, sep: string)
    requires |parts| > 0 && |parts[0]| > 0
    ensures |Join(parts, sep)| > 0 && Join(parts, sep)[0] == parts[0][0]
  {
  }

  // ---------------------------------------------------------------------------
  // Reading the bodies back

  lemma ReadBody(t: Term)
    requires IsWord(t.symbol)
    ensures ReadToken(TokenBody(t)) == Ok((t.symbol, Integral(t.exponent)))
  {
    var x := IntToString(t.exponent);
    BodyLacksParen(t);
    FindAfterClean(t.symbol, "^", x);
    assert TokenBody(t) == t.symbol + "^" + x;
    ParseIntToString(t.exponent);
    IntegerLiteralIsFloatLiteral(x);
  }

  /** How the bodies of terms read back: each as its own symbol and exponent. */
  function TermReads(ts: seq<Term>): (rs: seq<Read>)
    ensures |rs| == |ts|
    ensures forall i :: 0 <= i < |ts| ==> rs[i] == Ok((ts[i].symbol, Integral(ts[i].exponent)))
  {
    seq(|ts|, i requires 0 <= i < |ts| => Ok((ts[i].symbol, Integral(ts[i].exponent))))
  }

  lemma ReadAllBodies(ts: seq<Term>)
    requires WordTerms(ts)
    ensures ReadAll(Bodies(ts)) == TermReads(ts)
  {
    forall i | 0 <= i < |ts| ensures ReadAll(Bodies(ts))[i] == TermReads(ts)[i] {
      ReadAllIndex(Bodies(ts), i);
      ReadBody(ts[i]);
    }
  }

  /** Written terms with word symbols read back as the terms themselves. */
  lemma ParseRendered(ts: seq<Term>)
    requires |ts| > 0 && WordTerms(ts)
    ensures ParseUnit(Render(ts)) == ReadsToUnit(TermReads(ts))
  {
    RenderedSegments(ts);
    ReadAllBodies(ts);
  }

  /** Read tokens that give the first `n` exponents of `u` and leave the others 0. */
  predicate DecodesUpTo(rs: seq<Read>, u: SiUnit<int>, n: nat)
  {
    && FirstError(rs).None?
    && forall k :: 0 <= k < 7 ==> LastExponent(rs, k) == if k < n then Exponents(u)[k] else 0
  }

  lemma DecodeStep(rs: seq<Read>, u: SiUnit<int>, n: nat)
    requires 0 < n <= 7 && DecodesUpTo(rs, u, n - 1)
    ensures DecodesUpTo(rs + [Ok((Symbols[n - 1], Integral(Exponents(u)[n - 1])))], u, n)
  {
    var r: Read := Ok((Symbols[n - 1], Integral(Exponents(u)[n - 1])));
    SlotOfSymbol(n - 1);
    FirstErrorSnoc(rs, r);
    forall k | 0 <= k < 7
      ensures LastExponent(rs + [r], k) == if k < n then Exponents(u)[k] else 0
    {
      LastExponentSnoc(rs, r, k);
    }
  }

  lemma DecodeSkip(rs: seq<Read>, u: SiUnit<int>, n: nat)
    requires 0 < n <= 7 && DecodesUpTo(rs, u, n - 1) && Exponents(u)[n - 1] == 0
    ensures DecodesUpTo(rs, u, n)
  {
  }

  lemma TermReadsSnoc(ts: seq<Term>, t: Term)
    ensures TermReads(ts + [t]) == TermReads(ts) + [Ok((t.symbol, Integral(t.exponent)))]
  {
  }

  lemma {:induction false} DecodeTermsUpTo(u: SiUnit<int>, n: nat)
    requires n <= 7
    ensures DecodesUpTo(TermReads(NonZeroTermsUpTo(u, n)), u, n)
  {
    if n > 0 {
      DecodeTermsUpTo(u, n - 1);
      var ts := NonZeroTermsUpTo(u, n - 1);
      if Exponents(u)[n - 1] != 0 {
        var t := Term(Symbols[n - 1], Exponents(u)[n - 1]);
        assert NonZeroTermsUpTo(u, n) == ts + [t];
        TermReadsSnoc(ts, t);
        DecodeStep(TermReads(ts), u, n);
      } else {
        assert NonZeroTermsUpTo(u, n) == ts;
        DecodeSkip(TermReads(ts), u, n);
      }
    }
  }

  /** Reading back the display of a unit gives the unit, except for the
      dimensionless one, whose display is empty and so lacks the opening
      parenthesis. */
  lemma ParseUnitRoundTrip(u: SiUnit<int>)
    ensures ParseUnit(UnitText(u)) == Ok(u) <==> u != Default()
  {
    UnitTextEmptyIffDefault(u);
    NoTermsIffDefault(u);
    if u != Default() {
      var ts := NonZeroTerms(u);
      SymbolsAreWords();
      NonZeroTermsFacts(u);
      assert WordTerms(ts);
      ParseRendered(ts);
      DecodeTermsUpTo(u, 7);
      ExponentsDetermineUnit(u, ReadsToUnit(TermReads(ts)).value);
    }
  }

  // ---------------------------------------------------------------------------
  // The parser's rules for the token list

  /** The error reported is the one of the first token that raises one, and
      there is none exactly when no token raises one. */
  lemma {:induction false} FirstErrorIsFirstBad(rs: seq<Read>)
    ensures FirstError(rs).None? <==> forall i :: 0 <= i < |rs| ==> ReadError(rs[i]).None?
    ensures FirstError(rs).Some? ==>
      (exists i :: 0 <= i < |rs| && ReadError(rs[i]) == FirstError(rs) &&
        (forall j :: 0 <= j < i ==> ReadError(rs[j]).None?))
  {
    if |rs| > 0 {
      var init := rs[..|rs| - 1];
      FirstErrorIsFirstBad(init);
      assert rs == init + [rs[|rs| - 1]];
      FirstErrorSnoc(init, rs[|rs| - 1]);
      if FirstError(init).Some? {
        var i :| 0 <= i < |init| && ReadError(init[i]) == FirstError(init)
          && (forall j :: 0 <= j < i ==> ReadError(init[j]).None?);
        assert rs[i] == init[i];
        assert forall j :: 0 <= j < i ==> rs[j] == init[j];
      } else if FirstError(rs).Some? {
        assert forall j :: 0 <= j < |init| ==> rs[j] == init[j];
      }
    }
  }

  /** A field no token names stays 0. */
  lemma {:induction false} AbsentFieldIsZero(rs: seq<Read>, k: nat)
    requires forall i :: 0 <= i < |rs| ==> Gives(rs[i], k).None?
    ensures LastExponent(rs, k) == 0
  {
    if |rs| > 0 {
      var init := rs[..|rs| - 1];
      assert forall i :: 0 <= i < |init| ==> init[i] == rs[i];
      AbsentFieldIsZero(init, k);
    }
  }

  /** A token naming field `k` decides it unless a later token names it again. */
  lemma {:induction false} LaterTokenWins(before: seq<Read>, r: Read, after: seq<Read>, k: nat, e: int)
    requires Gives(r, k) == Some(e)
    requires forall i :: 0 <= i < |after| ==> Gives(after[i], k).None?
    ensures LastExponent(before + [r] + after, k) == e
    decreases |after|
  {
    var xs := before + [r];
    if |after| == 0 {
      assert xs + after == xs;
      LastExponentSnoc(before, r, k);
    } else {
      var init, last := after[..|after| - 1], after[|after| - 1];
      assert forall i :: 0 <= i < |init| ==> init[i] == after[i];
      LaterTokenWins(before, r, init, k, e);
      assert xs + after == (xs + init) + [last];
      LastExponentSnoc(xs + init, last, k);
    }
  }

  /** A well-formed token whose symbol is not a dimension changes nothing. */
  lemma UnknownTokenIgnored(before: seq<Read>, r: Read, after: seq<Read>)
    requires r.Ok? && Slot(r.value.0).None?
    ensures ReadsToUnit(before + [r] + after) == ReadsToUnit(before + after)
  {
    InertReadErrors(before, r, after);
    forall k ensures LastExponent(before + [r] + after, k) == LastExponent(before + after, k) {
      InertReadExponents(before, r, after, k);
    }
  }

  lemma {:induction false} InertReadErrors(before: seq<Read>, r: Read, after: seq<Read>)
    requires ReadError(r).None?
    ensures FirstError(before + [r] + after) == FirstError(before + after)
    decreases |after|
  {
    var xs := before + [r];
    if |after| == 0 {
      assert xs + after == xs && before + after == before;
      FirstErrorSnoc(before, r);
    } else {
      var init, last := after[..|after| - 1], after[|after| - 1];
      InertReadErrors(before, r, init);
      assert xs + after == (xs + init) + [last];
      assert before + after == (before + init) + [last];
      FirstErrorSnoc(xs + init, last);
      FirstErrorSnoc(before + init, last);
    }
  }

  lemma {:induction false} InertReadExponents(before: seq<Read>, r: Read, after: seq<Read>, k: nat)
    requires Gives(r, k).None?
    ensures LastExponent(before + [r] + after, k) == LastExponent(before + after, k)
    decreases |after|
  {
    var xs := before + [r];
    if |after| == 0 {
      assert xs + after == xs && before + after == before;
      LastExponentSnoc(before, r, k);
    } else {
      var init, last := after[..|after| - 1], after[|after| - 1];
      InertReadExponents(before, r, init, k);
      assert xs + after == (xs + init) + [last];
      assert before + after == (before + init) + [last];
      LastExponentSnoc(xs + init, last, k);
      LastExponentSnoc(before + init, last, k);
    }
  }

  /** Two read tokens that act alike: both malformed with the same error, or
      both read with the same exponent and symbols equal up to letter case. */
  predicate Alike(a: Read, b: Read)
  {
    match (a, b)
    case (Err(e1), Err(e2)) => e1 == e2
    case (Ok((n1, x1)), Ok((n2, x2))) => ToLower(n1) == ToLower(n2) && x1 == x2
    case _ => false
  }

  lemma AlikeReadsAct(a: Read, b: Read)
    requires Alike(a, b)
    ensures ReadError(a) == ReadError(b)
    ensures forall k :: Gives(a, k) == Gives(b, k)
  {
    if a.Ok? {
      SlotIgnoresCase(a.value.0, b.value.0);
    }
  }

  lemma SlotIgnoresCase(n1: string, n2: string)
    requires ToLower(n1) == ToLower(n2)
    ensures Slot(n1) == Slot(n2)
  {
  }

  lemma {:induction false} AlikeReadsAgree(rs1: seq<Read>, rs2: seq<Read>)
    requires |rs1| == |rs2| && forall i :: 0 <= i < |rs1| ==> Alike(rs1[i], rs2[i])
    ensures FirstError(rs1) == FirstError(rs2)
    ensures forall k :: LastExponent(rs1, k) == LastExponent(rs2, k)
  {
    if |rs1| > 0 {
      var n := |rs1| - 1;
      AlikeReadsAgree(rs1[..n], rs2[..n]);
      AlikeReadsAct(rs1[n], rs2[n]);
      assert rs1 == rs1[..n] + [rs1[n]] && rs2 == rs2[..n] + [rs2[n]];
      FirstErrorSnoc(rs1[..n], rs1[n]);
      FirstErrorSnoc(rs2[..n], rs2[n]);
      forall k ensures LastExponent(rs1, k) == LastExponent(rs2, k) {
        LastExponentSnoc(rs1[..n], rs1[n], k);
        LastExponentSnoc(rs2[..n], rs2[n], k);
      }
    }
  }

  /** Symbols are matched without regard to letter case: token lists that act
      alike one for one give the same outcome. */
  lemma AlikeReadsSameUnit(rs1: seq<Read>, rs2: seq<Read>)
    requires |rs1| == |rs2| && forall i :: 0 <= i < |rs1| ==> Alike(rs1[i], rs2[i])
    ensures ReadsToUnit(rs1) == ReadsToUnit(rs2)
  {
    AlikeReadsAgree(rs1, rs2);
  }

  /** The same holds of whole texts: writing the symbols of a unit text in
      other letter cases does not change what it reads as. */
  lemma ParseUnitIgnoresCase(ts1: seq<Term>, ts2: seq<Term>)
    requires |ts1| == |ts2| > 0 && WordTerms(ts1) && WordTerms(ts2)
    requires forall i :: 0 <= i < |ts1| ==>
      ToLower(ts1[i].symbol) == ToLower(ts2[i].symbol) && ts1[i].exponent == ts2[i].exponent
    ensures ParseUnit(Render(ts1)) == ParseUnit(Render(ts2))
  {
    ParseRendered(ts1);
    ParseRendered(ts2);
    AlikeReadsSameUnit(TermReads(ts1), TermReads(ts2));
  }

  // ---------------------------------------------------------------------------
  // The source's parsing test

  lemma ExampleTokens()
    ensures Token(Term("s", 4)) == "(s^4)" && Token(Term("m", 2)) == "(m^2)" && Token(Term("cd", 8)) == "(cd^8)"
  {
    assert IntToString(4) == "4" && IntToString(2) == "2" && IntToString(8) == "8";
  }

  lemma ExampleText()
    ensures Render([Term("s", 4), Term("m", 2), Term("cd", 8)]) == "(s^4)(m^2)(cd^8)"
  {
    var t0, t1, t2 := Term("s", 4), Term("m", 2), Term("cd", 8);
    assert [t0, t1, t2][..2] == [t0, t1] && [t0, t1][..1] == [t0] && [t0][..0] == [];
    assert Render([t0]) == Token(t0);
    ExampleTokens();
    assert "(s^4)" + "(m^2)" + "(cd^8)" == "(s^4)(m^2)(cd^8)";
  }

  lemma ExampleReads()
    ensures ReadsToUnit(TermReads([Term("s", 4), Term("m", 2), Term("cd", 8)])) == Ok(SiUnit(2, 0, 4, 0, 0, 0, 8))
  {
    var rs := TermReads([Term("s", 4), Term("m", 2), Term("cd", 8)]);
    var r0, r1, r2 := Ok(("s", Integral(4))), Ok(("m", Integral(2))), Ok(("cd", Integral(8)));
    assert rs == [r0] + [r1] + [r2];
    SlotOfSymbol(0);
    SlotOfSymbol(2);
    SlotOfSymbol(6);
    FirstErrorSnoc([], r0);
    FirstErrorSnoc([r0], r1);
    FirstErrorSnoc([r0] + [r1], r2);
    forall k | 0 <= k < 7
      ensures LastExponent(rs, k) == Exponents(SiUnit(2, 0, 4, 0, 0, 0, 8))[k]
    {
      LastExponentSnoc([], r0, k);
      LastExponentSnoc([r0], r1, k);
      LastExponentSnoc([r0] + [r1], r2, k);
    }
    ExponentsDetermineUnit(ReadsToUnit(rs).value, SiUnit(2, 0, 4, 0, 0, 0, 8));
  }

  /** Tokens in any order, absent dimensions 0. */
  lemma ParseUnitExample()
    ensures ParseUnit("(s^4)(m^2)(cd^8)") == Ok(SiUnit(2, 0, 4, 0, 0, 0, 8))
  {
    var ts := [Term("s", 4), Term("m", 2), Term("cd", 8)];
    ExampleText();
    assert WordTerms(ts);
    ParseRendered(ts);
    ExampleReads();
  }

  /** The text after the opening parenthesis of a single token holds that one
      token. */
  lemma SingleSegment(name: string, x: string)
    requires IsWord(name) && Lacks(x, ')')
    ensures Segments(name + "^" + x + ")") == [name + "^" + x]
  {
    var body := name + "^" + x;
    assert (body + ")")[0] == name[0];
    TrimUnchanged(body + ")");
    assert DropLast(body + ")") == body;
    assert Lacks(body, ')') by {
      forall i | 0 <= i < |body| ensures body[i] != ')' {
        if i > |name| { assert body[i] == x[i - |name| - 1]; }
      }
    }
    SplitClean(body, ")(");
  }

  /** A text holding one token reads as that token alone; the token splits at
      its '^' into its symbol and its exponent literal. */
  lemma SingleToken(name: string, x: string)
    requires IsWord(name) && Lacks(x, ')')
    ensures ParseUnit("(" + name + "^" + x + ")") == ReadsToUnit([ReadToken(name + "^" + x)])
    ensures ReadToken(name + "^" + x) ==
      match ParseFloatLiteral(x)
      case None => Err(InvalidValueLayout)
      case Some(n) => Ok((name, n))
  {
    var body := name + "^" + x;
    var s := "(" + name + "^" + x + ")";
    assert s[1..] == body + ")";
    SingleSegment(name, x);
    SplitOnceAfterClean(name, "^", x);
    assert ReadAll([body]) == [ReadToken(body)] by {
      assert [body][..0] == [];
    }
  }

  /** What a single read token gives. */
  lemma SingleRead(r: Read)
    ensures FirstError([r]) == ReadError(r)
    ensures forall k :: LastExponent([r], k) == if Gives(r, k).Some? then Gives(r, k).value else 0
  {
    assert [r][..0] == [];
  }

  lemma SingleTokenUnit(name: string, x: string, n: Number)
    requires IsWord(name) && Lacks(x, ')') && ParseFloatLiteral(x) == Some(n)
    ensures ParseUnit("(" + name + "^" + x + ")") == ReadsToUnit([Ok((name, n))])
  {
    SingleToken(name, x);
  }

  /** A fractional exponent on a symbol that names a dimension is a cast
      error... */
  lemma FractionalExponentFails(name: string, whole: string, fraction: string)
    requires IsWord(name) && Slot(name).Some?
    requires AllDigits(whole) && AllDigits(fraction) && |whole| + |fraction| > 0 && !AllZeros(fraction)
    ensures ParseUnit("(" + name + "^" + (whole + "." + fraction) + ")") == Err(InvalidCast)
  {
    PointLiteral(whole, fraction);
    SingleTokenUnit(name, whole + "." + fraction, Fractional);
    SingleRead(Ok((name, Fractional)));
  }

  /** ...and on any other symbol it is ignored. */
  lemma FractionalExponentIgnored(name: string, whole: string, fraction: string)
    requires IsWord(name) && Slot(name).None?
    requires AllDigits(whole) && AllDigits(fraction) && |whole| + |fraction| > 0 && !AllZeros(fraction)
    ensures ParseUnit("(" + name + "^" + (whole + "." + fraction) + ")") == Ok(Default())
  {
    PointLiteral(whole, fraction);
    SingleTokenUnit(name, whole + "." + fraction, Fractional);
    SingleRead(Ok((name, Fractional)));
    ExponentsDetermineUnit(ReadsToUnit([Ok((name, Fractional))]).value, Default());
  }

  lemma ThreeLiteral()
    ensures ParseFloatLiteral("3") == Some(Integral(3))
  {
    DigitsLiteral("3");
    assert "3"[..0] == [];
  }

  lemma UpperCaseRead()
    ensures ReadsToUnit([Ok(("S", Integral(3)))]) == Ok(SiUnit(0, 0, 3, 0, 0, 0, 0))
  {
    assert Slot("S") == Some(2) by {
      assert ToLower("S") == "s";
    }
    SingleRead(Ok(("S", Integral(3))));
    ExponentsDetermineUnit(ReadsToUnit([Ok(("S", Integral(3)))]).value, SiUnit(0, 0, 3, 0, 0, 0, 0));
  }

  /** Symbols are read without regard to letter case. */
  lemma UpperCaseExample()
    ensures ParseUnit("(S^3)") == Ok(SiUnit(0, 0, 3, 0, 0, 0, 0))
  {
    assert "(S^3)" == "(" + "S" + "^" + "3" + ")";
    ThreeLiteral();
    SingleTokenUnit("S", "3", Integral(3));
    UpperCaseRead();
  }

  /** A token without '^' is a layout error. */
  lemma MissingCaretExample()
    ensures ParseUnit("(s4)") == Err(InvalidValueLayout)
  {
    var body := "s4";
    assert "(s4)"[1..] == body + ")";
    TrimUnchanged(body + ")");
    assert DropLast(body + ")") == body;
    SplitClean(body, ")(");
    NoOccurrence(body, "^");
    assert [body][..0] == [];
  }
}
