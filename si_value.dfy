/** A magnitude with an optional unit: arithmetic that checks dimensions, the
    text form `<magnitude> (<tokens>)`, and its parser. */
module SiValues {
  import opened Text
  import SiUnits

  /** The source's struct: an optional magnitude and an optional unit. The
      operations only ever build values with both parts or with neither. */
  datatype SiValue<M, E> = SiValue(value: Option<M>, unit: Option<SiUnits.SiUnit<E>>)

  /** Both parts present: a value the arithmetic operates on. */
  predicate Valid<M, E>(v: SiValue<M, E>) {
    v.value.Some? && v.unit.Some?
  }

  /** Both parts present or both absent. */
  predicate WellFormed<M, E>(v: SiValue<M, E>) {
    v.value.Some? == v.unit.Some?
  }

  /** The void value: no magnitude and no unit. Every illegal operation gives it. */
  function Default<M, E>(): (r: SiValue<M, E>)
    ensures !Valid(r) && WellFormed(r)
  {
    SiValue(None, None)
  }

  /** A value with the given magnitude and the given seven exponents. */
  function New<M, E>(value: M, length: E, mass: E, time: E, temperature: E, current: E, amount: E,
                     luminousIntensity: E): (r: SiValue<M, E>)
    ensures Valid(r) && r.value.value == value
    ensures SiUnits.Exponents(r.unit.value) == [length, mass, time, temperature, current, amount, luminousIntensity]
  {
    SiValue(Some(value), Some(SiUnits.SiUnit(length, mass, time, temperature, current, amount, luminousIntensity)))
  }

  /** Equality part by part, the units compared with their own equality. */
  function Equal<M(==), E(==)>(x: SiValue<M, E>, y: SiValue<M, E>): (r: bool)
    ensures r <==> x == y
  {
    && x.value == y.value
    && match (x.unit, y.unit)
       case (Some(a), Some(b)) => SiUnits.Equal(a, b)
       case (None, None) => true
       case _ => false
  }

  // ---------------------------------------------------------------------------
  // Arithmetic

  /** Sum of two values of the same unit; void otherwise. */
  function Add(x: SiValue<int, int>, y: SiValue<int, int>): (r: SiValue<int, int>)
    ensures Valid(r) <==> Valid(x) && Valid(y) && x.unit == y.unit
    ensures Valid(r) ==> r.value.value == x.value.value + y.value.value && r.unit == x.unit
    ensures !Valid(r) ==> r == Default()
  {
    match (x, y)
    case (SiValue(Some(a), Some(u)), SiValue(Some(b), Some(w))) =>
      if SiUnits.Equal(u, w) then SiValue(Some(a + b), Some(u)) else Default()
    case _ => Default()
  }

  /** Difference of two values of the same unit; void otherwise. */
  function Sub(x: SiValue<int, int>, y: SiValue<int, int>): (r: SiValue<int, int>)
    ensures Valid(r) <==> Valid(x) && Valid(y) && x.unit == y.unit
    ensures Valid(r) ==> r.value.value == x.value.value - y.value.value && r.unit == x.unit
    ensures !Valid(r) ==> r == Default()
  {
    match (x, y)
    case (SiValue(Some(a), Some(u)), SiValue(Some(b), Some(w))) =>
      if SiUnits.Equal(u, w) then SiValue(Some(a - b), Some(u)) else Default()
    case _ => Default()
  }

  /** What multiplying two values gives: the product of the magnitudes with the
      product of the units, or void when either operand is not valid. */
  function Product(x: SiValue<int, int>, y: SiValue<int, int>): (r: SiValue<int, int>)
    ensures Valid(r) <==> Valid(x) && Valid(y)
    ensures Valid(r) ==> r.value.value == x.value.value * y.value.value
    ensures Valid(r) ==> forall k :: 0 <= k < 7 ==>
      SiUnits.Exponents(r.unit.value)[k] == SiUnits.Exponents(x.unit.value)[k] + SiUnits.Exponents(y.unit.value)[k]
    ensures !Valid(r) ==> r == Default()
  {
    if Valid(x) && Valid(y) then
      SiValue(Some(x.value.value * y.value.value), Some(SiUnits.Mul(x.unit.value, y.unit.value)))
    else Default()
  }

  /** The source's `*`: starts from the void value and fills in the unit, then the
      magnitude, when both operands are valid. */
  method Mul(x: SiValue<int, int>, y: SiValue<int, int>) returns (r: SiValue<int, int>)
    ensures r == Product(x, y)
  {
    var retVal: SiValue<int, int> := Default();
    if x.value.Some? && x.unit.Some? && y.value.Some? && y.unit.Some? {
      retVal := retVal.(unit := Some(SiUnits.Mul(x.unit.value, y.unit.value)));
      retVal := retVal.(value := Some(x.value.value * y.value.value));
    } else {
      retVal := Default();
    }
    return retVal;
  }

  function Abs(a: int): nat {
    if a < 0 then -a else a
  }

  /** Integer division as Rust does it: the quotient rounded toward zero, so the
      remainder is smaller than the divisor and takes the sign of the dividend. */
  function TruncDiv(a: int, b: int): (q: int)
    requires b != 0
    ensures Abs(a - q * b) < Abs(b)
    ensures a - q * b == 0 || (a - q * b < 0 <==> a < 0)
  {
    TruncDivRemainder(a, b);
    var n := Abs(a) / Abs(b);
    if (a < 0) == (b < 0) then n else -n
  }

  /** The remainder of the truncating quotient is the magnitudes' remainder with
      the dividend's sign. */
  lemma TruncDivRemainder(a: int, b: int)
    requires b != 0
    ensures var n := Abs(a) / Abs(b);
      var q := if (a < 0) == (b < 0) then n else -n;
      a - q * b == if a < 0 then -(Abs(a) % Abs(b)) else Abs(a) % Abs(b)
  {
    var n, m := Abs(a) / Abs(b), Abs(a) % Abs(b);
    var p := n * Abs(b);
    assert Abs(a) == p + m;
    assert p == if b < 0 then -(n * b) else n * b;
  }

  /** What dividing two values gives: the quotient of the magnitudes with the
      quotient of the units, or void when either operand is not valid. */
  function Quotient(x: SiValue<int, int>, y: SiValue<int, int>): (r: SiValue<int, int>)
    requires Valid(x) && Valid(y) ==> y.value.value != 0
    ensures Valid(r) <==> Valid(x) && Valid(y)
    ensures Valid(r) ==> r.value.value == TruncDiv(x.value.value, y.value.value)
    ensures Valid(r) ==> forall k :: 0 <= k < 7 ==>
      SiUnits.Exponents(r.unit.value)[k] == SiUnits.Exponents(x.unit.value)[k] - SiUnits.Exponents(y.unit.value)[k]
    ensures !Valid(r) ==> r == Default()
  {
    if Valid(x) && Valid(y) then
      SiValue(Some(TruncDiv(x.value.value, y.value.value)), Some(SiUnits.Div(x.unit.value, y.unit.value)))
    else Default()
  }

  /** The source's `/`, written like its `*`. Dividing by a zero magnitude panics
      in the source, so it is excluded here. */
  method Div(x: SiValue<int, int>, y: SiValue<int, int>) returns (r: SiValue<int, int>)
    requires Valid(x) && Valid(y) ==> y.value.value != 0
    ensures r == Quotient(x, y)
  {
    var retVal: SiValue<int, int> := Default();
    if x.value.Some? && x.unit.Some? && y.value.Some? && y.unit.Some? {
      retVal := retVal.(unit := Some(SiUnits.Div(x.unit.value, y.unit.value)));
      retVal := retVal.(value := Some(TruncDiv(x.value.value, y.value.value)));
    } else {
      retVal := Default();
    }
    return retVal;
  }

  // ---------------------------------------------------------------------------
  // Conversion

  function ConvertUnit<E, F>(u: SiUnits.SiUnit<E>, g: E -> F): (r: SiUnits.SiUnit<F>)
    ensures forall k :: 0 <= k < 7 ==> SiUnits.Exponents(r)[k] == g(SiUnits.Exponents(u)[k])
  {
    SiUnits.SiUnit(g(u.length), g(u.mass), g(u.time), g(u.temperature), g(u.current), g(u.amount),
                   g(u.luminousIntensity))
  }

  /** The source's `si_into`: the magnitude converted with `f` and every exponent
      with `g`; an absent part stays absent. */
  function SiInto<M, E, N, F>(v: SiValue<M, E>, f: M -> N, g: E -> F): (r: SiValue<N, F>)
    ensures r.value.Some? <==> v.value.Some?
    ensures r.unit.Some? <==> v.unit.Some?
    ensures r.value.Some? ==> r.value.value == f(v.value.value)
    ensures r.unit.Some? ==> forall k :: 0 <= k < 7 ==>
      SiUnits.Exponents(r.unit.value)[k] == g(SiUnits.Exponents(v.unit.value)[k])
  {
    SiValue(
      if v.value.Some? then Some(f(v.value.value)) else None,
      if v.unit.Some? then Some(ConvertUnit(v.unit.value, g)) else None)
  }

  // ---------------------------------------------------------------------------
  // Display

  /** The magnitude as written: nothing at all for zero. */
  function MagnitudeText(m: int): (r: string)
    ensures r == "" <==> m == 0
    ensures m != 0 ==> ParseInt(r) == Some(m)
  {
    if m != 0 then ParseIntToString(m); IntToString(m) else ""
  }

  /** What the display writes: the magnitude, a space and the unit; a value
      without both parts is written as a fixed message. */
  function ValueText(v: SiValue<int, int>): (r: string)
    ensures r == "Value is None" <==> !Valid(v)
  {
    match v
    case SiValue(Some(m), Some(u)) =>
      var t := MagnitudeText(m) + " " + SiUnits.UnitText(u);
      assert t[0] != 'V' by {
        if m != 0 {
          assert t[0] == IntToString(m)[0];
        } else {
          assert t[0] == ' ';
        }
      }
      t
    case _ => "Value is None"
  }

  /** The source's `Display`, building the magnitude text step by step. */
  method Display(v: SiValue<int, int>) returns (s: string)
    ensures s == ValueText(v)
  {
    if v.value.Some? && v.unit.Some? {
      var displayVal := "";
      if v.value.value != 0 {
        displayVal := displayVal + IntToString(v.value.value);
      }
      var unitText := SiUnits.Display(v.unit.value);
      s := displayVal + " " + unitText;
    } else {
      s := "Value is None";
    }
  }

  // ---------------------------------------------------------------------------
  // Parsing

  /** One `sym^exp` token as the value parser reads it: the symbol lower-cased
      and the exponent as an integer. */
  function ReadValueToken(token: string): Option<(string, int)>
  {
    match SplitOnce(token, "^")
    case None => None
    case Some((name, power)) =>
      match ParseInt(power)
      case None => None
      case Some(e) => Some((ToLower(name), e))
  }

  /** A token the value parser reads is a symbol without '^', a '^' and an
      integer; the entry holds the symbol lower-cased and the integer. */
  lemma ReadValueTokenShape(token: string)
    requires ReadValueToken(token).Some?
    ensures var (key, e) := ReadValueToken(token).value;
      && |key| < |token| && token[|key|] == '^' && Lacks(token[..|key|], '^')
      && key == ToLower(token[..|key|])
      && ParseInt(token[|key| + 1..]) == Some(e)
  {
    var (name, power) := SplitOnce(token, "^").value;
    assert token[..|name|] == name && token[|name|] == '^' && token[|name| + 1..] == power;
    assert Find(token, "^") == Some(|name|);
    forall j | 0 <= j < |name| ensures name[j] != '^' {
      assert !OccursAt(token, "^", j);
      assert token[j..j + 1] == [name[j]];
    }
  }

  /** Every token read, or nothing if one of them cannot be. */
  function ReadValueTokens(tokens: seq<string>): Option<seq<(string, int)>>
  {
    if |tokens| == 0 then Some([])
    else
      match ReadValueTokens(tokens[..|tokens| - 1])
      case None => None
      case Some(entries) =>
        match ReadValueToken(tokens[|tokens| - 1])
        case None => None
        case Some(entry) => Some(entries + [entry])
  }

  /** The map the entries are inserted into, in order: a later entry for the same
      symbol replaces an earlier one. */
  function InsertAll(entries: seq<(string, int)>): map<string, int>
  {
    if |entries| == 0 then map[]
    else InsertAll(entries[..|entries| - 1])[entries[|entries| - 1].0 := entries[|entries| - 1].1]
  }

  /** A map lookup with 0 for a missing key. */
  function Get(hm: map<string, int>, key: string): (r: int)
    ensures key in hm ==> r == hm[key]
    ensures key !in hm ==> r == 0
  {
    if key in hm then hm[key] else 0
  }

  /** What reading `<magnitude> (<tokens>)` into a value gives. Every failure is
      a layout error. */
  function ParseValue(s: string): (r: SiUnits.Result<SiValue<int, int>>)
    ensures r.Err? ==> r.error == SiUnits.InvalidValueLayout
    ensures r.Ok? ==> Valid(r.value) && WellFormed(r.value)
  {
    match SplitOnce(s, " (")
    case None => SiUnits.Err(SiUnits.InvalidValueLayout)
    case Some((val, units)) =>
      match ParseInt(val)
      case None => SiUnits.Err(SiUnits.InvalidValueLayout)
      case Some(m) =>
        match ReadValueTokens(SiUnits.Segments(units))
        case None => SiUnits.Err(SiUnits.InvalidValueLayout)
        case Some(entries) =>
          var hm := InsertAll(entries);
          SiUnits.Ok(New(m, Get(hm, "m"), Get(hm, "kg"), Get(hm, "s"), Get(hm, "k"), Get(hm, "a"),
                         Get(hm, "mol"), Get(hm, "cd")))
  }

  lemma {:induction false} ReadFailurePersists(tokens: seq<string>, n: nat)
    requires n <= |tokens|
    ensures ReadValueTokens(tokens[..n]).None? ==> ReadValueTokens(tokens).None?
    decreases |tokens| - n
  {
    if n == |tokens| {
      assert tokens[..n] == tokens;
    } else if ReadValueTokens(tokens[..n]).None? {
      var init := tokens[..|tokens| - 1];
      assert init[..n] == tokens[..n];
      ReadFailurePersists(init, n);
    }
  }

  lemma ReadSnoc(tokens: seq<string>, i: nat)
    requires i < |tokens|
    ensures ReadValueTokens(tokens[..i + 1]) ==
      match ReadValueTokens(tokens[..i])
      case None => None
      case Some(entries) =>
        match ReadValueToken(tokens[i])
        case None => None
        case Some(entry) => Some(entries + [entry])
  {
    assert tokens[..i + 1][..i] == tokens[..i];
  }

  lemma InsertAllSnoc(entries: seq<(string, int)>, entry: (string, int))
    ensures InsertAll(entries + [entry]) == InsertAll(entries)[entry.0 := entry.1]
  {
    assert (entries + [entry])[..|entries|] == entries;
  }

  /** Every symbol inserted is a key of the map. */
  lemma {:induction false} InsertAllKeys(entries: seq<(string, int)>)
    ensures forall i :: 0 <= i < |entries| ==> entries[i].0 in InsertAll(entries)
    decreases |entries|
  {
    if |entries| > 0 {
      var n := |entries| - 1;
      InsertAllKeys(entries[..n]);
      forall i | 0 <= i < n ensures entries[i].0 in InsertAll(entries) {
        assert entries[i] == entries[..n][i];
      }
    }
  }

  /** Every key of the map is a symbol inserted. */
  lemma {:induction false} InsertAllOnlyKeys(entries: seq<(string, int)>)
    ensures forall key :: key in InsertAll(entries) ==> exists i :: 0 <= i < |entries| && entries[i].0 == key
    decreases |entries|
  {
    if |entries| > 0 {
      var n := |entries| - 1;
      var init := entries[..n];
      InsertAllOnlyKeys(init);
      forall key | key in InsertAll(entries) ensures exists i :: 0 <= i < |entries| && entries[i].0 == key {
        if key != entries[n].0 {
          assert InsertAll(entries) == InsertAll(init)[entries[n].0 := entries[n].1];
          assert key in InsertAll(init);
          var i :| 0 <= i < n && init[i].0 == key;
          assert entries[i] == init[i];
        }
      }
    }
  }

  /** A symbol's key holds the exponent of the last entry for that symbol. */
  lemma {:induction false} InsertAllLastWins(entries: seq<(string, int)>)
    ensures forall i :: 0 <= i < |entries| && (forall j :: i < j < |entries| ==> entries[j].0 != entries[i].0) ==>
      entries[i].0 in InsertAll(entries) && InsertAll(entries)[entries[i].0] == entries[i].1
    decreases |entries|
  {
    if |entries| > 0 {
      var n := |entries| - 1;
      var init := entries[..n];
      InsertAllLastWins(init);
      forall i | 0 <= i < n && (forall j :: i < j < |entries| ==> entries[j].0 != entries[i].0)
        ensures entries[i].0 in InsertAll(entries) && InsertAll(entries)[entries[i].0] == entries[i].1
      {
        assert entries[i] == init[i];
        assert entries[n].0 != init[i].0;
        forall j | i < j < n ensures init[j].0 != init[i].0 {
          assert init[j] == entries[j];
        }
      }
    }
  }

  /** The body of the source's loop over the tokens: read one `sym^exp` token and
      insert its exponent under the lower-cased symbol. */
  method InsertToken(unitHm: map<string, int>, unit: string) returns (r: Option<map<string, int>>)
    ensures r.None? <==> ReadValueToken(unit).None?
    ensures r.Some? ==> r.value == unitHm[ReadValueToken(unit).value.0 := ReadValueToken(unit).value.1]
  {
    var pieces := SplitOnce(unit, "^");
    if pieces.None? {
      return None;
    }
    var (unitName, powerValue) := pieces.value;
    var castedPower := ParseInt(powerValue);
    if castedPower.None? {
      return None;
    }
    return Some(unitHm[ToLower(unitName) := castedPower.value]);
  }

  /** The source's loop over the tokens: insert each one in turn, stopping at
      the first that cannot be read. */
  method InsertTokens(splitUnits: seq<string>) returns (r: Option<map<string, int>>)
    ensures r.None? <==> ReadValueTokens(splitUnits).None?
    ensures r.Some? ==> r.value == InsertAll(ReadValueTokens(splitUnits).value)
  {
    var unitHm: map<string, int> := map[];
    var i := 0;
    while i < |splitUnits|
      invariant 0 <= i <= |splitUnits|
      invariant ReadValueTokens(splitUnits[..i]).Some?
      invariant unitHm == InsertAll(ReadValueTokens(splitUnits[..i]).value)
    {
      var unit := splitUnits[i];
      ReadSnoc(splitUnits, i);
      ReadFailurePersists(splitUnits, i + 1);
      var next := InsertToken(unitHm, unit);
      if next.None? {
        return None;
      }
      unitHm := next.value;
      i := i + 1;
    }
    assert splitUnits[..i] == splitUnits;
    return Some(unitHm);
  }

  /** The source's `TryFrom<String>`: split off the magnitude, then insert every
      token into a map keyed by the lower-cased symbol, then look the seven
      symbols up. */
  method TryFrom(value: string) returns (r: SiUnits.Result<SiValue<int, int>>)
    ensures r == ParseValue(value)
  {
    var parts := SplitOnce(value, " (");
    if parts.None? {
      return SiUnits.Err(SiUnits.InvalidValueLayout);
    }
    var (valText, rest) := parts.value;
    var val := ParseInt(valText);
    if val.None? {
      return SiUnits.Err(SiUnits.InvalidValueLayout);
    }
    var units := Trim(rest);
    units := DropLast(units);
    var inserted := InsertTokens(Split(units, ")("));
    if inserted.None? {
      return SiUnits.Err(SiUnits.InvalidValueLayout);
    }
    var unitHm := inserted.value;
    return SiUnits.Ok(New(val.value, Get(unitHm, "m"), Get(unitHm, "kg"), Get(unitHm, "s"),
                          Get(unitHm, "k"), Get(unitHm, "a"), Get(unitHm, "mol"), Get(unitHm, "cd")));
  }
}

/** What the arithmetic, the display and the parser of values promise. */
module SiValueLaws {
  import opened Text
  import SiUnits
  import SiUnitLaws
  import opened SiValues

  // ---------------------------------------------------------------------------
  // Addition and subtraction

  lemma AddCommutative(x: SiValue<int, int>, y: SiValue<int, int>)
    ensures Add(x, y) == Add(y, x)
  {
  }

  /** Subtracting what was added restores the value. */
  lemma SubUndoesAdd(x: SiValue<int, int>, y: SiValue<int, int>)
    requires Valid(x) && Valid(y) && x.unit == y.unit
    ensures Sub(Add(x, y), y) == x
  {
  }

  /** y - (y - x) == x for values of one unit. */
  lemma SubTwice(x: SiValue<int, int>, y: SiValue<int, int>)
    requires Valid(x) && Valid(y) && x.unit == y.unit
    ensures Sub(y, Sub(y, x)) == x
  {
  }

  /** Adding or subtracting values of different units, or with a void operand,
      gives the void value without any error. */
  lemma MismatchIsVoid(x: SiValue<int, int>, y: SiValue<int, int>)
    requires !Valid(x) || !Valid(y) || x.unit != y.unit
    ensures Add(x, y) == Default() && Sub(x, y) == Default()
  {
  }

  // ---------------------------------------------------------------------------
  // Multiplication and division

  lemma ProductCommutative(x: SiValue<int, int>, y: SiValue<int, int>)
    ensures Product(x, y) == Product(y, x)
  {
    if Valid(x) && Valid(y) {
      SiUnits.MulCommutative(x.unit.value, y.unit.value);
    }
  }

  /** A positive multiple of `y` is at least `y`. */
  lemma {:induction false} MultipleAtLeast(d: nat, y: nat)
    requires d > 0
    ensures d * y >= y
  {
    if d > 1 {
      MultipleAtLeast(d - 1, y);
      assert d * y == (d - 1) * y + y;
    }
  }

  /** Cancelling a positive factor in a product of naturals. */
  lemma MulDivCancel(x: nat, y: nat)
    requires y > 0
    ensures (x * y) / y == x
  {
    var n := x * y;
    var q := n / y;
    var r := n % y;
    assert n == q * y + r;
    if x > q {
      assert n == q * y + (x - q) * y;
      MultipleAtLeast(x - q, y);
    } else if x < q {
      assert q * y == n + (q - x) * y;
      MultipleAtLeast(q - x, y);
    }
  }

  /** Dividing a multiple of `b` by `b` is exact. */
  lemma TruncDivExact(a: int, b: int)
    requires b != 0
    ensures TruncDiv(a * b, b) == a
  {
    assert Abs(a * b) == Abs(a) * Abs(b) by {
      if a < 0 && b < 0 { assert a * b == (-a) * (-b); }
      else if a < 0 { assert -(a * b) == (-a) * b; }
      else if b < 0 { assert -(a * b) == a * (-b); }
    }
    MulDivCancel(Abs(a), Abs(b));
    assert a * b == 0 || ((a * b < 0) <==> ((a < 0) != (b < 0)));
  }

  /** Dividing a product by one factor gives back the other: (x*y)/y == x and
      (x*y)/x == y when the divisor's magnitude is not zero. */
  lemma QuotientUndoesProduct(x: SiValue<int, int>, y: SiValue<int, int>)
    requires Valid(x) && Valid(y)
    ensures y.value.value != 0 ==> Quotient(Product(x, y), y) == x
    ensures x.value.value != 0 ==> Quotient(Product(x, y), x) == y
  {
    SiUnits.DivCancelsMul(x.unit.value, y.unit.value);
    if y.value.value != 0 {
      TruncDivExact(x.value.value, y.value.value);
    }
    if x.value.value != 0 {
      TruncDivExact(y.value.value, x.value.value);
      assert x.value.value * y.value.value == y.value.value * x.value.value;
    }
  }

  // ---------------------------------------------------------------------------
  // The source's arithmetic tests

  lemma AddExample()
    ensures Add(New(1, 2, 3, 4, 5, 6, 7, 8), New(10, 2, 3, 4, 5, 6, 7, 8)) == New(11, 2, 3, 4, 5, 6, 7, 8)
    ensures Add(New(10, 2, 3, 4, 5, 6, 7, 8), New(1, 2, 3, 4, 5, 6, 7, 8)) == New(11, 2, 3, 4, 5, 6, 7, 8)
    ensures Add(New(1, 2, 3, 4, 5, 6, 7, 8), New(10, 20, 30, 40, 50, 60, 70, 80)) == Default()
    ensures Add(New(1, 2, 3, 4, 5, 6, 7, 8), New(11, 22, 33, 44, 55, 66, 77, 88)) == Default()
  {
  }

  lemma SubExample()
    ensures Sub(New(10, 2, 3, 4, 5, 6, 7, 8), New(1, 2, 3, 4, 5, 6, 7, 8)) == New(9, 2, 3, 4, 5, 6, 7, 8)
    ensures Sub(New(10, 2, 3, 4, 5, 6, 7, 8), New(9, 2, 3, 4, 5, 6, 7, 8)) == New(1, 2, 3, 4, 5, 6, 7, 8)
  {
  }

  lemma MulExample()
    ensures Product(New(10, 20, 30, 40, 50, 60, 70, 80), New(5, 2, 3, 4, 5, 6, 7, 8)) == New(50, 22, 33, 44, 55, 66, 77, 88)
    ensures Product(New(5, 2, 3, 4, 5, 6, 7, 8), New(10, 20, 30, 40, 50, 60, 70, 80)) == New(50, 22, 33, 44, 55, 66, 77, 88)
  {
  }

  lemma DivExample()
    ensures Quotient(New(50, 22, 33, 44, 55, 66, 77, 88), New(10, 20, 30, 40, 50, 60, 70, 80)) == New(5, 2, 3, 4, 5, 6, 7, 8)
    ensures Quotient(New(50, 22, 33, 44, 55, 66, 77, 88), New(5, 2, 3, 4, 5, 6, 7, 8)) == New(10, 20, 30, 40, 50, 60, 70, 80)
  {
    TruncDivExact(5, 10);
    TruncDivExact(10, 5);
  }

  /** Integer division rounds toward zero for either sign. */
  lemma TruncDivExample()
    ensures TruncDiv(7, 2) == 3 && TruncDiv(-7, 2) == -3 && TruncDiv(7, -2) == -3 && TruncDiv(-7, -2) == 3
  {
  }

  // ---------------------------------------------------------------------------
  // Conversion

  lemma SiIntoIdentity<M, E>(v: SiValue<M, E>)
    ensures SiInto(v, (m: M) => m, (e: E) => e) == v
  {
    if v.unit.Some? {
      SiUnits.ExponentsDetermineUnit(SiInto(v, (m: M) => m, (e: E) => e).unit.value, v.unit.value);
    }
  }

  lemma SiIntoCompose<M, E, N, F, P, G>(v: SiValue<M, E>, f1: M -> N, g1: E -> F, f2: N -> P, g2: F -> G)
    ensures SiInto(SiInto(v, f1, g1), f2, g2) == SiInto(v, (m: M) => f2(f1(m)), (e: E) => g2(g1(e)))
  {
    if v.unit.Some? {
      SiUnits.ExponentsDetermineUnit(SiInto(SiInto(v, f1, g1), f2, g2).unit.value,
                                     SiInto(v, (m: M) => f2(f1(m)), (e: E) => g2(g1(e))).unit.value);
    }
  }

  /** The void value converts to the void value, not to a zero unit. */
  lemma SiIntoVoid<M, E, N, F>(f: M -> N, g: E -> F)
    ensures SiInto(Default<M, E>(), f, g) == Default<N, F>()
  {
  }

  /** Conversion keeps a value with both parts or neither in that shape. */
  lemma SiIntoWellFormed<M, E, N, F>(v: SiValue<M, E>, f: M -> N, g: E -> F)
    requires WellFormed(v)
    ensures WellFormed(SiInto(v, f, g))
    ensures Valid(SiInto(v, f, g)) <==> Valid(v)
  {
  }

  // ---------------------------------------------------------------------------
  // Well-formedness

  /** Every value the constructors, the operators and the parser build has both
      parts or neither: the struct's two options never come apart. */
  lemma OperationsWellFormed(x: SiValue<int, int>, y: SiValue<int, int>, m: int, u: SiUnits.SiUnit<int>, s: string)
    ensures WellFormed(Default<int, int>())
    ensures WellFormed(New(m, u.length, u.mass, u.time, u.temperature, u.current, u.amount, u.luminousIntensity))
    ensures WellFormed(Add(x, y)) && WellFormed(Sub(x, y)) && WellFormed(Product(x, y))
    ensures (Valid(x) && Valid(y) ==> y.value.value != 0) ==> WellFormed(Quotient(x, y))
    ensures ParseValue(s).Ok? ==> WellFormed(ParseValue(s).value)
  {
  }

  // ---------------------------------------------------------------------------
  // Display

  /** A zero magnitude is not written: only the separating space is left. */
  lemma ZeroMagnitudeText(u: SiUnits.SiUnit<int>)
    ensures ValueText(SiValue(Some(0), Some(u))) == " " + SiUnits.UnitText(u)
  {
    var t := SiUnits.UnitText(u);
    assert MagnitudeText(0) == "";
    assert "" + " " + t == " " + t;
  }

  lemma OneText()
    ensures MagnitudeText(1) == "1"
  {
  }

  // The display test's text, joined in steps short enough for the solver.

  lemma DisplaySpace()
    ensures "1" + " " + "(m^2)(kg^3)(s^4)(k^5)(A^6)(mol^7)(cd^8)" == "1 " + "(m^2)(kg^3)(s^4)(k^5)(A^6)(mol^7)(cd^8)"
  {
  }

  lemma DisplaySplit()
    ensures "(m^2)(kg^3)(s^4)(k^5)(A^6)(mol^7)(cd^8)" == "(m^2)(kg^3)(s^4)" + "(k^5)(A^6)(mol^7)(cd^8)"
  {
  }

  lemma DisplayRegroup()
    ensures "1 " + ("(m^2)(kg^3)(s^4)" + "(k^5)(A^6)(mol^7)(cd^8)") == "1 (m^2)(kg^3)(s^4)" + "(k^5)(A^6)(mol^7)(cd^8)"
  {
  }

  lemma DisplayJoin()
    ensures "1 (m^2)(kg^3)(s^4)" + "(k^5)(A^6)(mol^7)(cd^8)" == "1 (m^2)(kg^3)(s^4)(k^5)(A^6)(mol^7)(cd^8)"
  {
  }

  /** The source's display test. */
  lemma DisplayExample()
    ensures ValueText(New(1, 2, 3, 4, 5, 6, 7, 8)) == "1 (m^2)(kg^3)(s^4)(k^5)(A^6)(mol^7)(cd^8)"
  {
    var u := SiUnits.SiUnit(2, 3, 4, 5, 6, 7, 8);
    assert New(1, 2, 3, 4, 5, 6, 7, 8) == SiValue(Some(1), Some(u));
    SiUnitLaws.UnitTextExample();
    OneText();
    DisplaySpace();
    DisplaySplit();
    DisplayRegroup();
    DisplayJoin();
  }

  // ---------------------------------------------------------------------------
  // The value parser against the unit parser

  /** A token the value parser reads is one the unit parser reads with an
      integral exponent, under the same symbol up to letter case. */
  lemma ValueTokenRead(t: string)
    requires ReadValueToken(t).Some?
    ensures SiUnits.ReadToken(t).Ok?
    ensures SiUnits.ReadToken(t).value.1 == Integral(ReadValueToken(t).value.1)
    ensures ToLower(SiUnits.ReadToken(t).value.0) == ReadValueToken(t).value.0
  {
    var (name, power) := SplitOnce(t, "^").value;
    IntegerLiteralIsFloatLiteral(power);
  }

  /** The unit parser's field for a symbol is the one whose key is the
      lower-cased symbol. */
  lemma SlotIffKey(name: string, k: nat)
    requires k < 7
    ensures SiUnits.Slot(name) == Some(k) <==> ToLower(name) == SiUnits.Keys[k]
  {
  }

  /** Where the value parser reads every token, the unit parser reads them
      without error and both give each dimension the same exponent. */
  lemma {:induction false} ParsersAgree(tokens: seq<string>)
    requires ReadValueTokens(tokens).Some?
    ensures SiUnits.FirstError(SiUnits.ReadAll(tokens)).None?
    ensures forall k :: 0 <= k < 7 ==>
      SiUnits.LastExponent(SiUnits.ReadAll(tokens), k) == Get(InsertAll(ReadValueTokens(tokens).value), SiUnits.Keys[k])
  {
    if |tokens| > 0 {
      var init, t := tokens[..|tokens| - 1], tokens[|tokens| - 1];
      ParsersAgree(init);
      var entries, entry := ReadValueTokens(init).value, ReadValueToken(t).value;
      assert ReadValueTokens(tokens).value == entries + [entry];
      ValueTokenRead(t);
      ReadsAgreeStep(SiUnits.ReadAll(init), SiUnits.ReadToken(t), entries, entry);
    }
  }

  /** One more token read by both parsers keeps them in agreement. */
  lemma ReadsAgreeStep(rs: seq<SiUnits.Read>, r: SiUnits.Read, entries: seq<(string, int)>, entry: (string, int))
    requires SiUnits.FirstError(rs).None?
    requires forall k :: 0 <= k < 7 ==> SiUnits.LastExponent(rs, k) == Get(InsertAll(entries), SiUnits.Keys[k])
    requires r.Ok? && r.value.1 == Integral(entry.1) && ToLower(r.value.0) == entry.0
    ensures SiUnits.FirstError(rs + [r]).None?
    ensures forall k :: 0 <= k < 7 ==>
      SiUnits.LastExponent(rs + [r], k) == Get(InsertAll(entries + [entry]), SiUnits.Keys[k])
  {
    InsertAllSnoc(entries, entry);
    SiUnits.FirstErrorSnoc(rs, r);
    forall k | 0 <= k < 7
      ensures SiUnits.LastExponent(rs + [r], k) == Get(InsertAll(entries + [entry]), SiUnits.Keys[k])
    {
      SiUnits.LastExponentSnoc(rs, r, k);
      SlotIffKey(r.value.0, k);
    }
  }

  /** Whatever the value parser accepts, the unit parser accepts the same
      tokens and gives the same unit. */
  lemma ValueParserAgrees(s: string)
    requires ParseValue(s).Ok?
    ensures Valid(ParseValue(s).value)
    ensures SplitOnce(s, " (").Some?
    ensures SiUnits.ParseUnit("(" + SplitOnce(s, " (").value.1) == SiUnits.Ok(ParseValue(s).value.unit.value)
  {
    var (val, units) := SplitOnce(s, " (").value;
    UnitOfEntries(SiUnits.Segments(units));
    assert ("(" + units)[1..] == units;
  }

  /** The unit the unit parser reads from tokens the value parser reads is the
      one the value parser looks up in its map. */
  lemma UnitOfEntries(tokens: seq<string>)
    requires ReadValueTokens(tokens).Some?
    ensures var hm := InsertAll(ReadValueTokens(tokens).value);
      SiUnits.ReadsToUnit(SiUnits.ReadAll(tokens)) ==
        SiUnits.Ok(SiUnits.SiUnit(Get(hm, "m"), Get(hm, "kg"), Get(hm, "s"), Get(hm, "k"), Get(hm, "a"),
                                  Get(hm, "mol"), Get(hm, "cd")))
  {
    ParsersAgree(tokens);
  }

  lemma IntegerLacksSpace(val: string)
    requires ParseInt(val).Some?
    ensures Lacks(val, ' ')
  {
  }

  /** A magnitude the value parser reads, " (" and units it reads give the
      value whose unit is the one the unit parser gives. */
  lemma ParseValueOf(val: string, units: string, m: int, u: SiUnits.SiUnit<int>)
    requires ParseInt(val) == Some(m)
    requires ReadValueTokens(SiUnits.Segments(units)).Some? && SiUnits.ParseUnit("(" + units) == SiUnits.Ok(u)
    ensures ParseValue(val + " (" + units) == SiUnits.Ok(SiValue(Some(m), Some(u)))
  {
    IntegerLacksSpace(val);
    SplitOnceAfterClean(val, " (", units);
    ValueParserAgrees(val + " (" + units);
  }

  /** Reading fails as soon as one token cannot be read. */
  lemma ReadFailureAnywhere(tokens: seq<string>, i: nat)
    requires i < |tokens| && ReadValueToken(tokens[i]).None?
    ensures ReadValueTokens(tokens).None?
  {
    ReadSnoc(tokens, i);
    ReadFailurePersists(tokens, i + 1);
  }

  /** A literal with a decimal point is no integer literal. */
  lemma PointNotInteger(whole: string, fraction: string)
    requires AllDigits(whole) && AllDigits(fraction)
    ensures ParseInt(whole + "." + fraction).None?
    ensures Lacks(whole + "." + fraction, ')')
  {
    var x := whole + "." + fraction;
    assert x[|whole|] == '.';
    forall i | 0 <= i < |x| ensures x[i] != ')' {
      if i > |whole| { assert x[i] == fraction[i - |whole| - 1]; }
    }
  }

  /** A token whose exponent is no integer literal is not read. */
  lemma NonIntegerTokenUnread(name: string, x: string)
    requires IsWord(name) && ParseInt(x).None?
    ensures ReadValueToken(name + "^" + x).None?
  {
    assert Lacks(name, '^');
    SplitOnceAfterClean(name, "^", x);
  }

  /** A token whose exponent has a decimal point is not read by the value
      parser, whatever its fraction, so the whole value is a layout error where
      the unit parser reports a failed cast. */
  lemma FractionalExponentRejected(val: string, name: string, whole: string, fraction: string)
    requires Lacks(val, ' ') && IsWord(name) && AllDigits(whole) && AllDigits(fraction)
    ensures ParseValue(val + " (" + name + "^" + (whole + "." + fraction) + ")") == SiUnits.Err(SiUnits.InvalidValueLayout)
  {
    var x := whole + "." + fraction;
    PointNotInteger(whole, fraction);
    var body := name + "^" + x;
    assert val + " (" + name + "^" + x + ")" == val + " (" + (body + ")");
    SplitOnceAfterClean(val, " (", body + ")");
    SiUnitLaws.SingleSegment(name, x);
    NonIntegerTokenUnread(name, x);
    ReadFailureAnywhere([body], 0);
  }

  // ---------------------------------------------------------------------------
  // Reading back the display

  lemma ValueReadBody(t: SiUnits.Term)
    requires IsWord(t.symbol)
    ensures ReadValueToken(SiUnits.TokenBody(t)).Some?
  {
    SiUnitLaws.BodyLacksParen(t);
    SplitOnceAfterClean(t.symbol, "^", IntToString(t.exponent));
    ParseIntToString(t.exponent);
  }

  lemma {:induction false} ReadEveryToken(tokens: seq<string>)
    requires forall i :: 0 <= i < |tokens| ==> ReadValueToken(tokens[i]).Some?
    ensures ReadValueTokens(tokens).Some?
  {
    if |tokens| > 0 {
      ReadEveryToken(tokens[..|tokens| - 1]);
    }
  }

  /** The value parser reads every body of written terms. */
  lemma ValueReadBodies(ts: seq<SiUnits.Term>)
    requires SiUnitLaws.WordTerms(ts)
    ensures ReadValueTokens(SiUnits.Bodies(ts)).Some?
  {
    forall i | 0 <= i < |ts| ensures ReadValueToken(SiUnits.Bodies(ts)[i]).Some? {
      ValueReadBody(ts[i]);
    }
    ReadEveryToken(SiUnits.Bodies(ts));
  }

  /** The display of a unit with a dimension starts with '(' and the value
      parser reads every token after it. */
  lemma WrittenUnitReads(u: SiUnits.SiUnit<int>)
    requires u != SiUnits.Default()
    ensures |SiUnits.UnitText(u)| > 0 && SiUnits.UnitText(u)[0] == '('
    ensures ReadValueTokens(SiUnits.Segments(SiUnits.UnitText(u)[1..])).Some?
  {
    var ts := SiUnits.NonZeroTerms(u);
    SiUnitLaws.NoTermsIffDefault(u);
    SiUnitLaws.SymbolsAreWords();
    SiUnitLaws.NonZeroTermsFacts(u);
    assert SiUnitLaws.WordTerms(ts);
    SiUnitLaws.RenderedSegments(ts);
    ValueReadBodies(ts);
  }

  /** A magnitude written in decimal, " (" and a unit text after its opening
      parenthesis are read back as that magnitude and unit. */
  lemma ParseAfterMagnitude(m: int, t: string, u: SiUnits.SiUnit<int>)
    requires |t| > 0 && t[0] == '(' && SiUnits.ParseUnit(t) == SiUnits.Ok(u)
    requires ReadValueTokens(SiUnits.Segments(t[1..])).Some?
    ensures ParseValue(IntToString(m) + " (" + t[1..]) == SiUnits.Ok(SiValue(Some(m), Some(u)))
  {
    assert [t[0]] + t[1..] == t;
    ParseIntToString(m);
    ParseValueOf(IntToString(m), t[1..], m, u);
  }

  /** A value written as a magnitude, " (" and the rest of a unit's display is
      read back as that magnitude and unit. */
  lemma ParseWritten(m: int, u: SiUnits.SiUnit<int>)
    requires u != SiUnits.Default()
    ensures |SiUnits.UnitText(u)| > 0 && SiUnits.UnitText(u)[0] == '('
    ensures ParseValue(IntToString(m) + " (" + SiUnits.UnitText(u)[1..]) == SiUnits.Ok(SiValue(Some(m), Some(u)))
  {
    WrittenUnitReads(u);
    SiUnitLaws.ParseUnitRoundTrip(u);
    ParseAfterMagnitude(m, SiUnits.UnitText(u), u);
  }

  lemma OpenParen(a: string, t: string)
    requires |t| > 0 && t[0] == '('
    ensures a + " " + t == a + " (" + t[1..]
  {
    assert t == "(" + t[1..];
  }

  /** Reading back the display of a value gives the value, except when its
      magnitude is zero (the magnitude is not written), when it is
      dimensionless (no unit is written) and when it is void. */
  lemma ParseValueRoundTrip(v: SiValue<int, int>)
    ensures ParseValue(ValueText(v)) == SiUnits.Ok(v) <==>
      Valid(v) && v.value.value != 0 && v.unit.value != SiUnits.Default()
  {
    if !Valid(v) {
      var t := "Value is None";
      assert Lacks(t, '(');
      NoOccurrenceOf(t, " (", 1);
    } else {
      var m, u := v.value.value, v.unit.value;
      SiUnitLaws.UnitTextEmptyIffDefault(u);
      if u == SiUnits.Default() {
        var t := MagnitudeText(m) + " ";
        assert ValueText(v) == t;
        assert Lacks(t, '(') by {
          if m != 0 { assert t == IntToString(m) + " "; }
        }
        NoOccurrenceOf(t, " (", 1);
      } else if m == 0 {
        WrittenUnitReads(u);
        var units := SiUnits.UnitText(u)[1..];
        OpenParen("", SiUnits.UnitText(u));
        SplitOnceAfterClean("", " (", units);
      } else {
        ParseWritten(m, u);
        OpenParen(IntToString(m), SiUnits.UnitText(u));
      }
    }
  }

  lemma ThreeText()
    ensures ParseInt("3") == Some(3)
  {
    ParseIntToString(3);
    assert IntToString(3) == "3";
  }

  lemma ExampleUnits()
    ensures ReadValueTokens(SiUnits.Segments("s^4)(m^2)(cd^8)")).Some?
  {
    var ts := [SiUnits.Term("s", 4), SiUnits.Term("m", 2), SiUnits.Term("cd", 8)];
    SiUnitLaws.ExampleText();
    assert SiUnitLaws.WordTerms(ts);
    SiUnitLaws.RenderedSegments(ts);
    assert SiUnits.Render(ts)[1..] == "s^4)(m^2)(cd^8)";
    ValueReadBodies(ts);
  }

  lemma ExampleValueText()
    ensures "3 (s^4)(m^2)(cd^8)" == "3" + " (" + "s^4)(m^2)(cd^8)"
    ensures "(" + "s^4)(m^2)(cd^8)" == "(s^4)(m^2)(cd^8)"
  {
  }

  /** The source's value parsing test. */
  lemma ParseValueExample()
    ensures ParseValue("3 (s^4)(m^2)(cd^8)") == SiUnits.Ok(New(3, 2, 0, 4, 0, 0, 0, 8))
  {
    ExampleValueText();
    ThreeText();
    ExampleUnits();
    SiUnitLaws.ParseUnitExample();
    ParseValueOf("3", "s^4)(m^2)(cd^8)", 3, SiUnits.SiUnit(2, 0, 4, 0, 0, 0, 8));
  }
}
