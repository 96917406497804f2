# si: SI quantities and dimension vectors, in Dafny

This project models the `si` Rust crate (`src/lib.rs`). The crate has two types:

- `SiUnit` is a dimension vector. It holds one exponent for each of length (m), mass (kg), time (s), temperature (k), current (A), amount of substance (mol) and luminous intensity (cd).
  - Units multiply by adding exponents and divide by subtracting them.
  - Units are written as `(sym^exp)` tokens.
  - Units are read back from text of the form `(sym^exp)(sym^exp)...`.
- `SiValue` is an optional magnitude paired with an optional unit. The value with both parts missing is the *void* value; it is the default, and it is what an illegal operation returns.
  - Values add and subtract only when their units are equal; otherwise the result is void, with no error.
  - Values multiply and divide through their units.
  - `si_into` converts the numeric types of a value.
  - A value is written as `<magnitude> <unit>`, and void is written as `Value is None`.
  - A value is read from text of the form `<magnitude> (<tokens>)`.

Arithmetic, display and parsing are on `int`; the datatypes, the constructors, equality and `si_into` stay generic. Integer division rounds toward zero, as Rust's does.

The model has three files:

- `text.dfy` (module `Text`) holds the text handling the crate gets from Rust and from `prse`:
  - decimal printing and reading of integers;
  - the float-literal reading of exponents;
  - whitespace trimming, lower-casing, first-occurrence splitting and `str::split`.
- `si_unit.dfy` holds two modules:
  - `SiUnits` models `SiUnit` and `SiParseError`;
  - `SiUnitLaws` states what its display and parser promise.
- `si_value.dfy` holds two modules:
  - `SiValues` models `SiValue`;
  - `SiValueLaws` holds its laws, the source's tests, and the link between the value parser and the unit parser.

Code the source writes imperatively is modelled as methods, each proved against a specification function:

- the two `Display` impls build a string piece by piece;
- `SiValue`'s `*` and `/` fill a mutable `ret_val`;
- the two `try_from` loops update a unit or insert into a `HashMap`.

Everything else is modelled as functions.

Two points about how the source behaves:

- **Round trips are narrower than a reader might expect.** Reading back the display of a value gives the value exactly when the value is valid, its magnitude is not zero and its unit is not dimensionless. A dimensionless unit is written as the empty string, so nothing follows the space and there is no `" ("` to split on. Likewise, reading back a unit's display gives the unit for every unit except the dimensionless one.
- **The value parser reports a bad exponent as a layout error.** It reads each exponent with the exponent type's own parser and maps every failure to `InvalidValueLayout` (`src/lib.rs:158`). So a fractional exponent is a layout error there, even on a symbol it ignores. The unit parser instead reports `InvalidCast`, and only for the seven symbols it recognises. So the two parsers report different errors for the same fractional exponent.

## Model

| member | source | states |
|---|---|---|
| SiUnits.Exponents | src/lib.rs:180-188 | a unit has exactly seven exponents, in the order m, kg, s, k, A, mol, cd |
| SiUnits.ExponentsDetermineUnit | src/lib.rs:180-188 | two units with the same seven exponents are the same unit |
| SiUnits.Equal | src/lib.rs:189-199 | the field-by-field comparison holds exactly when the units are equal |
| SiUnits.Mul | src/lib.rs:200-214 | each exponent of a product is the sum of the factors' exponents |
| SiUnits.Div | src/lib.rs:215-229 | each exponent of a quotient is the dividend's exponent minus the divisor's |
| SiUnits.Default | src/lib.rs:303-307 | the default unit has every exponent zero |
| SiUnits.NonZeroTermsUpTo | src/lib.rs:232-253 | the tokens the display writes for the first n dimensions are at most n, and none has a zero exponent |
| SiUnits.MulCommutative | src/lib.rs:200-214 | unit multiplication is commutative, although the source adds rhs to lhs |
| SiUnits.MulAssociative | src/lib.rs:200-214 | unit multiplication is associative |
| SiUnits.DefaultIsNeutral | src/lib.rs:200-229 | the dimensionless unit is neutral for `*` on both sides and for `/` on the right |
| SiUnits.DivCancelsMul | src/lib.rs:200-229 | (a*b)/b == a and (a*b)/a == b |
| SiUnits.DivSelf | src/lib.rs:215-229 | a unit divided by itself is dimensionless |
| SiUnits.RenderStep | src/lib.rs:232-253 | considering one more dimension appends its token, or nothing if its exponent is 0 |
| SiUnits.UnitTextPieces | src/lib.rs:232-254 | the text of a unit is the seven optional tokens in the order m, kg, s, k, A, mol, cd |
| SiUnitLaws.RenderEmpty | src/lib.rs:232-254 | the display writes nothing exactly when it has no token to write |
| SiUnits.PushToken | src/lib.rs:233-235 | one display step appends `(sym^exp)` exactly when the exponent is not 0 |
| SiUnits.Display | src/lib.rs:230-256 | the string the display builds step by step is the unit's text |
| SiUnits.Slot | src/lib.rs:281-289 | a symbol names a field exactly when its lower-cased form is one of m, kg, s, k, a, mol, cd; the field is the one with that key |
| SiUnits.ReadToken | src/lib.rs:280 | a token is read exactly when it has a `^` followed by a float literal; it is then read as the text before its first `^`, which holds no `^`, and that literal; anything else is `InvalidValueLayout` |
| SiUnits.Cast | src/lib.rs:282-288 | the cast succeeds exactly on an integral literal and keeps its value; otherwise it is `InvalidCast` |
| SiUnits.Segments | src/lib.rs:275-277 | the tokens are at least one, none contains `)(`, and joined with `)(` they give the trimmed text without its last character |
| SiUnits.ReadsToUnit | src/lib.rs:278-292 | the loop's result is the first error a token raises, or, with none, the unit whose every field is the last exponent given to it, 0 when none is |
| SiUnits.ParseUnitReads | src/lib.rs:270-294 | text not starting with `(` is `InvalidValueLayout`; otherwise parsing fails exactly when a token raises an error, with the first such error, and each field is the last exponent given to it |
| SiUnits.ReadAll | src/lib.rs:279-280 | reading the tokens gives one read per token |
| SiUnits.ReadAllIndex | src/lib.rs:279-280 | the i-th read is the reading of the i-th token |
| SiUnits.FirstErrorPersists | src/lib.rs:279-291 | once a token raises an error, later tokens do not change the error reported |
| SiUnits.FirstErrorSnoc | src/lib.rs:279-291 | a further token's error is reported only when no earlier token raised one |
| SiUnits.LastExponentSnoc | src/lib.rs:279-291 | a further token that names a field overrides that field's earlier value |
| SiUnits.ReadAllSnoc | src/lib.rs:279-280 | reading one more token appends its read |
| SiUnits.Assign | src/lib.rs:281-290 | a recognised symbol sets its field, or fails with `InvalidCast` when the exponent is fractional; any other symbol changes nothing |
| SiUnits.ApplyToken | src/lib.rs:279-290 | one loop iteration: a token without `^` or a valid number is a layout error, otherwise the token sets the field it names |
| SiUnits.ApplyTokens | src/lib.rs:278-292 | the loop starting from the default unit gives the first token's error, or else every field from the last token naming it |
| SiUnits.TryFrom | src/lib.rs:270-302 | the parser requires the leading `(`, trims, drops the last character, splits at `)(`, and then runs the loop |
| SiUnitLaws.SymbolsAreWords | src/lib.rs:234-252 | the written symbols are non-empty runs of letters |
| SiUnitLaws.SlotOfSymbol | src/lib.rs:234-252 | the parser reads each written symbol as its own dimension |
| SiUnitLaws.NonZeroTermsFacts | src/lib.rs:232-253 | the written tokens are exactly the non-zero exponents, each with its dimension's symbol, in increasing dimension order |
| SiUnitLaws.NonZeroTermsUpToFacts | src/lib.rs:232-253 | the same facts, for the first n dimensions |
| SiUnitLaws.NoTermsIffDefault | src/lib.rs:232-253 | a unit writes no token exactly when it is dimensionless |
| SiUnitLaws.UnitTextEmptyIffDefault | src/lib.rs:230-256 | the text of a unit is empty exactly when the unit is dimensionless |
| SiUnitLaws.UnitTextExample | src/lib.rs:377-382 | (2,3,4,5,6,7,8) is written "(m^2)(kg^3)(s^4)(k^5)(A^6)(mol^7)(cd^8)" |
| SiUnitLaws.RenderAsJoin | src/lib.rs:232-254 | written tokens are "(" + the token bodies joined by ")(" + ")" |
| SiUnitLaws.RenderedSegments | src/lib.rs:274-277 | the parser's trim, pop and split recover exactly the token bodies from a written unit |
| SiUnitLaws.ReadBody | src/lib.rs:280 | a written token is read back as its symbol and its integral exponent |
| SiUnitLaws.ParseRendered | src/lib.rs:270-294 | parsing written tokens is reading back their own symbols and exponents |
| SiUnitLaws.DecodeTermsUpTo | src/lib.rs:278-291 | reading the written tokens of the first n dimensions restores those n exponents and leaves the rest 0 |
| SiUnitLaws.ParseUnitRoundTrip | src/lib.rs:230-294 | parsing a unit's display gives the unit exactly when the unit is not dimensionless |
| SiUnitLaws.FirstErrorIsFirstBad | src/lib.rs:279-291 | the error reported is that of the first token raising one, and there is none exactly when no token raises one |
| SiUnitLaws.AbsentFieldIsZero | src/lib.rs:278 | a field that no token names is 0 |
| SiUnitLaws.LaterTokenWins | src/lib.rs:279-291 | when two tokens name the same field, the later one decides its value |
| SiUnitLaws.UnknownTokenIgnored | src/lib.rs:289 | a well-formed token with an unknown symbol changes neither the error nor any field |
| SiUnitLaws.AlikeReadsSameUnit | src/lib.rs:281 | reads that differ only in the letter case of their symbols give the same result |
| SiUnitLaws.ParseUnitIgnoresCase | src/lib.rs:281 | written tokens whose symbols differ only in letter case parse to the same unit |
| SiUnitLaws.ParseUnitExample | src/lib.rs:390-395 | "(s^4)(m^2)(cd^8)" parses to (2,0,4,0,0,0,8) |
| SiUnitLaws.SingleToken | src/lib.rs:274-280 | a one-token text is read as that token, split at its `^` |
| SiUnitLaws.FractionalExponentFails | src/lib.rs:282-288 | a fractional exponent on a recognised symbol is `InvalidCast` |
| SiUnitLaws.FractionalExponentIgnored | src/lib.rs:289 | a fractional exponent on an unknown symbol is ignored |
| SiUnitLaws.UpperCaseExample | src/lib.rs:281-284 | "(S^3)" parses to time 3 |
| SiUnitLaws.MissingCaretExample | src/lib.rs:280 | "(s4)" is `InvalidValueLayout` |
| SiValues.Default | src/lib.rs:87-94 | the default value is void: it lacks both parts |
| SiValues.New | src/lib.rs:131-144 | `new` gives a valid value with that magnitude and those seven exponents in order |
| SiValues.Equal | src/lib.rs:10-14 | the part-by-part comparison holds exactly when the values are equal, so void equals void |
| SiValues.Add | src/lib.rs:15-34 | the sum is valid exactly when both operands are valid with equal units; it then adds the magnitudes and keeps the unit, and otherwise it is void |
| SiValues.Sub | src/lib.rs:35-54 | the same as `+`, with the difference of the magnitudes |
| SiValues.Product | src/lib.rs:55-70 | the product is valid exactly when both operands are; it multiplies the magnitudes and adds each exponent, and otherwise it is void |
| SiValues.Mul | src/lib.rs:58-69 | the result built through the mutable `ret_val` is that product |
| SiValues.TruncDiv | src/lib.rs:80 | the integer quotient leaves a remainder smaller than the divisor, with the dividend's sign |
| SiValues.Quotient | src/lib.rs:71-86 | the quotient is valid exactly when both operands are; it divides the magnitudes toward zero and subtracts each exponent, and otherwise it is void |
| SiValues.Div | src/lib.rs:74-85 | the result built through the mutable `ret_val` is that quotient |
| SiValues.ConvertUnit | src/lib.rs:116-124 | each converted exponent is the conversion of the original one |
| SiValues.SiInto | src/lib.rs:108-130 | conversion keeps which parts are present, converts the magnitude, and converts all seven exponents |
| SiValues.Display | src/lib.rs:95-107 | the string built step by step is the value's text |
| SiValues.MagnitudeText | src/lib.rs:98-101 | the magnitude text is empty exactly when the magnitude is 0, and otherwise reads back as the magnitude |
| SiValues.ValueText | src/lib.rs:97-105 | the text is "Value is None" exactly when the value lacks a part |
| SiValues.ReadValueTokenShape | src/lib.rs:157-159 | a token the value parser reads is a symbol without `^`, a `^` and an integer literal; the entry is the lower-cased symbol and that integer |
| SiValues.InsertToken | src/lib.rs:157-159 | one loop iteration: a token is rejected exactly when it has no `^` or its exponent is no integer; otherwise its lower-cased symbol is mapped to the exponent |
| SiValues.InsertTokens | src/lib.rs:154-160 | the loop fails exactly when some token cannot be read, and otherwise gives the map of all entries inserted in order |
| SiValues.InsertAllKeys | src/lib.rs:159 | every inserted symbol is a key of the map |
| SiValues.InsertAllOnlyKeys | src/lib.rs:159 | every key of the map is an inserted symbol |
| SiValues.InsertAllLastWins | src/lib.rs:159 | a symbol's key holds the exponent of the last entry for that symbol |
| SiValues.Get | src/lib.rs:163-169 | a lookup gives the stored exponent, or 0 when the key is missing |
| SiValues.ParseValue | src/lib.rs:150-171 | every parse failure is `InvalidValueLayout`, and every parsed value has both parts |
| SiValues.TryFrom | src/lib.rs:150-171 | the parser splits at the first " (", reads the magnitude, inserts every token into the map, and looks up the seven keys with default 0 |
| SiValues.ReadFailurePersists | src/lib.rs:156-160 | once a token cannot be read, the whole value cannot be |
| SiValues.ReadSnoc | src/lib.rs:156-160 | reading one more token appends its entry, or fails |
| SiValues.InsertAllSnoc | src/lib.rs:159 | inserting one more entry overrides that key |
| SiValueLaws.AddCommutative | src/lib.rs:15-34 | x + y == y + x for all values, void ones included |
| SiValueLaws.SubUndoesAdd | src/lib.rs:15-54 | (x + y) - y == x for valid values of one unit |
| SiValueLaws.SubTwice | src/lib.rs:35-54 | y - (y - x) == x for valid values of one unit |
| SiValueLaws.MismatchIsVoid | src/lib.rs:27-31 | a void operand or unequal units make both `+` and `-` void |
| SiValueLaws.ProductCommutative | src/lib.rs:55-70 | x * y == y * x |
| SiValueLaws.TruncDivExact | src/lib.rs:80 | dividing a multiple of b by b is exact |
| SiValueLaws.QuotientUndoesProduct | src/lib.rs:55-86 | (x*y)/y == x and (x*y)/x == y for valid values with non-zero divisor magnitudes |
| SiValueLaws.AddExample | src/lib.rs:333-343 | the source's addition test, including the two void results |
| SiValueLaws.SubExample | src/lib.rs:345-351 | the source's subtraction test |
| SiValueLaws.MulExample | src/lib.rs:353-359 | the source's multiplication test |
| SiValueLaws.DivExample | src/lib.rs:361-367 | the source's integer division test |
| SiValueLaws.TruncDivExample | src/lib.rs:80 | 7/2 = 3, -7/2 = -3, 7/-2 = -3 and -7/-2 = 3 |
| SiValueLaws.SiIntoIdentity | src/lib.rs:108-130 | converting with identities changes nothing |
| SiValueLaws.SiIntoCompose | src/lib.rs:108-130 | two conversions in a row are one conversion by the composed functions |
| SiValueLaws.SiIntoVoid | src/lib.rs:114-128 | void converts to void, and the unit stays absent rather than becoming dimensionless |
| SiValueLaws.SiIntoWellFormed | src/lib.rs:108-130 | conversion keeps a value with both parts or neither in that shape, and keeps whether it is valid |
| SiValueLaws.OperationsWellFormed | src/lib.rs:15-171 | `default`, `new`, `+`, `-`, `*`, `/` and the parser only build values with both parts or neither |
| SiValueLaws.ZeroMagnitudeText | src/lib.rs:97-102 | a zero magnitude is not written: the text is a space followed by the unit |
| SiValueLaws.DisplayExample | src/lib.rs:383-389 | new(1,2,...,8) is written "1 (m^2)(kg^3)(s^4)(k^5)(A^6)(mol^7)(cd^8)" |
| SiValueLaws.ValueTokenRead | src/lib.rs:157-158 | a token the value parser reads, the unit parser reads with the same integral exponent, under the same symbol up to letter case |
| SiValueLaws.ParsersAgree | src/lib.rs:156-169 | where the value parser reads every token, the unit parser raises no error and gives each dimension the exponent the map lookup gives |
| SiValueLaws.UnitOfEntries | src/lib.rs:161-170 | the looked-up unit is the unit the unit parser reads from the same tokens |
| SiValueLaws.ValueParserAgrees | src/lib.rs:150-171 | whatever the value parser accepts is valid, and its unit is what the unit parser reads from the text after " " |
| SiValueLaws.ParseValueOf | src/lib.rs:150-171 | a readable magnitude, " (" and readable tokens give that magnitude with the unit the unit parser reads |
| SiValueLaws.ReadFailureAnywhere | src/lib.rs:156-158 | a single unreadable token makes the whole value unreadable |
| SiValueLaws.NonIntegerTokenUnread | src/lib.rs:158 | a token whose exponent is no integer literal is not read |
| SiValueLaws.FractionalExponentRejected | src/lib.rs:158 | a fractional exponent makes the value `InvalidValueLayout`, whatever the symbol |
| SiValueLaws.ValueReadBodies | src/lib.rs:157-158 | the value parser reads every written token |
| SiValueLaws.WrittenUnitReads | src/lib.rs:152-158 | after " (", the display of a unit with a dimension is read token by token |
| SiValueLaws.ParseWritten | src/lib.rs:95-171 | a magnitude written in decimal, followed by a unit's display, is read back as that magnitude and unit |
| SiValueLaws.ParseValueRoundTrip | src/lib.rs:95-171 | parsing a value's display gives the value exactly when it is valid, its magnitude is not zero and its unit is not dimensionless |
| SiValueLaws.ParseValueExample | src/lib.rs:396-401 | "3 (s^4)(m^2)(cd^8)" parses to magnitude 3 with length 2, time 4 and cd 8 |
| Text.ParseIntToString | src/lib.rs:100 | the decimal text of an integer reads back as that integer |
| Text.IntToString | src/lib.rs:100 | the decimal text of an integer is non-empty, made of digits and `-`, and starts with a digit exactly when the integer is not negative |
| Text.ParseInt | src/lib.rs:158 | an accepted integer literal is non-empty and made of digits and signs |
| Text.ParseIntAccepts | src/lib.rs:158 | the integer reader accepts exactly an optional sign followed by one or more digits |
| Text.ParseFloatLiteral | src/lib.rs:280 | an accepted float literal is non-empty and made of digits, a point and signs |
| Text.ParseFloatAccepts | src/lib.rs:280 | the float reader accepts exactly an optional sign followed by digits with at most one point and at least one digit |
| Text.IntegerLiteralIsFloatLiteral | src/lib.rs:280 | every integer literal is a float literal with the same integral value |
| Text.PointLiteral | src/lib.rs:280 | a literal with a point is integral exactly when every digit after the point is 0 |
| Text.SplitOnceAfterClean | src/lib.rs:151 | splitting at the first occurrence of a pattern stops at the first place it occurs |
| Text.SplitOnce | src/lib.rs:151 | a split gives the text before and after the first occurrence of the pattern; there is none exactly when the pattern does not occur |
| Text.Split | src/lib.rs:155 | the pieces are at least one, none contains the separator, and joined with the separator they give the text back, so the text is cut at every separator |
| Text.JoinSplit | src/lib.rs:155 | splitting joined pieces that lack the separator's first character gives the pieces back |
| Text.TrimUnchanged | src/lib.rs:152 | trimming leaves text unchanged when it neither starts nor ends with whitespace |
| Text.Trim | src/lib.rs:152 | trimming removes whitespace at both ends and leaves a middle that starts and ends with no whitespace |
| Text.DropLast | src/lib.rs:153 | `pop` removes the last character, and leaves empty text empty |
| Text.ToLower | src/lib.rs:159 | lower-casing keeps the length and maps each character on its own |

## Left out

- Floating-point magnitudes and exponents are not modelled. Magnitudes and exponents are `int`. An exponent literal is read as an optional sign, then digits with at most one `.`, classified as integral or fractional; it is not an `f64`, and NaN, infinities and the `e` notation are out. `InvalidCast` is raised exactly for a fractional literal on a recognised symbol. The cast that fails only for out-of-range values is out, since exponents are unbounded here.
- The `div_f64_si_values` test (`src/lib.rs:369-375`) is left out, because it divides `f64` magnitudes.
- Integer width is not modelled. Magnitudes and exponents are unbounded, so `i32` overflow (a panic or wrap-around in Rust) is out.
- SiValues.Div and SiValues.Quotient require a non-zero divisor magnitude when both operands are valid. Rust's integer division panics there, and the model does not describe a panic.
- `prse::try_parse!` is modelled by its observable grammar, not by its code:
  - the split at the first " (";
  - the leading `(`;
  - the split at every `)(` as `str::split` does;
  - the split at the first `^`.
  
  How it treats whitespace around the placeholders is not modelled.
- Integer text is read as an optional sign followed by one or more ASCII digits. Rust's `FromStr` accepts the same forms, width aside.
- Trimming uses Rust's Unicode whitespace set. Lower-casing is ASCII only, so `to_lowercase` on non-ASCII letters is not modelled. Unknown symbols are ignored either way, so it affects only whether such a symbol is recognised.
- `SiUnit::new` is the datatype constructor `SiUnits.SiUnit`, and `TryFrom<&str>` is the same operation as `TryFrom<String>`, since Dafny has one string type.
- `Display` for an arbitrary magnitude type `T` is not modelled. Magnitudes are written by a decimal integer printer.
- The derived `Debug`, `Clone` and `Copy` are left out.
- `InvalidUnit` is declared and never produced, as in the source.
- `SiValue` is modelled as the source's struct of two options, not as a two-case datatype. The values the source builds have both parts or neither, which the `WellFormed` predicate states and `SiValueLaws.OperationsWellFormed` proves.
