/** Which numbers of a document are integers, and that an integer survives being
    printed and read: the partner of `ncfg_json_int` (client/ncfg_json.c). */
module JsonIntegers {
  import opened Bytes
  import opened Decimals
  import opened JsonSpec
  import opened JsonText
  import opened JsonGrammar
  import opened JsonReaders

  lemma PlainNumeral(n: Numeral)
    requires n.fraction.None? && n.exponent.None?
    ensures SpellNumeral(n) == SpellInteger(n)
  {}

  /** A number reads as an integer exactly when the grammar gave it neither a
      fraction nor an exponent. */
  lemma IntegralExactly(n: Numeral)
    requires GoodNumeral(n)
    ensures Integral(SpellNumeral(n)) <==> n.fraction.None? && n.exponent.None?
  {
    var t := SpellNumeral(n);
    var sign, whole := if n.minus then [MINUS] else [], |SpellInteger(n)|;
    assert Magnitude(t) == t[|sign|..];
    if n.fraction.None? && n.exponent.None? {
      PlainNumeral(n);
      assert Magnitude(t) == n.whole;
    } else {
      assert t[whole] == (if n.fraction.Some? then DOT else n.exponent.value.mark);
      assert Magnitude(t)[whole - |sign|] == t[whole];
    }
  }

  /** An integer as JSON writes it. */
  function IntegerText(z: int): (r: Bytes) {
    if z < 0 then [MINUS] + Decimal(-z) else Decimal(z)
  }

  /** Every integer, printed, is a document that is that number and no other. */
  lemma IntegerRoundTrip(z: int)
    ensures ParseDocument(IntegerText(z)) == Some(Number(IntegerText(z)))
    ensures Integral(IntegerText(z)) && IntegerValue(IntegerText(z)) == z
  {
    hide Decimal, ParseDocument;
    var t := IntegerText(z);
    var magnitude := if z < 0 then -z else z;
    var n := Numeral(z < 0, Decimal(magnitude), None, None);
    DecimalValue(magnitude);
    PlainNumeral(n);
    IntegralExactly(n);
    assert Magnitude(t) == Decimal(magnitude);
    var tree := NumberTree(n);
    assert t == [] + (Spell(tree) + []);
    SpelledIsRead(t, [], tree, [], Number(t));
  }

  /** Reading a printed 64-bit integer gives it back, at both ends of the range too. */
  method ReadBack(z: int64, fallback: int64) returns (r: int64)
    ensures r == z
  {
    hide Decimal, ParseDocument, Integral, IntegerValue;
    IntegerRoundTrip(z);
    TwentyDigits();
    var n: int := z;
    DecimalLength(if n < 0 then -n else n, 20);
    var d := Read(IntegerText(z));
    r := Int(d.value, 0, fallback);
  }
}
