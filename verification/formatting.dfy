/** Presentation helpers of the summary cards: `to_text` (main.py lines
    70-71) and the star glyphs of the rating card (main.py line 91). */
module Formatting {
  import opened Text

  /** The digit string cut into groups of three from the right; the first
      group keeps the remaining one to three digits. */
  function Chunks(ds: string): (g: seq<string>)
    requires |ds| >= 1 && AllDigits(ds)
    ensures |g| >= 1 && 1 <= |g[0]| <= 3
    ensures forall i :: 1 <= i < |g| ==> |g[i]| == 3
    ensures forall i :: 0 <= i < |g| ==> AllDigits(g[i])
    ensures Concat(g) == ds
  {
    if |ds| <= 3 then
      assert Concat([ds]) == Concat([]) + ds;
      [ds]
    else
      var head := Chunks(ds[..|ds| - 3]);
      var g := head + [ds[|ds| - 3..]];
      assert g[..|g| - 1] == head;
      assert ds == ds[..|ds| - 3] + ds[|ds| - 3..];
      g
  }

  /** Digits with a comma between thousands groups. */
  function Grouped(ds: string): string
    requires |ds| >= 1 && AllDigits(ds)
  {
    Join(Chunks(ds), ',')
  }

  /** `"{:,}".format(value)` for an integer value: the decimal digits of
      its magnitude grouped by commas, after a minus sign when negative. */
  function ToText(value: int): (r: string)
    ensures Without(r, ',') == Sign(value) + Decimal(Magnitude(value))
  {
    var ds := Decimal(Magnitude(value));
    WithoutGrouped(ds);
    if value < 0 then
      WithoutAppend("-", Grouped(ds), ',');
      WithoutAbsent("-", ',');
      "-" + Grouped(ds)
    else
      Grouped(ds)
  }

  /** The minus sign Python writes before a negative integer. */
  function Sign(value: int): string {
    if value < 0 then "-" else ""
  }

  function Magnitude(value: int): nat {
    if value < 0 then -value else value
  }

  /** Deleting the commas of `ToText(value)` leaves exactly Python's
      `str(value)`: the sign, then the shortest decimal digits of the
      magnitude, whose value is the magnitude. */
  lemma ToTextDigits(value: int)
    ensures Without(ToText(value), ',') == Sign(value) + Decimal(Magnitude(value))
    ensures Value(Decimal(Magnitude(value))) == Magnitude(value)
  {
    var ds := Decimal(Magnitude(value));
    WithoutGrouped(ds);
    ValueOfDecimal(Magnitude(value));
    if value < 0 {
      assert ToText(value) == "-" + Grouped(ds);
      WithoutAppend("-", Grouped(ds), ',');
      WithoutAbsent("-", ',');
    } else {
      assert ToText(value) == Grouped(ds);
    }
  }

  /** After the sign, the text splits at its commas into the thousands
      groups: the first holds one to three digits, every later one exactly
      three, and together they are the decimal digits of the magnitude. */
  lemma ToTextGroups(value: int)
    ensures var body := ToText(value)[|Sign(value)|..];
            var g := Split(body, ',');
            && ToText(value) == Sign(value) + body
            && 1 <= |g[0]| <= 3
            && (forall i :: 1 <= i < |g| ==> |g[i]| == 3)
            && (forall i :: 0 <= i < |g| ==> AllDigits(g[i]))
            && Concat(g) == Decimal(Magnitude(value))
  {
    var ds := Decimal(Magnitude(value));
    var g := Chunks(ds);
    NoCommaInDigits(g);
    SplitJoin(g, ',');
    assert ToText(value) == Sign(value) + Grouped(ds);
    assert ToText(value)[|Sign(value)|..] == Grouped(ds);
  }

  lemma NoCommaInDigits(g: seq<string>)
    requires forall i :: 0 <= i < |g| ==> AllDigits(g[i])
    ensures forall i :: 0 <= i < |g| ==> ',' !in g[i]
  {
  }

  /** Deleting the commas of grouped digits gives the digits back. */
  lemma WithoutGrouped(ds: string)
    requires |ds| >= 1 && AllDigits(ds)
    ensures Without(Grouped(ds), ',') == ds
  {
    var g := Chunks(ds);
    NoCommaInDigits(g);
    WithoutJoin(g, ',');
  }

  /** The star glyph of the rating card. */
  const Star: char := '\U{2B50}'

  /** `'⭐' * n`: the glyph repeated `n` times; Python gives the empty
      string for a count of zero or less. */
  function Stars(n: int): (s: string)
    ensures |s| == (if n > 0 then n else 0)
    ensures forall i :: 0 <= i < |s| ==> s[i] == Star
  {
    if n <= 0 then "" else Stars(n - 1) + [Star]
  }
}
