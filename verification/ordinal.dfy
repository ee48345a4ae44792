/** The base-37 ordinal of a label (`get_general_value`) and the enumeration
    bounds derived from it (`set_general_bounds`). The ordinal reads a label as a
    number written most significant character first, each character standing for
    its position in the alphabet. */
module Ordinal {
  import opened Alphabet
  import opened Wrappers

  /** Python's `pow(b, e)` for natural numbers. */
  function Pow(b: nat, e: nat): (r: nat)
    ensures b > 0 ==> r > 0
  {
    if e == 0 then 1 else b * Pow(b, e - 1)
  }

  /** The place values of labels up to five characters. */
  lemma SmallPowers()
    ensures Pow(37, 1) == 37 && Pow(37, 2) == 1369 && Pow(37, 3) == 50653
    ensures Pow(37, 4) == 1874161 && Pow(37, 5) == 69343957
  {
    assert Pow(37, 1) == 37;
    assert Pow(37, 2) == 1369;
    assert Pow(37, 3) == 50653;
    assert Pow(37, 4) == 1874161;
  }

  lemma Distrib(a: int, b: int, p: int)
    ensures (a + b) * p == a * p + b * p
  {
  }

  lemma {:induction false} AtLeastOnce(d: nat, p: nat)
    requires d >= 1
    ensures d * p >= p
  {
    if d > 1 {
      AtLeastOnce(d - 1, p);
      Distrib(d - 1, 1, p);
    }
  }

  /** A larger leading digit outweighs everything after it: `x * p + p <= y * p`
      whenever `x < y`. */
  lemma DigitGap(x: nat, y: nat, p: nat)
    requires x < y
    ensures x * p + p <= y * p
  {
    Distrib(x, y - x, p);
    AtLeastOnce(y - x, p);
  }

  lemma Assoc37(x: nat, e: nat)
    ensures x * (37 * e) == (x * e) * 37
  {
  }

  /** The ordinal, read most significant character first: each further
      character multiplies the value so far by the base and adds its own
      position in the alphabet. Every label of length n has an ordinal below
      `37^n`. */
  function GeneralValue(w: string): (r: nat)
    requires IsLabel(w)
    ensures r < Pow(37, |w|)
  {
    if w == [] then 0
    else GeneralValue(w[..|w| - 1]) * 37 + Index(w[|w| - 1])
  }

  /** Appending a character multiplies the ordinal by the base and adds the
      character's position (Horner's rule). */
  lemma ValueAppend(p: string, c: char)
    requires IsLabel(p) && InAlphabet(c)
    ensures IsLabel(p + [c])
    ensures GeneralValue(p + [c]) == GeneralValue(p) * 37 + Index(c)
  {
    assert (p + [c])[..|p|] == p;
  }

  /** The positional reading: the first character of a label weighs
      `37^(number of characters after it)`. */
  lemma {:induction false} ValuePrepend(c: char, s: string)
    requires InAlphabet(c) && IsLabel(s)
    ensures IsLabel([c] + s)
    ensures GeneralValue([c] + s) == Index(c) * Pow(37, |s|) + GeneralValue(s)
  {
    var q := [c] + s;
    if s == [] {
      assert q[..0] == [];
    } else {
      var init, d := s[..|s| - 1], s[|s| - 1];
      assert q[..|q| - 1] == [c] + init;
      ValuePrepend(c, init);
      var e := Pow(37, |init|);
      calc {
        GeneralValue(q);
        GeneralValue([c] + init) * 37 + Index(d);
        (Index(c) * e + GeneralValue(init)) * 37 + Index(d);
        { Assoc37(Index(c), e); }
        Index(c) * (37 * e) + GeneralValue(init) * 37 + Index(d);
      }
    }
  }

  /** `get_general_value`: the accumulator loop over `reversed(word)`, adding
      `possible_vals.index(v) * pow(37, i)` for the i-th character from the end.
      Python raises ValueError on a character outside the alphabet, hence the
      precondition. */
  method GetGeneralValue(word: string) returns (ret: nat)
    requires IsLabel(word)
    ensures ret == GeneralValue(word)
  {
    ret := 0;
    var i := 0;
    while i < |word|
      invariant 0 <= i <= |word|
      invariant ret == GeneralValue(word[|word| - i..])
    {
      var v := word[|word| - 1 - i];
      assert word[|word| - 1 - i..] == [v] + word[|word| - i..];
      ValuePrepend(v, word[|word| - i..]);
      ret := ret + Index(v) * Pow(37, i);
      i := i + 1;
    }
    assert word[0..] == word;
  }

  /** Lexicographic order by alphabet position: `a` comes strictly before `b`. */
  predicate Precedes(a: string, b: string)
    requires IsLabel(a) && IsLabel(b) && |a| == |b|
  {
    |a| > 0 && (Index(a[0]) < Index(b[0]) || (a[0] == b[0] && Precedes(a[1..], b[1..])))
  }

  /** Splitting a non-empty label into its first symbol and the rest. */
  lemma Split(a: string)
    requires IsLabel(a) && |a| > 0
    ensures IsLabel(a[1..])
    ensures GeneralValue(a) == Index(a[0]) * Pow(37, |a| - 1) + GeneralValue(a[1..])
  {
    assert a == [a[0]] + a[1..];
    ValuePrepend(a[0], a[1..]);
  }

  /** Of two labels of equal length whose first symbols differ, the one with the
      smaller first symbol has the smaller ordinal. */
  lemma FirstSymbolDecides(a: string, b: string)
    requires IsLabel(a) && IsLabel(b) && |a| == |b| > 0 && Index(a[0]) < Index(b[0])
    ensures GeneralValue(a) < GeneralValue(b)
  {
    Split(a);
    Split(b);
    DigitGap(Index(a[0]), Index(b[0]), Pow(37, |a| - 1));
  }

  /** For labels of equal length the ordinal is strictly monotonic in the
      alphabet-position order, in both directions. */
  lemma {:induction false} ValueOrder(a: string, b: string)
    requires IsLabel(a) && IsLabel(b) && |a| == |b|
    ensures GeneralValue(a) < GeneralValue(b) <==> Precedes(a, b)
  {
    if a != [] {
      if Index(a[0]) < Index(b[0]) {
        FirstSymbolDecides(a, b);
      } else if Index(b[0]) < Index(a[0]) {
        FirstSymbolDecides(b, a);
        assert a[0] != b[0];
      } else {
        IndexInjective(a[0], b[0]);
        Split(a);
        Split(b);
        ValueOrder(a[1..], b[1..]);
      }
    }
  }

  /** Two labels of equal length with the same ordinal are the same label. */
  lemma {:induction false} ValueInjective(a: string, b: string)
    requires IsLabel(a) && IsLabel(b) && |a| == |b|
    requires GeneralValue(a) == GeneralValue(b)
    ensures a == b
  {
    if a != [] {
      var p := Pow(37, |a| - 1);
      var x, y := Index(a[0]), Index(b[0]);
      ValuePrepend(a[0], a[1..]);
      ValuePrepend(b[0], b[1..]);
      assert a == [a[0]] + a[1..] && b == [b[0]] + b[1..];
      assert GeneralValue(a) == x * p + GeneralValue(a[1..]);
      assert GeneralValue(b) == y * p + GeneralValue(b[1..]);
      if x < y {
        DigitGap(x, y, p);
      } else if y < x {
        DigitGap(y, x, p);
      }
      IndexInjective(a[0], b[0]);
      ValueInjective(a[1..], b[1..]);
      assert a == [a[0]] + a[1..] && b == [b[0]] + b[1..];
    }
  }

  /** The label of length `n` whose ordinal is `v`: the base-37 digits of `v`. */
  function WordOf(v: nat, n: nat): (w: string)
    requires v < Pow(37, n)
    ensures |w| == n && IsLabel(w)
    ensures GeneralValue(w) == v
  {
    if n == 0 then []
    else
      var init := WordOf(v / 37, n - 1);
      IndexOfSymbol(v % 37);
      ValueAppend(init, Symbol(v % 37));
      init + [Symbol(v % 37)]
  }

  /** The ordinal is a bijection between the labels of length n and the numbers
      below 37^n: decoding the ordinal of a label gives the label back. */
  lemma LabelRoundTrip(w: string)
    requires IsLabel(w)
    ensures WordOf(GeneralValue(w), |w|) == w
  {
    ValueInjective(WordOf(GeneralValue(w), |w|), w);
  }

  /** The enumeration range of one generation length: the two boundary strings
      and their ordinals. */
  datatype Bounds = Bounds(begin: string, end: string, minVal: nat, maxVal: nat)

  /** Why `set_general_bounds` fails: a configuration key is absent (KeyError)
      or a boundary string has a character outside the alphabet (ValueError). */
  datatype BoundsError = MissingKey(key: string) | NotALabel(key: string)

  /** `set_general_bounds(len_str)`: read `gen_<len>_begin` and `gen_<len>_end`
      from the configuration and take their ordinals as the enumeration bounds. */
  function SetGeneralBounds(config: map<string, string>, lenStr: string): (r: Result<Bounds, BoundsError>)
    ensures r.Success? <==>
      var kb, ke := "gen_" + lenStr + "_begin", "gen_" + lenStr + "_end";
      kb in config && ke in config && IsLabel(config[kb]) && IsLabel(config[ke])
    ensures r.Success? ==>
      var b := r.value;
      b.begin == config["gen_" + lenStr + "_begin"] && b.end == config["gen_" + lenStr + "_end"]
      && IsLabel(b.begin) && IsLabel(b.end)
      && b.minVal < Pow(37, |b.begin|) && b.maxVal < Pow(37, |b.end|)
      && WordOf(b.minVal, |b.begin|) == b.begin && WordOf(b.maxVal, |b.end|) == b.end
      && (|b.begin| == |b.end| ==> (b.minVal <= b.maxVal <==> !Precedes(b.end, b.begin)))
  {
    var kb, ke := "gen_" + lenStr + "_begin", "gen_" + lenStr + "_end";
    if kb !in config then Failure(MissingKey(kb))
    else if ke !in config then Failure(MissingKey(ke))
    else if !IsLabel(config[kb]) then Failure(NotALabel(kb))
    else if !IsLabel(config[ke]) then Failure(NotALabel(ke))
    else
      var begin, end := config[kb], config[ke];
      LabelRoundTrip(begin);
      LabelRoundTrip(end);
      if |begin| == |end| then ValueOrder(end, begin); Success(Bounds(begin, end, GeneralValue(begin), GeneralValue(end)))
      else Success(Bounds(begin, end, GeneralValue(begin), GeneralValue(end)))
  }
}
