/** The 37-symbol alphabet every label is built from: the lower-case letters, the
    ten digits and the hyphen, in that order. The position of a symbol in this
    string is its digit in the base-37 ordinal. */
module Alphabet {

  const PossibleVals: string := "abcdefghijklmnopqrstuvwxyz0123456789-"

  /** Membership in the alphabet, by the three blocks it is made of. */
  predicate InAlphabet(c: char) {
    'a' <= c <= 'z' || '0' <= c <= '9' || c == '-'
  }

  /** Every character of `s` belongs to `alphabet`. */
  predicate AllIn(s: string, alphabet: string) {
    forall i | 0 <= i < |s| :: s[i] in alphabet
  }

  /** A label: a string over the 37-symbol alphabet. */
  predicate IsLabel(s: string) {
    forall i | 0 <= i < |s| :: InAlphabet(s[i])
  }

  /** The symbol at position `k` of the alphabet. */
  function Symbol(k: nat): (c: char)
    requires k < 37
    ensures InAlphabet(c)
  {
    if k < 26 then ('a' as int + k) as char
    else if k < 36 then ('0' as int + (k - 26)) as char
    else '-'
  }

  /** The alphabet string lists the symbols in order. */
  lemma SymbolsListed()
    ensures |PossibleVals| == 37
    ensures forall k :: 0 <= k < 37 ==> PossibleVals[k] == Symbol(k)
  {
  }

  /** Membership in the alphabet string is membership in the three blocks. */
  lemma SymbolsAreAlphabet()
    ensures forall c :: c in PossibleVals <==> InAlphabet(c)
  {
    SymbolsListed();
  }

  /** A label is exactly a string all of whose characters are in `possible_vals`. */
  lemma LabelIsAllIn(s: string)
    ensures IsLabel(s) <==> AllIn(s, PossibleVals)
  {
    SymbolsAreAlphabet();
  }

  /** Python's `possible_vals.index(c)`: the position of `c` in the alphabet,
      defined only when `c` occurs (otherwise Python raises ValueError). The
      symbols are distinct, so this is also the first occurrence. */
  function Index(c: char): (r: nat)
    requires InAlphabet(c)
    ensures r < 37 && Symbol(r) == c
  {
    if 'a' <= c <= 'z' then c as int - 'a' as int
    else if '0' <= c <= '9' then 26 + (c as int - '0' as int)
    else 36
  }

  /** Position and symbol are in one-to-one correspondence: looking up the
      symbol at position `k` gives back `k`. */
  lemma IndexOfSymbol(k: nat)
    requires k < 37
    ensures Index(Symbol(k)) == k
  {
  }

  /** Two symbols at the same position are the same symbol. */
  lemma IndexInjective(c: char, d: char)
    requires InAlphabet(c) && InAlphabet(d) && Index(c) == Index(d)
    ensures c == d
  {
  }
}
