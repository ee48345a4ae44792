/** The domain-string validity filter. A string without a dot is a bare label; a
    string with a dot is a label followed by a top-level domain. Both forms are
    judged by the character-set and hyphen rules of `is_valid_domain`, with the
    same Python string primitives (`find`, negative indexing, substring test). */
module Validity {
  import opened Alphabet

  /** The characters allowed in the dotted form: the alphabet and the dot. */
  const ValidChars: string := PossibleVals + "."

  predicate InValidChars(c: char) {
    InAlphabet(c) || c == '.'
  }

  /** Every character of `s` is in `valid_chars`. */
  predicate AllValidChars(s: string) {
    forall i | 0 <= i < |s| :: InValidChars(s[i])
  }

  lemma ValidCharsMembership(s: string)
    ensures AllValidChars(s) <==> AllIn(s, ValidChars)
  {
    SymbolsAreAlphabet();
    assert forall c :: c in ValidChars <==> c in PossibleVals || c == '.';
  }

  /** Python's `s.find(c)` for a one-character needle: the index of the first
      occurrence of `c`, or -1 when there is none. */
  function Find(s: string, c: char): (r: int)
    ensures r == -1 <==> c !in s
    ensures r != -1 ==> 0 <= r < |s| && s[r] == c && c !in s[..r]
  {
    if s == [] then -1
    else if s[0] == c then 0
    else
      var k := Find(s[1..], c);
      assert s == [s[0]] + s[1..];
      if k == -1 then -1
      else
        assert s[..k + 1] == [s[0]] + s[1..][..k];
        k + 1
  }

  /** Python indexing `s[i]`, where a negative `i` counts from the end: the
      index is taken modulo the length. */
  function At(s: string, i: int): (c: char)
    requires -|s| <= i < |s|
    ensures c == s[(i + |s|) % |s|]
  {
    if i < 0 then s[|s| + i] else s[i]
  }

  /** Python's `xy in s` for a two-character needle: some slice of length two
      spells the needle. */
  function HasPair(s: string, x: char, y: char): (r: bool)
    ensures r <==> exists i | 0 <= i < |s| :: [x, y] <= s[i..]
  {
    PairPrefixes(s, x, y);
    exists i | 0 <= i < |s| - 1 :: s[i] == x && s[i + 1] == y
  }

  /** Two readings of "the needle occurs": at adjacent positions, or as the
      prefix of a suffix. */
  lemma PairPrefixes(s: string, x: char, y: char)
    ensures (exists i | 0 <= i < |s| - 1 :: s[i] == x && s[i + 1] == y) <==>
      exists i | 0 <= i < |s| :: [x, y] <= s[i..]
  {
    if exists i | 0 <= i < |s| - 1 :: s[i] == x && s[i + 1] == y {
      var i :| 0 <= i < |s| - 1 && s[i] == x && s[i + 1] == y;
      assert s[i..][..2] == [x, y];
    }
    if exists i | 0 <= i < |s| :: [x, y] <= s[i..] {
      var i :| 0 <= i < |s| && [x, y] <= s[i..];
      assert s[i..][0] == x && s[i..][1] == y;
    }
  }

  /** `is_valid_domain`. Python raises IndexError on `string[0]` for the empty
      string, so the empty string is excluded by the precondition. In the dotted
      form only the character before the FIRST dot is tested, and when the
      string starts with a dot that character is `s[-1]`, the last one. */
  function IsValidDomain(s: string): (r: bool)
    requires |s| > 0
    ensures r ==> s[0] != '-' && !HasPair(s, '-', '-') && AllValidChars(s)
    ensures r && '.' !in s ==> IsLabel(s) && s[|s| - 1] != '-'
    ensures r && '.' in s ==> !HasPair(s, '.', '.')
  {
    var dot := Find(s, '.');
    if dot != -1 then
      !(!AllValidChars(s) || s[0] == '-' || At(s, dot - 1) == '-'
        || HasPair(s, '-', '-') || HasPair(s, '.', '.'))
    else
      !(!IsLabel(s) || s[0] == '-' || At(s, -1) == '-'
        || HasPair(s, '-', '-'))
  }

  /** A bare label is valid exactly when it is over the alphabet, neither starts
      nor ends with a hyphen and has no two hyphens in a row. */
  lemma BareLabelValidity(s: string)
    requires |s| > 0 && '.' !in s
    ensures IsValidDomain(s) <==>
      IsLabel(s) && s[0] != '-' && s[|s| - 1] != '-' && !HasPair(s, '-', '-')
  {
  }

  /** A string whose first dot is at position `d` is valid exactly when it is
      over the alphabet plus the dot, does not start with a hyphen, the character
      before that first dot (the last character when `d` is 0) is not a hyphen,
      and it contains neither "--" nor "..". */
  lemma DottedValidity(s: string, d: nat)
    requires d < |s| && s[d] == '.' && '.' !in s[..d]
    ensures IsValidDomain(s) <==>
      AllValidChars(s) && s[0] != '-'
      && (if d == 0 then s[|s| - 1] else s[d - 1]) != '-'
      && !HasPair(s, '-', '-') && !HasPair(s, '.', '.')
  {
    assert s[d] in s;
  }

  /** The dotted form accepts a hyphen right after the dot, which is also a
      hyphen at the end of the top-level domain: only the character before the
      dot is tested. */
  lemma HyphenAfterDotAccepted()
    ensures IsValidDomain("a.-")
  {
    DottedValidity("a.-", 1);
  }

  /** Only the first dot is looked at: a hyphen before a later dot goes through,
      one before the first dot does not. */
  lemma OnlyFirstDotChecked()
    ensures IsValidDomain("a.-.b") && !IsValidDomain("a-.b")
  {
    assert IsValidDomain("a.-.b") by { DottedValidity("a.-.b", 1); }
    assert !IsValidDomain("a-.b") by { DottedValidity("a-.b", 2); }
  }

  /** With a leading dot the tested character is `s[-1]`, the last one. */
  lemma LeadingDotTestsLastChar()
    ensures IsValidDomain(".a") && !IsValidDomain(".a-")
  {
    assert IsValidDomain(".a") by { DottedValidity(".a", 0); }
    assert !IsValidDomain(".a-") by { DottedValidity(".a-", 0); }
  }
}
