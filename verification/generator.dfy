/** The bounded label generators `create_gen_root_2/3/4` and
    `create_gen_root_5_end4`. Each enumerates words over the alphabet with nested
    loops, most significant position outermost, leaves the hyphen out of the last
    position, filters, skips words below the lower ordinal and returns at the
    first word above the upper ordinal.

    The nested loops visit words in strictly increasing ordinal, so at any point
    "the words visited so far" are exactly the words whose ordinal is below the
    ordinal of the current word (the cursor). The invariant `Done` says the
    output holds exactly the wanted words below the cursor, in ascending order;
    this is what makes the early return safe. */
module Generator {
  import opened Alphabet
  import opened Validity
  import opened Ordinal

  /** Which enumeration: labels of length `len` whose first character lies in the
      range given by the bounds (`create_gen_root_<len>`), or length-5 labels
      behind a fixed leading character (`create_gen_root_5_end4(first)`). */
  datatype Gen = Plain(b: Bounds, len: nat) | Shard(b: Bounds, first: char)

  function Width(g: Gen): (n: nat) {
    match g
    case Plain(_, n) => n
    case Shard(_, _) => 5
  }

  /** `possible_vals.index(gen_s_begin[0])` and `possible_vals.index(gen_s_end[0])`
      are defined: both boundary strings are non-empty and start with a symbol
      of the alphabet. */
  predicate FirstCharsDefined(b: Bounds) {
    |b.begin| > 0 && |b.end| > 0 && InAlphabet(b.begin[0]) && InAlphabet(b.end[0])
  }

  predicate Usable(g: Gen) {
    match g
    case Plain(b, n) => n > 0 && FirstCharsDefined(b)
    case Shard(_, f) => InAlphabet(f)
  }

  /** The words an enumeration is meant to produce, irrespective of where it
      stops. For the plain generators: a valid label of the right length whose
      first character lies between the first characters of the boundary
      strings and whose ordinal lies within the bounds. For the length-5 shard:
      the fixed first character, then four symbols with no trailing hyphen and no
      "--" among them, with the ordinal of the whole word within the bounds. */
  ghost predicate Wanted(g: Gen, w: string) {
    match g
    case Plain(b, n) =>
      n > 0 && |w| == n && IsLabel(w) && FirstCharsDefined(b) && IsValidDomain(w)
      && Index(b.begin[0]) <= Index(w[0]) <= Index(b.end[0])
      && b.minVal <= GeneralValue(w) <= b.maxVal
    case Shard(b, f) =>
      |w| == 5 && IsLabel(w) && w[0] == f && w[4] != '-' && !HasPair(w[1..], '-', '-')
      && b.minVal <= GeneralValue(w) <= b.maxVal
  }

  /** Labels in strictly increasing ordinal. */
  ghost predicate Ascending(s: seq<string>) {
    && (forall n :: 0 <= n < |s| ==> IsLabel(s[n]))
    && (forall m, n :: 0 <= m < n < |s| ==> GeneralValue(s[m]) < GeneralValue(s[n]))
  }

  /** The loop invariant: `s` lists, in ascending order, exactly the wanted words
      whose ordinal is below the cursor `c`. */
  ghost predicate Done(g: Gen, s: seq<string>, c: int) {
    && Ascending(s)
    && (forall n :: 0 <= n < |s| ==> Wanted(g, s[n]) && GeneralValue(s[n]) < c)
    && (forall w :: Wanted(g, w) && GeneralValue(w) < c ==> w in s)
  }

  /** The ordinal at which the first word of the enumeration can start, and the
      one just past the last word it can reach. */
  function Lo(g: Gen): (lo: nat)
    requires Usable(g)
  {
    match g
    case Plain(b, n) => Index(b.begin[0]) * Pow(37, n - 1)
    case Shard(_, f) => Index(f) * Pow(37, 4)
  }

  function Hi(g: Gen): (hi: nat)
    requires Usable(g)
  {
    match g
    case Plain(b, n) => (Index(b.end[0]) + 1) * Pow(37, n - 1)
    case Shard(_, f) => (Index(f) + 1) * Pow(37, 4)
  }

  lemma DigitBetween(lo: nat, x: nat, hi: nat, p: nat, rest: nat)
    requires lo <= x <= hi && rest < p
    ensures lo * p <= x * p + rest < (hi + 1) * p
  {
    if lo < x {
      DigitGap(lo, x, p);
    }
    DigitGap(x, hi + 1, p);
  }

  /** A label whose first symbol has position between `lo` and `hi` has its
      ordinal between `lo * 37^(n-1)` and `(hi + 1) * 37^(n-1)`. */
  lemma FirstDigitRange(w: string, lo: nat, hi: nat)
    requires IsLabel(w) && |w| > 0 && lo <= Index(w[0]) <= hi
    ensures lo * Pow(37, |w| - 1) <= GeneralValue(w) < (hi + 1) * Pow(37, |w| - 1)
  {
    assert w == [w[0]] + w[1..];
    ValuePrepend(w[0], w[1..]);
    DigitBetween(lo, Index(w[0]), hi, Pow(37, |w| - 1), GeneralValue(w[1..]));
  }

  /** Every wanted word has its ordinal in `[Lo(g), Hi(g))`, because its first
      character is within the enumerated range. */
  lemma WantedRange(g: Gen, w: string)
    requires Usable(g) && Wanted(g, w)
    ensures |w| == Width(g) && Lo(g) <= GeneralValue(w) < Hi(g)
  {
    match g {
      case Plain(b, n) =>
        FirstDigitRange(w, Index(b.begin[0]), Index(b.end[0]));
      case Shard(_, f) =>
        FirstDigitRange(w, Index(f), Index(f));
    }
  }

  /** The cursor moves past a wanted word: it is appended. A wanted word below
      the new cursor is either below the old one, hence already listed, or has
      the same ordinal as the visited word, hence is that word. */
  lemma DoneAccept(g: Gen, s: seq<string>, word: string)
    requires Wanted(g, word) && Done(g, s, GeneralValue(word))
    ensures Done(g, s + [word], GeneralValue(word) + 1)
  {
    var c := GeneralValue(word);
    var t := s + [word];
    WantedWidth(g, word);
    AscendingAppend(s, word);
    assert forall n :: 0 <= n < |t| ==> Wanted(g, t[n]) && GeneralValue(t[n]) < c + 1 by {
      assert forall n :: 0 <= n < |s| ==> t[n] == s[n];
    }
    forall w | Wanted(g, w) && GeneralValue(w) < c + 1 ensures w in t {
      if GeneralValue(w) == c {
        WantedWidth(g, w);
        ValueInjective(w, word);
      } else {
        assert w in s;
      }
    }
  }

  lemma AscendingAppend(s: seq<string>, word: string)
    requires Ascending(s) && IsLabel(word)
    requires forall n :: 0 <= n < |s| ==> GeneralValue(s[n]) < GeneralValue(word)
    ensures Ascending(s + [word])
  {
    var t := s + [word];
    assert forall n :: 0 <= n < |s| ==> t[n] == s[n];
  }

  /** The cursor moves past an unwanted word: nothing is appended. */
  lemma DoneReject(g: Gen, s: seq<string>, word: string)
    requires |word| == Width(g) && IsLabel(word) && !Wanted(g, word)
    requires Done(g, s, GeneralValue(word))
    ensures Done(g, s, GeneralValue(word) + 1)
  {
    forall w | Wanted(g, w) && GeneralValue(w) < GeneralValue(word) + 1 ensures w in s {
      if GeneralValue(w) == GeneralValue(word) {
        WantedWidth(g, w);
        ValueInjective(w, word);
      }
    }
  }

  lemma WantedWidth(g: Gen, w: string)
    requires Wanted(g, w)
    ensures |w| == Width(g) && IsLabel(w)
  {
  }

  /** The enumeration may stop once the cursor has passed the upper ordinal or
      the last reachable word: every wanted word is then already in `s`. */
  lemma Complete(g: Gen, s: seq<string>, c: int)
    requires Usable(g) && Done(g, s, c)
    requires c > g.b.maxVal || c >= Hi(g)
    ensures forall w :: w in s <==> Wanted(g, w)
  {
    forall w | Wanted(g, w) ensures w in s {
      WantedRange(g, w);
    }
  }

  /** At the start of the enumeration nothing wanted lies below the cursor. */
  lemma Start(g: Gen)
    requires Usable(g)
    ensures Done(g, [], Lo(g))
  {
    forall w | Wanted(g, w) ensures GeneralValue(w) >= Lo(g) {
      WantedRange(g, w);
    }
  }

  /** Two ascending sequences with the same elements are the same sequence: the
      output of a generator is determined by the set of wanted words alone. */
  lemma {:induction false} AscendingUnique(s: seq<string>, t: seq<string>)
    requires Ascending(s) && Ascending(t)
    requires forall w :: w in s <==> w in t
    ensures s == t
  {
    assert s == [] <==> t == [] by {
      if s != [] { assert s[0] in s; }
      if t != [] { assert t[0] in t; }
    }
    if s != [] {
      assert s[0] in s && t[0] in t;
      var m :| 0 <= m < |t| && t[m] == s[0];
      var n :| 0 <= n < |s| && s[n] == t[0];
      assert GeneralValue(t[0]) <= GeneralValue(s[0]);
      assert GeneralValue(s[0]) <= GeneralValue(t[0]);
      assert m == 0;
      forall w ensures w in s[1..] <==> w in t[1..] {
        if w in s[1..] {
          var n :| 1 <= n < |s| && s[n] == w;
          assert GeneralValue(s[0]) < GeneralValue(s[n]);
          assert w in t;
        }
        if w in t[1..] {
          var n :| 1 <= n < |t| && t[n] == w;
          assert GeneralValue(t[0]) < GeneralValue(t[n]);
          assert w in s;
        }
      }
      AscendingUnique(s[1..], t[1..]);
      assert s == [s[0]] + s[1..] && t == [t[0]] + t[1..];
    }
  }

  /** Spelling a word symbol by symbol: appending the symbol at position `k`
      gives the ordinal `value * 37 + k`. */
  lemma Spelled(p: string, k: nat)
    requires IsLabel(p) && k < 37
    ensures IsLabel(p + [Symbol(k)])
    ensures GeneralValue(p + [Symbol(k)]) == GeneralValue(p) * 37 + k
  {
    ValueAppend(p, Symbol(k));
    IndexOfSymbol(k);
  }

  lemma SpelledFirst(k: nat)
    requires k < 37
    ensures IsLabel([Symbol(k)]) && Index(Symbol(k)) == k
    ensures GeneralValue([Symbol(k)]) == k
  {
    Spelled([], k);
    assert [] + [Symbol(k)] == [Symbol(k)];
  }

  /** A word ending in a hyphen is never wanted: it is not a valid domain, and
      the shard filter excludes it explicitly. */
  lemma HyphenEndUnwanted(g: Gen, w: string)
    requires |w| == Width(g) > 0 && IsLabel(w) && w[|w| - 1] == '-'
    ensures !Wanted(g, w)
  {
  }

  /** Within the enumerated range of first characters, a plain generator wants
      exactly the valid domains whose ordinal lies within the bounds. */
  lemma PlainWanted(b: Bounds, n: nat, w: string)
    requires FirstCharsDefined(b) && n > 0 && |w| == n && IsLabel(w)
    requires Index(b.begin[0]) <= Index(w[0]) <= Index(b.end[0])
    ensures Wanted(Plain(b, n), w) <==> IsValidDomain(w) && b.minVal <= GeneralValue(w) <= b.maxVal
  {
  }

  /** The candidate `fchar + word` of the shard: a label of length five whose
      ordinal is `fchar`'s position times `37^4` plus the ordinal of `word`, and
      which is wanted exactly when the four-symbol `word` has no trailing hyphen
      and no "--", and the ordinal lies within the bounds. */
  lemma ShardWord(b: Bounds, f: char, word: string)
    requires InAlphabet(f) && |word| == 4 && IsLabel(word)
    ensures IsLabel([f] + word)
    ensures GeneralValue([f] + word) == Index(f) * 1874161 + GeneralValue(word)
    ensures Wanted(Shard(b, f), [f] + word) <==>
      word[3] != '-' && !HasPair(word, '-', '-') && b.minVal <= GeneralValue([f] + word) <= b.maxVal
  {
    ValuePrepend(f, word);
    SmallPowers();
    assert ([f] + word)[1..] == word;
  }

  /** The shard's counterpart of `SkipHyphen`. */
  lemma ShardSkipHyphen(b: Bounds, f: char, s: seq<string>, q: string)
    requires InAlphabet(f) && |q| == 3 && IsLabel(q)
    requires Done(Shard(b, f), s, Index(f) * 1874161 + GeneralValue(q) * 37 + 36)
    ensures Done(Shard(b, f), s, Index(f) * 1874161 + GeneralValue(q) * 37 + 37)
  {
    Spelled(q, 36);
    ShardWord(b, f, q + [Symbol(36)]);
    DoneReject(Shard(b, f), s, [f] + (q + [Symbol(36)]));
  }

  /** The hyphen in the last position is never enumerated (`possible_vals[:-1]`):
      the cursor can skip it, because a word ending in a hyphen is never wanted. */
  lemma SkipHyphen(g: Gen, s: seq<string>, p: string)
    requires |p| + 1 == Width(g) && IsLabel(p)
    requires Done(g, s, GeneralValue(p) * 37 + 36)
    ensures Done(g, s, GeneralValue(p) * 37 + 37)
  {
    Spelled(p, 36);
    HyphenEndUnwanted(g, p + [Symbol(36)]);
    DoneReject(g, s, p + [Symbol(36)]);
  }

  /** `create_gen_root_2`: the first position runs over the alphabet from the
      first character of the lower boundary string to that of the upper one, the
      second over the alphabet without the hyphen. */
  method CreateGenRoot2(b: Bounds) returns (strings: seq<string>)
    requires FirstCharsDefined(b)
    ensures Ascending(strings)
    ensures forall w :: w in strings <==> Wanted(Plain(b, 2), w)
  {
    ghost var g := Plain(b, 2);
    var lo, hi := Index(b.begin[0]), Index(b.end[0]);
    SmallPowers();
    assert Lo(g) == lo * 37 && Hi(g) == (hi + 1) * 37;
    SymbolsListed();
    strings := [];
    Start(g);
    var i := lo;
    while i <= hi
      invariant lo <= i
      invariant Done(g, strings, i * 37)
    {
      SpelledFirst(i);
      var j := 0;
      while j < 36
        invariant 0 <= j <= 36
        invariant Done(g, strings, i * 37 + j)
      {
        var word := [PossibleVals[i]] + [PossibleVals[j]];
        assert word == [Symbol(i)] + [Symbol(j)];
        Spelled([Symbol(i)], j);
        PlainWanted(b, Width(g), word);
        if IsValidDomain(word) {
          var v := GetGeneralValue(word);
          if v < b.minVal {
            DoneReject(g, strings, word);
          } else if v > b.maxVal {
            Complete(g, strings, i * 37 + j);
            return;
          } else {
            DoneAccept(g, strings, word);
            strings := strings + [word];
          }
        } else {
          DoneReject(g, strings, word);
        }
        j := j + 1;
      }
      SkipHyphen(g, strings, [Symbol(i)]);
      i := i + 1;
    }
    Complete(g, strings, i * 37);
  }

  /** `create_gen_root_3`: as `create_gen_root_2` with a middle position that
      runs over the whole alphabet. */
  method CreateGenRoot3(b: Bounds) returns (strings: seq<string>)
    requires FirstCharsDefined(b)
    ensures Ascending(strings)
    ensures forall w :: w in strings <==> Wanted(Plain(b, 3), w)
  {
    ghost var g := Plain(b, 3);
    var lo, hi := Index(b.begin[0]), Index(b.end[0]);
    SmallPowers();
    assert Lo(g) == lo * 1369 && Hi(g) == (hi + 1) * 1369;
    SymbolsListed();
    strings := [];
    Start(g);
    var i := lo;
    while i <= hi
      invariant lo <= i
      invariant Done(g, strings, i * 1369)
    {
      SpelledFirst(i);
      var j := 0;
      while j < 37
        invariant 0 <= j <= 37
        invariant Done(g, strings, (i * 37 + j) * 37)
      {
        ghost var p := [Symbol(i)] + [Symbol(j)];
        Spelled([Symbol(i)], j);
        var k := 0;
        while k < 36
          invariant 0 <= k <= 36
          invariant Done(g, strings, (i * 37 + j) * 37 + k)
        {
          var word := [PossibleVals[i]] + [PossibleVals[j]] + [PossibleVals[k]];
          assert word == p + [Symbol(k)];
          Spelled(p, k);
          PlainWanted(b, Width(g), word);
          if IsValidDomain(word) {
            var v := GetGeneralValue(word);
            if v < b.minVal {
              DoneReject(g, strings, word);
            } else if v > b.maxVal {
              Complete(g, strings, (i * 37 + j) * 37 + k);
              return;
            } else {
              DoneAccept(g, strings, word);
              strings := strings + [word];
            }
          } else {
            DoneReject(g, strings, word);
          }
          k := k + 1;
        }
        SkipHyphen(g, strings, p);
        j := j + 1;
      }
      i := i + 1;
    }
    Complete(g, strings, i * 1369);
  }

  /** `create_gen_root_4`: as `create_gen_root_3` with two middle positions. */
  method CreateGenRoot4(b: Bounds) returns (strings: seq<string>)
    requires FirstCharsDefined(b)
    ensures Ascending(strings)
    ensures forall w :: w in strings <==> Wanted(Plain(b, 4), w)
  {
    ghost var g := Plain(b, 4);
    var lo, hi := Index(b.begin[0]), Index(b.end[0]);
    SmallPowers();
    assert Lo(g) == lo * 50653 && Hi(g) == (hi + 1) * 50653;
    SymbolsListed();
    strings := [];
    Start(g);
    var i := lo;
    while i <= hi
      invariant lo <= i
      invariant Done(g, strings, i * 50653)
    {
      SpelledFirst(i);
      var j := 0;
      while j < 37
        invariant 0 <= j <= 37
        invariant Done(g, strings, (i * 37 + j) * 1369)
      {
        ghost var p := [Symbol(i)] + [Symbol(j)];
        Spelled([Symbol(i)], j);
        var k := 0;
        while k < 37
          invariant 0 <= k <= 37
          invariant Done(g, strings, ((i * 37 + j) * 37 + k) * 37)
        {
          ghost var q := p + [Symbol(k)];
          Spelled(p, k);
          var l := 0;
          while l < 36
            invariant 0 <= l <= 36
            invariant Done(g, strings, ((i * 37 + j) * 37 + k) * 37 + l)
          {
            var word := [PossibleVals[i]] + [PossibleVals[j]] + [PossibleVals[k]] + [PossibleVals[l]];
            assert word == q + [Symbol(l)];
            Spelled(q, l);
            PlainWanted(b, Width(g), word);
            if IsValidDomain(word) {
              var v := GetGeneralValue(word);
              if v < b.minVal {
                DoneReject(g, strings, word);
              } else if v > b.maxVal {
                Complete(g, strings, ((i * 37 + j) * 37 + k) * 37 + l);
                return;
              } else {
                DoneAccept(g, strings, word);
                strings := strings + [word];
              }
            } else {
              DoneReject(g, strings, word);
            }
            l := l + 1;
          }
          SkipHyphen(g, strings, q);
          k := k + 1;
        }
        j := j + 1;
      }
      i := i + 1;
    }
    Complete(g, strings, i * 50653);
  }

  /** `create_gen_root_5_end4(fchar)`: four positions over the alphabet (the last
      without the hyphen), kept when the four-symbol word has no "--", and
      `fchar` put in front. The bounds are compared with the ordinal of the
      five-symbol word. `possible_vals.index(fchar)` must be defined, so `fchar`
      is a symbol of the alphabet. The output is NOT passed through
      `is_valid_domain`. */
  method CreateGenRoot5End4(b: Bounds, fchar: char) returns (strings: seq<string>)
    requires InAlphabet(fchar)
    ensures Ascending(strings)
    ensures forall w :: w in strings <==> Wanted(Shard(b, fchar), w)
  {
    ghost var g := Shard(b, fchar);
    ghost var f := Index(fchar);
    SmallPowers();
    assert Lo(g) == f * 1874161 && Hi(g) == f * 1874161 + 1874161;
    SymbolsListed();
    strings := [];
    Start(g);
    var i := 0;
    while i < 37
      invariant 0 <= i <= 37
      invariant Done(g, strings, f * 1874161 + i * 50653)
    {
      SpelledFirst(i);
      var j := 0;
      while j < 37
        invariant 0 <= j <= 37
        invariant Done(g, strings, f * 1874161 + (i * 37 + j) * 1369)
      {
        ghost var q2 := [Symbol(i)] + [Symbol(j)];
        Spelled([Symbol(i)], j);
        var k := 0;
        while k < 37
          invariant 0 <= k <= 37
          invariant Done(g, strings, f * 1874161 + ((i * 37 + j) * 37 + k) * 37)
        {
          ghost var q3 := q2 + [Symbol(k)];
          Spelled(q2, k);
          var l := 0;
          while l < 36
            invariant 0 <= l <= 36
            invariant Done(g, strings, f * 1874161 + ((i * 37 + j) * 37 + k) * 37 + l)
          {
            var word := [PossibleVals[i]] + [PossibleVals[j]] + [PossibleVals[k]] + [PossibleVals[l]];
            assert word == q3 + [Symbol(l)];
            Spelled(q3, l);
            var candidate := [fchar] + word;
            ShardWord(b, fchar, word);
            if word[|word| - 1] != '-' && !HasPair(word, '-', '-') {
              var v := GetGeneralValue(candidate);
              if v < b.minVal {
                DoneReject(g, strings, candidate);
              } else if v > b.maxVal {
                Complete(g, strings, f * 1874161 + ((i * 37 + j) * 37 + k) * 37 + l);
                return;
              } else {
                DoneAccept(g, strings, candidate);
                strings := strings + [candidate];
              }
            } else {
              DoneReject(g, strings, candidate);
            }
            l := l + 1;
          }
          ShardSkipHyphen(b, fchar, strings, q3);
          k := k + 1;
        }
        j := j + 1;
      }
      i := i + 1;
    }
    Complete(g, strings, f * 1874161 + i * 50653);
  }

  /** What every word of `create_gen_root_<n>` looks like: `n` symbols, a
      valid domain, no trailing hyphen, its first character between the first
      characters of the boundary strings and its ordinal within the bounds. */
  lemma PlainWordShape(b: Bounds, n: nat, w: string)
    requires Wanted(Plain(b, n), w)
    ensures |w| == n && IsValidDomain(w) && w[n - 1] != '-'
    ensures Index(b.begin[0]) <= Index(w[0]) <= Index(b.end[0])
    ensures b.minVal <= GeneralValue(w) <= b.maxVal
  {
    assert '.' !in w by {
      forall i | 0 <= i < |w| ensures w[i] != '.' {
        assert InAlphabet(w[i]);
      }
    }
  }

  /** The shard does not filter with `is_valid_domain`: its words are valid
      domains exactly when the leading character is not a hyphen. With `fchar`
      equal to '-' every word it returns starts with a hyphen. */
  lemma ShardValidity(b: Bounds, f: char, w: string)
    requires Wanted(Shard(b, f), w)
    ensures IsValidDomain(w) <==> f != '-'
  {
    assert '.' !in w by {
      forall i | 0 <= i < |w| ensures w[i] != '.' {
        assert InAlphabet(w[i]);
      }
    }
    BareLabelValidity(w);
    if f != '-' {
      forall i | 0 <= i < |w| - 1 && w[i] == '-' ensures w[i + 1] != '-' {
        assert w[1..][i - 1] == w[i] && w[1..][i] == w[i + 1];
      }
    }
  }

}
