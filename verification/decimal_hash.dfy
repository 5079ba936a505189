/** The translation of `java.math.BigDecimal.hashCode`: the base-31 hash of the coefficient's 32-bit words. */
module DecimalHash {
  import opened Bytes
  import opened Bits
  import opened Hashing
  import opened Decimals

  /** The 32-bit words of a magnitude, most significant first. */
  function Words(v: nat): seq<int> {
    if v == 0 then [] else Words(v / TWO32) + [v % TWO32]
  }

  function TopWord(v: nat): int {
    if v < TWO32 then v else TopWord(v / TWO32)
  }

  /** The words the loop collects: it stops as soon as what is left is 0 or 1. */
  function LoopWords(v: nat): seq<int> {
    if v <= 1 then [] else LoopWords(v / TWO32) + [v % TWO32]
  }

  /** The base-31 value of the words modulo 2^32. */
  function WordHash(ws: seq<int>): int {
    Poly31(0, ws) % TWO32
  }

  lemma WordHashStep(ws: seq<int>, w: int)
    ensures WordHash(ws + [w]) == (31 * WordHash(ws) + w) % TWO32
  {
    Poly31Step(0, ws, w);
    hide Poly31;
    var p := Poly31(0, ws);
    assert p == (p / TWO32) * TWO32 + p % TWO32;
    assert 31 * p + w == (31 * (p % TWO32) + w) + TWO32 * (31 * (p / TWO32));
    AddMultiple(31 * (p % TWO32) + w, 31 * (p / TWO32));
  }

  lemma {:induction false} ShiftStep(v: nat, order: nat)
    ensures v / Pow2(order + 32) == v / Pow2(order) / TWO32
    decreases order
  {
    Powers();
    if order == 0 {
      assert Pow2(0) == 1;
    } else {
      var p, q := Pow2(order - 1), Pow2(order + 31);
      ShiftStep(v / 2, order - 1);
      DivPow2(v, p);
      DivPow2(v, q);
      assert Pow2(order) == 2 * p && Pow2(order + 32) == 2 * q;
    }
  }

  lemma DivLe(v: nat, p: int)
    requires p >= 1
    ensures 0 <= v / p <= v
  {
    assert v == p * (v / p) + v % p;
    if v / p > v { MulGe(p, v / p); }
  }

  /** The words as the loop keeps them: in signed 32-bit fields. */
  function AsSigned(ws: seq<int>): (r: seq<int>)
    ensures |r| == |ws|
  {
    seq(|ws|, i requires 0 <= i < |ws| => Wrap32(ws[i]))
  }

  /** The magnitude loop, from the least significant word up. */
  method Magnitude(value: nat) returns (magnitude: seq<int>)
    ensures magnitude == AsSigned(LoopWords(value))
  {
    hide LoopWords, Pow2, Wrap32;
    magnitude := [];
    var order := 0;
    ghost var words := [];
    LoopStart(value);
    while true
      invariant LoopWords(value) == LoopWords(value / Pow2(order)) + words && magnitude == AsSigned(words)
      decreases value / Pow2(order)
    {
      var elem := value / Pow2(order);
      DivLe(value, Pow2(order));
      if elem > 1 {
        ShiftStep(value, order);
        LoopWordsStep(elem, words);
        words := [elem % TWO32] + words;
        FieldOfWord(elem);
        magnitude := [Wrap32(elem)] + magnitude;
        order := order + 32;
      } else {
        break;
      }
    }
    NoWordsLeft(value / Pow2(order), words);
  }

  lemma FieldOfWord(elem: int)
    ensures Wrap32(elem) == Wrap32(elem % TWO32)
  {}

  lemma LoopStart(value: nat)
    ensures value / Pow2(0) == value && LoopWords(value) + [] == LoopWords(value)
  {}

  lemma LoopWordsStep(elem: nat, magnitude: seq<int>)
    requires elem > 1
    ensures LoopWords(elem) + magnitude == LoopWords(elem / TWO32) + ([elem % TWO32] + magnitude)
    ensures 0 <= elem / TWO32 < elem
  {
    var rest, w := LoopWords(elem / TWO32), elem % TWO32;
    Reassociate(rest, w, magnitude);
  }

  lemma Reassociate(a: seq<int>, x: int, b: seq<int>)
    ensures (a + [x]) + b == a + ([x] + b)
  {}

  lemma NoWordsLeft(elem: int, magnitude: seq<int>)
    requires 0 <= elem <= 1
    ensures LoopWords(elem) + magnitude == magnitude
  {}

  /** The hash of the inflated form: Horner's rule over the magnitude, masked at each step. */
  method InflatedHash(value: nat) returns (intHash: int)
    ensures intHash == WordHash(LoopWords(value))
  {
    var magnitude := Magnitude(value);
    ghost var words := LoopWords(value);
    WordsAreWords(value);
    intHash := 0;
    for i := 0 to |magnitude|
      invariant intHash == WordHash(words[..i])
    {
      WordHashStep(words[..i], words[i]);
      assert words[..i + 1] == words[..i] + [words[i]];
      WordOfField(words[i]);
      Masked(magnitude[i]);
      Masked(31 * intHash + words[i]);
      intHash := And(31 * intHash + And(magnitude[i], LONG_MASK), LONG_MASK);
    }
    assert words[..|words|] == words;
  }

  lemma {:induction false} WordsAreWords(v: nat)
    ensures forall i :: 0 <= i < |LoopWords(v)| ==> 0 <= LoopWords(v)[i] < TWO32
  {
    if v > 1 { WordsAreWords(v / TWO32); }
  }

  lemma WordOfField(w: int)
    requires 0 <= w < TWO32
    ensures Wrap32(w) % TWO32 == w
  {}

  lemma Masked(v: int)
    ensures And(v, LONG_MASK) == v % TWO32
  {
    Powers();
    AndMask(v, 32);
  }

  /** The compact branch: the two halves of a 64-bit number. */
  function CompactHash(value: nat): int {
    (value / TWO32 * 31 + value % TWO32) % TWO32
  }

  /** A coefficient's hash with sign and scale. */
  function Combine(wordHash: int, n: Decimal): int {
    Wrap32(31 * wordHash * (if n.negative then -1 else 1) - n.exponent)
  }

  /** `java.math.BigDecimal.hashCode` of a number in normal form. */
  function JavaHash(n: Decimal): int {
    Combine(WordHash(Words(n.coefficient)), n)
  }

  /** The number that words spell in base 2^32. */
  function Spelled(ws: seq<int>): int {
    if ws == [] then 0 else 0x1_0000_0000 * Spelled(ws[..|ws| - 1]) + ws[|ws| - 1]
  }

  /** The words are the coefficient's digits in base 2^32, without leading zeros. */
  lemma {:induction false} WordsSpell(v: nat)
    ensures Spelled(Words(v)) == v && (forall i :: 0 <= i < |Words(v)| ==> 0 <= Words(v)[i] < 0x1_0000_0000)
    ensures v > 0 ==> Words(v) != [] && Words(v)[0] > 0
  {
    if v > 0 {
      WordsSpell(v / TWO32);
      var rest := Words(v / TWO32);
      assert (rest + [v % TWO32])[..|rest|] == rest;
    }
  }

  /** Java's hash, from the words: 31 * (w[0] * 31^(n-1) + ... + w[n-1]) with the sign of the number, plus its scale. */
  lemma JavaHashSpelled(n: Decimal)
    ensures var sum := WeightedSum(Words(n.coefficient)) % 0x1_0000_0000;
      JavaHash(n) == Wrap32((if n.negative then -31 * sum else 31 * sum) - n.exponent)
  {
    PolyIsWeightedSum(0, Words(n.coefficient));
    hide Poly31, WeightedSum, Words, Pow31, Wrap32;
  }

  /** A coefficient for which the translation goes wrong. */
  predicate LosesTopWord(coefficient: nat) {
    coefficient >= MAX_LONG && TopWord(coefficient) == 1
  }

  /** `decimal_hashcode`: of the number normalised in the context; no hash if that overflows. It is Java's hash exactly
      unless the coefficient has left the compact range and its top word is 1; then it is Java's hash of the number
      without that word. */
  method DecimalHashcode(ctx: ValidContext, d: Decimal) returns (h: Option<int>)
    ensures h.Some? <==> Fix(ctx, d).Some?
    ensures h.Some? ==> var n := Fix(ctx, d).value;
      && (h.value == JavaHash(n) <==> !LosesTopWord(n.coefficient))
      && (LosesTopWord(n.coefficient) ==> h.value == Combine(WordHash(Words(n.coefficient)[1..]), n))
  {
    hide WordHash, Words, Wrap32, LoopWords, CompactHash, TopWord, Fix;
    var normalised := Fix(ctx, d);
    if normalised.None? { return None; }
    var n := normalised.value;
    var sign := if n.negative then -1 else 1;
    var intHash;
    if n.coefficient < MAX_LONG {
      intHash := CompactHash(n.coefficient);
      CompactIsWordHash(n.coefficient);
    } else {
      intHash := InflatedHash(n.coefficient);
      LoopDropsOne(n.coefficient);
      if TopWord(n.coefficient) == 1 { DroppedWordShows(LoopWords(n.coefficient), n); }
    }
    h := Some(Wrap32(31 * intHash * sign - n.exponent));
  }

  /** With the top word dropped the final hash is always another one. */
  lemma DroppedWordShows(ws: seq<int>, n: Decimal)
    ensures Combine(WordHash([1] + ws), n) != Combine(WordHash(ws), n)
    ensures ([1] + ws)[1..] == ws
  {
    hide Poly31;
    LeadingOneIsOdd(ws);
    OddRemainders(Poly31(0, [1] + ws), Poly31(0, ws));
    OddShows(WordHash([1] + ws), WordHash(ws), n.negative, n.exponent);
  }

  lemma OddRemainders(a: int, b: int)
    requires (a - b) % 2 == 1
    ensures (a % TWO32 - b % TWO32) % 2 == 1
  {
    var h := HalfOfDropped(a);
    var k := HalfOfDropped(b);
    StillOdd(a - b, h - k);
  }

  lemma HalfOfDropped(a: int) returns (h: int)
    ensures a % TWO32 == a - 2 * h
  {
    h := TWO31 * (a / TWO32);
  }

  lemma StillOdd(x: int, h: int)
    requires x % 2 == 1
    ensures (x - 2 * h) % 2 == 1
  {}

  lemma OddShows(a: int, b: int, negative: bool, e: int)
    requires (a - b) % 2 == 1
    ensures var sign := if negative then -1 else 1;
      Wrap32(31 * a * sign - e) != Wrap32(31 * b * sign - e)
  {}

  /** The smallest coefficient on which it goes wrong. */
  lemma TwoTo64LosesItsTopWord()
    ensures LosesTopWord(TWO32 * TWO32) && Words(TWO32 * TWO32) == [1, 0, 0] && !LosesTopWord(1)
    ensures forall c: nat :: c < TWO32 * TWO32 ==> !LosesTopWord(c)
  {
    assert Words(1) == Words(0) + [1] && Words(TWO32) == Words(1) + [0];
    assert Words(TWO32 * TWO32) == Words(TWO32) + [0];
    assert TopWord(TWO32) == 1;
    forall c: nat | MAX_LONG <= c < TWO32 * TWO32 ensures TopWord(c) != 1 {
      assert TopWord(c) == TopWord(c / TWO32) == c / TWO32;
    }
  }

  /** The compact branch is the word formula for at most two words. */
  lemma CompactIsWordHash(v: nat)
    requires v < TWO32 * TWO32
    ensures CompactHash(v) == WordHash(Words(v))
  {
    var hi, lo := v / TWO32, v % TWO32;
    assert Words(hi) == if hi == 0 then [] else [hi] by {
      if hi > 0 { assert hi / TWO32 == 0 && hi % TWO32 == hi; assert Words(0) == []; }
    }
    if v > 0 {
      WordHashStep(Words(hi), lo);
      if hi > 0 { OneWord(hi); }
      assert WordHash([]) == 0;
      HornerTwo(hi, lo);
    }
  }

  lemma OneWord(w: int)
    requires 0 <= w < TWO32
    ensures WordHash([w]) == w
  {
    WordHashStep([], w);
    assert [] + [w] == [w] && Poly31(0, []) == 0;
  }

  lemma HornerTwo(hi: int, lo: int)
    ensures (31 * hi + lo) % TWO32 == (hi * 31 + lo) % TWO32
  {}

  /** The loop collects all the words, except for a most significant word that is 1. */
  lemma {:induction false} LoopDropsOne(v: nat)
    requires v > 0
    ensures Words(v) == if TopWord(v) == 1 then [1] + LoopWords(v) else LoopWords(v)
  {
    var q := v / TWO32;
    if v == 1 {
      assert Words(1) == Words(0) + [1] && Words(0) == [];
    } else if v < TWO32 {
      assert q == 0 && Words(0) == [] && LoopWords(0) == [];
    } else {
      LoopDropsOne(q);
      if TopWord(v) == 1 { assert [1] + (LoopWords(q) + [v % TWO32]) == ([1] + LoopWords(q)) + [v % TWO32]; }
    }
  }

  lemma OddStep(a: int, b: int, w: int)
    requires (a - b) % 2 == 1
    ensures ((31 * a + w) - (31 * b + w)) % 2 == 1
  {}

  lemma {:induction false} LeadingOneIsOdd(ws: seq<int>)
    ensures (Poly31(0, [1] + ws) - Poly31(0, ws)) % 2 == 1
    decreases |ws|, 0
  {
    hide Poly31;
    if ws == [] {
      OneAlone();
      assert [1] + ws == [1];
    } else {
      var before, w := ws[..|ws| - 1], ws[|ws| - 1];
      LeadingOneStep(before, w);
      assert ws == before + [w];
    }
  }

  lemma OneAlone()
    ensures Poly31(0, [1]) == 1 && Poly31(0, []) == 0
  {
    assert [1] == [] + [1];
    Poly31Step(0, [], 1);
  }

  lemma {:induction false} LeadingOneStep(ws: seq<int>, w: int)
    ensures (Poly31(0, [1] + (ws + [w])) - Poly31(0, ws + [w])) % 2 == 1
    decreases |ws|, 1
  {
    hide Poly31;
    LeadingOneIsOdd(ws);
    assert [1] + (ws + [w]) == ([1] + ws) + [w];
    Poly31Step(0, [1] + ws, w);
    Poly31Step(0, ws, w);
    OddStep(Poly31(0, [1] + ws), Poly31(0, ws), w);
  }

  lemma OddDiffers(a: int, b: int)
    requires (a - b) % 2 == 1
    ensures a % TWO32 != b % TWO32
  {}

  /** Powers of 31 are odd, so a dropped leading word always changes the hash. */
  lemma LeadingOneCounts(ws: seq<int>)
    ensures WordHash([1] + ws) != WordHash(ws)
  {
    hide Poly31;
    LeadingOneIsOdd(ws);
    OddDiffers(Poly31(0, [1] + ws), Poly31(0, ws));
  }

  /** The loop on its own, whatever it is started on, hashes all the words exactly if the top word is not 1. */
  lemma InflatedHashExactly(v: nat)
    requires v > 0
    ensures WordHash(LoopWords(v)) == WordHash(Words(v)) <==> TopWord(v) != 1
  {
    LoopDropsOne(v);
    LeadingOneCounts(LoopWords(v));
  }
}
