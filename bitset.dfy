/**
 * The bitset container of a roaring bitmap: a list of 64-bit words in which
 * value v is present when bit v % 64 of word v / 64 is set. The words are
 * `bv64`, so every word is below 2^64 by its type: the constructor only
 * ever ORs in `1 << pos` with pos < 64.
 */
module Bitset {
  import opened Ordering

  const WordBits: nat := 64

  /**
   * Bit `pos` of `w`, read as `(w >> pos) & 1`. Shift amounts are carried as
   * `bv7`, wide enough for every position below 64.
   */
  predicate BitSet(w: bv64, pos: nat)
    requires pos < WordBits
  {
    (w >> Shift(pos)) & 1 == 1
  }

  /** A bit position as a shift amount; the conversion keeps its value. */
  function Shift(pos: nat): (s: bv7)
    requires pos < WordBits
    ensures s < 64 && s as int == pos
  {
    pos as bv7
  }

  /** The bit-level fact behind SetBitAt, on shift amounts. */
  lemma SetBitAtShift(w: bv64, p: bv7, q: bv7)
    requires p < 64 && q < 64
    ensures ((w | (1 << p)) >> q) & 1 == 1 <==> (w >> q) & 1 == 1 || p == q
  {
  }

  /** Membership: the word index must lie within the list before it is read. */
  predicate Contains(words: seq<bv64>, x: nat)
    ensures Contains(words, x) ==> x / WordBits < |words| && words[x / WordBits] != 0
  {
    var field, pos := x / WordBits, x % WordBits;
    field < |words| && BitSet(words[field], pos)
  }

  /** ORing in `1 << p` sets bit p and leaves every other bit as it was. */
  lemma SetBitAt(w: bv64, p: nat, q: nat)
    requires p < WordBits && q < WordBits
    ensures BitSet(w | (1 << Shift(p)), q) <==> BitSet(w, q) || p == q
  {
    SetBitAtShift(w, Shift(p), Shift(q));
  }

  /** No bit of the zero word is set. */
  lemma ZeroWordEmpty(q: nat)
    requires q < WordBits
    ensures !BitSet(0, q)
  {
  }

  /** The list after appending zero words until it has at least n entries. */
  function Grow(words: seq<bv64>, n: nat): (r: seq<bv64>)
    ensures |r| == if |words| < n then n else |words|
    ensures r[..|words|] == words
    ensures forall i :: |words| <= i < |r| ==> r[i] == 0
  {
    if |words| < n then words + seq(n - |words|, _ => 0) else words
  }

  /** One step of the constructor: grow the list to cover x, then set x's bit. */
  function SetBit(words: seq<bv64>, x: nat): (r: seq<bv64>)
    ensures |words| <= |r| && x / WordBits < |r|
    ensures forall i :: 0 <= i < |words| && i != x / WordBits ==> r[i] == words[i]
  {
    var field, pos := x / WordBits, x % WordBits;
    var grown := Grow(words, field + 1);
    grown[field := grown[field] | (1 << Shift(pos))]
  }

  /** The word list the constructor builds from xs, processed first to last. */
  function Words(xs: seq<nat>): (r: seq<bv64>)
    ensures forall i :: 0 <= i < |xs| ==> xs[i] / WordBits < |r|
  {
    if xs == [] then [] else SetBit(Words(xs[..|xs| - 1]), xs[|xs| - 1])
  }

  /** A value is determined by its word index and bit position. */
  lemma SameFieldAndPosition(x: nat, y: nat)
    ensures x == y <==> x / WordBits == y / WordBits && x % WordBits == y % WordBits
  {
    assert x == WordBits * (x / WordBits) + x % WordBits;
    assert y == WordBits * (y / WordBits) + y % WordBits;
  }

  /** Growing the list with zero words adds no members. */
  lemma GrowContains(words: seq<bv64>, n: nat, y: nat)
    ensures Contains(Grow(words, n), y) <==> Contains(words, y)
  {
    var grown, f := Grow(words, n), y / WordBits;
    if f < |words| {
      assert grown[f] == grown[..|words|][f];
    } else if f < |grown| {
      ZeroWordEmpty(y % WordBits);
    }
  }

  /** Setting x's bit leaves the words of every other index as they were. */
  lemma OrBitOtherWord(words: seq<bv64>, x: nat, y: nat)
    requires x / WordBits < |words| && y / WordBits != x / WordBits
    ensures
      var field := x / WordBits;
      Contains(words[field := words[field] | (1 << Shift(x % WordBits))], y) <==> Contains(words, y)
  {
  }

  /** Within x's own word, setting its bit adds exactly x. */
  lemma OrBitSameWord(words: seq<bv64>, x: nat, y: nat)
    requires x / WordBits < |words| && y / WordBits == x / WordBits
    ensures
      var field := x / WordBits;
      Contains(words[field := words[field] | (1 << Shift(x % WordBits))], y) <==> Contains(words, y) || y == x
  {
    var field, pos, q := x / WordBits, x % WordBits, y % WordBits;
    var w := words[field];
    SetBitAt(w, pos, q);
    assert BitSet(w | (1 << Shift(pos)), q) <==> BitSet(w, q) || pos == q;
    SameFieldAndPosition(x, y);
  }

  /** Setting x's bit in a list that already covers x adds exactly x. */
  lemma OrBitContains(words: seq<bv64>, x: nat, y: nat)
    requires x / WordBits < |words|
    ensures
      var field := x / WordBits;
      Contains(words[field := words[field] | (1 << Shift(x % WordBits))], y) <==> Contains(words, y) || y == x
  {
    if y / WordBits == x / WordBits {
      OrBitSameWord(words, x, y);
    } else {
      OrBitOtherWord(words, x, y);
    }
  }

  /** A list grown to cover x, with x's bit then set, is one constructor step. */
  lemma SetBitStep(before: seq<bv64>, grown: seq<bv64>, x: nat)
    requires |before| <= |grown| <= if |before| < x / WordBits + 1 then x / WordBits + 1 else |before|
    requires |grown| >= x / WordBits + 1
    requires grown[..|before|] == before
    requires forall j :: |before| <= j < |grown| ==> grown[j] == 0
    ensures SetBit(before, x) == grown[x / WordBits := grown[x / WordBits] | (1 << Shift(x % WordBits))]
  {
    assert grown == Grow(before, x / WordBits + 1);
  }

  /** One more input value is one more constructor step. */
  lemma WordsSnoc(xs: seq<nat>, i: nat)
    requires i < |xs|
    ensures Words(xs[..i + 1]) == SetBit(Words(xs[..i]), xs[i])
  {
    assert xs[..i + 1][..i] == xs[..i];
  }

  /** After one step, exactly x has been added to the members. */
  lemma SetBitContains(words: seq<bv64>, x: nat, y: nat)
    ensures Contains(SetBit(words, x), y) <==> Contains(words, y) || y == x
  {
    var grown := Grow(words, x / WordBits + 1);
    GrowContains(words, x / WordBits + 1, y);
    OrBitContains(grown, x, y);
  }

  /** A step never shrinks the list, and grows it just far enough to hold x. */
  lemma SetBitLength(words: seq<bv64>, x: nat)
    ensures |SetBit(words, x)| == if |words| <= x / WordBits then x / WordBits + 1 else |words|
  {
  }

  /** Membership round trip: y is in the built bitset iff y occurs in xs. */
  lemma {:induction false} WordsContains(xs: seq<nat>, y: nat)
    ensures Contains(Words(xs), y) <==> y in xs
  {
    if xs != [] {
      var prefix, last := xs[..|xs| - 1], xs[|xs| - 1];
      assert xs == prefix + [last];
      WordsContains(prefix, y);
      SetBitContains(Words(prefix), last, y);
    }
  }

  /**
   * Size: the list has one word per 64 values up to the largest value, and
   * no words at all for an empty input.
   */
  lemma {:induction false} WordsLength(xs: seq<nat>)
    ensures |Words(xs)| == if xs == [] then 0 else Max(xs) / WordBits + 1
  {
    if xs != [] {
      var prefix, last := xs[..|xs| - 1], xs[|xs| - 1];
      assert xs == prefix + [last];
      SetBitLength(Words(prefix), last);
      if prefix != [] {
        WordsLength(prefix);
      }
    }
  }

  /**
   * On the list the constructor stores, every query on a value past the
   * largest input's word is false without reading a word.
   */
  lemma BeyondLastWord(xs: seq<nat>, y: nat)
    requires xs == [] || Max(xs) / WordBits < y / WordBits
    ensures y / WordBits >= |Words(Sort(xs))| && !Contains(Words(Sort(xs)), y)
  {
    var sorted := Sort(xs);
    WordsLength(sorted);
    if xs != [] {
      MaxOfSameMultiset(xs, sorted);
    }
  }

  /**
   * Building from the ascending copy of xs, as the constructor does: the
   * members are exactly the values of xs, and the list has one word per 64
   * values up to the largest.
   */
  lemma SortedWords(xs: seq<nat>)
    ensures forall y :: Contains(Words(Sort(xs)), y) <==> y in xs
    ensures |Words(Sort(xs))| == if xs == [] then 0 else Max(xs) / WordBits + 1
  {
    var sorted := Sort(xs);
    forall y ensures Contains(Words(sorted), y) <==> y in xs {
      WordsContains(sorted, y);
      assert y in sorted <==> y in multiset(xs);
    }
    WordsLength(sorted);
    if xs != [] {
      MaxOfSameMultiset(xs, sorted);
    }
  }

  /**
   * The bitset object. The constructor fills the word list by walking the
   * input in ascending order, appending zero words until the value's word
   * exists and then setting its bit; the list is built in a local and
   * stored once the walk is done.
   */
  class RoaringBits {
    var bitmap: seq<bv64>

    constructor (xs: seq<nat>)
      ensures bitmap == Words(Sort(xs))
      ensures forall y :: Contains(bitmap, y) <==> y in xs
      ensures |bitmap| == if xs == [] then 0 else Max(xs) / WordBits + 1
    {
      var sorted := Sort(xs);
      var words: seq<bv64> := [];
      for i := 0 to |sorted|
        invariant words == Words(sorted[..i])
      {
        var x := sorted[i];
        var field, pos := x / WordBits, x % WordBits;
        ghost var before := words;
        while |words| < field + 1
          invariant |before| <= |words| <= if |before| < field + 1 then field + 1 else |before|
          invariant words[..|before|] == before
          invariant forall j :: |before| <= j < |words| ==> words[j] == 0
          decreases field + 1 - |words|
        {
          words := words + [0];
        }
        SetBitStep(before, words, x);
        words := words[field := words[field] | (1 << Shift(pos))];
        WordsSnoc(sorted, i);
      }
      assert sorted[..|sorted|] == sorted;
      SortedWords(xs);
      bitmap := words;
    }
  }
}
