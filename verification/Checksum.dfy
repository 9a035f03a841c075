// Sums of 32-bit words modulo 2^32, and checksums that make a structure sum to
// zero: the flash segment sums and the volume header sum both work this way.
module Checksum {
  import opened Words

  // The sum of the words, unreduced.
  function Sum(s: seq<Word>): (n: nat) {
    if s == [] then 0 else Sum(s[..|s| - 1]) + s[|s| - 1]
  }

  predicate SumsToZero(s: seq<Word>) {
    Sum(s) % TWO_TO_THE_32 == 0
  }

  // 32-bit addition and negation, which wrap around.
  function Add(a: Word, b: Word): Word {
    (a + b) % TWO_TO_THE_32
  }

  function Negate(a: Word): Word {
    (TWO_TO_THE_32 - a) % TWO_TO_THE_32
  }

  // A running sum may wrap at every step.
  lemma AddWraps(x: nat, w: Word)
    ensures Add(x % TWO_TO_THE_32, w) == (x + w) % TWO_TO_THE_32
  {}

  lemma {:induction false} SumConcat(s: seq<Word>, t: seq<Word>)
    ensures Sum(s + t) == Sum(s) + Sum(t)
  {
    if t == [] {
      assert s + t == s;
    } else {
      SumConcat(s, t[..|t| - 1]);
      assert (s + t)[..|s + t| - 1] == s + t[..|t| - 1];
    }
  }

  // Words that sum to zero add nothing.
  lemma ZeroAddsNothing(s: seq<Word>, t: seq<Word>)
    requires SumsToZero(s)
    ensures SumsToZero(s + t) <==> SumsToZero(t)
  {
    SumConcat(s, t);
    AddRemainders(Sum(s), Sum(t));
  }

  // One more word of a running sum.
  lemma SumStep(s: seq<Word>, i: nat)
    requires i < |s|
    ensures Sum(s[..i + 1]) == Sum(s[..i]) + s[i]
  {
    assert s[..i + 1][..i] == s[..i];
  }

  // A sum kept modulo 2^32 takes in the next word, or the next few.
  lemma PassWord(ws: seq<Word>, i: nat)
    requires i < |ws|
    ensures Add(Sum(ws[..i]) % TWO_TO_THE_32, ws[i]) == Sum(ws[..i + 1]) % TWO_TO_THE_32
  {
    SumStep(ws, i);
    AddWraps(Sum(ws[..i]), ws[i]);
  }

  lemma PassWords(ws: seq<Word>, i: nat, j: nat)
    requires i <= j <= |ws|
    ensures Add(Sum(ws[..i]) % TWO_TO_THE_32, Sum(ws[i..j]) % TWO_TO_THE_32) == Sum(ws[..j]) % TWO_TO_THE_32
  {
    assert ws[..j] == ws[..i] + ws[i..j];
    SumConcat(ws[..i], ws[i..j]);
    AddRemainders(Sum(ws[..i]), Sum(ws[i..j]));
  }

  lemma AddRemainders(a: nat, b: nat)
    ensures Add(a % TWO_TO_THE_32, b % TWO_TO_THE_32) == (a + b) % TWO_TO_THE_32
  {
    var q, r := a / TWO_TO_THE_32, b / TWO_TO_THE_32;
    assert a + b == a % TWO_TO_THE_32 + b % TWO_TO_THE_32 + (q + r) * TWO_TO_THE_32;
  }

  lemma SumUpdate(s: seq<Word>, i: nat, w: Word)
    requires i < |s|
    ensures Sum(s[i := w]) == Sum(s) - s[i] + w
  {
    var t := s[i := w];
    assert s == s[..i] + ([s[i]] + s[i + 1..]);
    assert t == s[..i] + ([w] + s[i + 1..]);
    SumConcat(s[..i], [s[i]] + s[i + 1..]);
    SumConcat([s[i]], s[i + 1..]);
    SumConcat(s[..i], [w] + s[i + 1..]);
    SumConcat([w], s[i + 1..]);
    SumOne(s[i]);
    SumOne(w);
  }

  lemma SumOne(w: Word)
    ensures Sum([w]) == w
  {
    assert [w][..0] == [];
  }

  // The word in slot i makes the structure sum to zero exactly when it is the
  // negated sum of all the others.
  lemma OnlyOneChecksum(s: seq<Word>, i: nat, w: Word)
    requires i < |s|
    ensures SumsToZero(s[i := w]) <==> w == Negate(Sum(s[i := 0]) % TWO_TO_THE_32)
  {
    SumUpdate(s, i, w);
    SumUpdate(s, i, 0);
  }

  // A change confined to one word of a structure that summed to zero shows.
  lemma OneChangeDetected(s: seq<Word>, i: nat, w: Word)
    requires SumsToZero(s) && i < |s| && w != s[i]
    ensures !SumsToZero(s[i := w])
  {
    SumUpdate(s, i, w);
  }

  // Exactly the changes of two words that cancel go unseen.
  lemma TwoChangesDetected(s: seq<Word>, i: nat, v: Word, j: nat, w: Word)
    requires SumsToZero(s) && i < |s| && j < |s| && i != j
    ensures SumsToZero(s[i := v][j := w]) <==> Add(v, w) == Add(s[i], s[j])
  {
    SumUpdate(s, i, v);
    SumUpdate(s[i := v], j, w);
    SameRemainder(Sum(s), (s[i] as int) + s[j], (v as int) + w);
  }

  lemma SameRemainder(total: int, gone: int, come: int)
    requires total % TWO_TO_THE_32 == 0
    ensures (total - gone + come) % TWO_TO_THE_32 == 0 <==> gone % TWO_TO_THE_32 == come % TWO_TO_THE_32
  {
    var q := total / TWO_TO_THE_32;
    assert total - gone + come == q * TWO_TO_THE_32 + (come - gone);
    assert (come - gone) % TWO_TO_THE_32 == 0 <==> gone % TWO_TO_THE_32 == come % TWO_TO_THE_32;
  }
}
